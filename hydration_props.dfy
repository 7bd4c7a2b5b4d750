/** What the scheduler of `withHydrationOnDemandClientSide` guarantees, proved about the
    state machine in hydration_spec.dfy. */
module HydrationProps {
  import opened Wrappers
  import opened HydrationSpec

  // ================================================================ initial state

  /** A unit starts hydrated exactly when no `onBefore` is configured and either
      `forceHydration` holds or `whenInputPending` holds and input is not pending, where
      "pending" is the probe's answer, or the fallback value when there is no probe. */
  lemma StartsHydratedIff(o: Options, forceHydration: bool, probe: Option<bool>)
    ensures Initial(o, forceHydration, probe).hydrated <==>
      !o.hasOnBefore &&
      (forceHydration ||
       (o.whenInputPending && (probe == Some(false) || (probe == None && !o.isInputPendingFallbackValue))))
  {
  }

  /** With `onBefore` configured the unit starts dormant, whatever `forceHydration` and
      the input-pending probe say; it is never called, only tested for presence. */
  lemma OnBeforeStartsDormant(o: Options, forceHydration: bool, probe: Option<bool>, html: string)
    requires o.hasOnBefore
    ensures !Initial(o, forceHydration, probe).hydrated
    ensures Render(Initial(o, forceHydration, probe), html) == Placeholder(html)
  {
  }

  /** With the defaults (no `whenInputPending`, no `onBefore`) only `forceHydration`
      hydrates eagerly, whatever the probe says. */
  lemma DefaultsHydrateOnlyWhenForced(id: string, on: seq<Trigger>, forceHydration: bool, probe: Option<bool>)
    ensures Initial(Options(id, on), forceHydration, probe).hydrated == forceHydration
  {
  }

  /** While dormant the unit shows the placeholder holding the captured markup (empty
      when the element was missing), never the wrapped component; once hydrated it shows
      the component with that same placeholder as Suspense fallback. */
  lemma RenderShowsCapturedMarkup(u: UnitState, element: Option<string>)
    ensures !u.hydrated ==> Render(u, CapturedHtml(element)) == Placeholder(if element.Some? then element.value else "")
    ensures u.hydrated ==> Render(u, CapturedHtml(element)) == Active(CapturedHtml(element))
    ensures Render(u, CapturedHtml(element)).Placeholder? <==> !u.hydrated
  {
  }

  // ================================================================ handle sets

  /** Pushing a handle adds the source it names to the disposable set. */
  lemma TargetsAppend(hs: seq<Handle>, h: Handle)
    ensures Targets(hs + [h]) == Targets(hs) + (if h.disposes.Some? then {h.disposes.value} else {})
  {
  }

  // ================================================================ hydrate

  /** `hydrate` runs every registered handle once, in registration order, disposes the
      sources they name and leaves the list empty and the flag set. */
  lemma HydrateRunsCleanupsInOrder(u: UnitState)
    ensures Hydrate(u).hydrated && Hydrate(u).cleanups == []
    ensures Hydrate(u).released == u.released + u.cleanups
    ensures forall h | h in u.cleanups && h.disposes.Some? :: h.disposes.value !in Hydrate(u).armed
    ensures Hydrate(u).armed == u.armed - Targets(u.cleanups)
    ensures Hydrate(u).phase == u.phase && Hydrate(u).nextId == u.nextId
  {
  }

  /** A second `hydrate` changes nothing. */
  lemma HydrateIdempotent(u: UnitState)
    ensures Hydrate(Hydrate(u)) == Hydrate(u)
  {
  }

  // ================================================================ trigger initialisers

  /** The number of handles one trigger appends when it does not hydrate synchronously. */
  function HandleCount(t: Trigger, caps: Capabilities, rootPresent: bool): (n: nat) {
    match t
    case Delay(ms) => if ms.GetOr(2000) <= 0 then 0 else 1
    case Visible => if caps.intersectionObserver && rootPresent then 1 else 0
    case Idle => if caps.requestIdleCallback && !caps.cancelIdleCallback then 0 else 1
    case DomEvent(_, _) => 1
  }

  /** A `visible` trigger hydrates during the mount loop when there is no
      IntersectionObserver or no root element. */
  predicate HydratesAtOnce(t: Trigger, caps: Capabilities, rootPresent: bool) {
    t.Visible? && !(caps.intersectionObserver && rootPresent)
  }

  /** What each initialiser does, trigger by trigger. */
  lemma InitEventCases(u: UnitState, t: Trigger, caps: Capabilities, rootPresent: bool)
    ensures var r := InitEvent(u, t, caps, rootPresent);
      // delay <= 0 registers nothing and arms nothing: it never fires
      && (t.Delay? && t.ms.Some? && t.ms.value <= 0 ==> r == u)
      // delay without ms is a 2000 ms timer with one cancel handle
      && (t.Delay? && t.ms.None? ==>
            r.armed == u.armed + {Source(u.nextId, Timer(2000))} &&
            r.cleanups == u.cleanups + [Handle(u.nextId, Some(Source(u.nextId, Timer(2000))))])
      && (t.Delay? && t.ms.Some? && t.ms.value > 0 ==>
            r.armed == u.armed + {Source(u.nextId, Timer(t.ms.value))} &&
            r.cleanups == u.cleanups + [Handle(u.nextId, Some(Source(u.nextId, Timer(t.ms.value))))])
      // visible without observer support or root element hydrates now, appending nothing
      && (HydratesAtOnce(t, caps, rootPresent) ==> r == Hydrate(u))
      && (t.Visible? && caps.intersectionObserver && rootPresent ==>
            r.armed == u.armed + {Source(u.nextId, Observer)} &&
            r.cleanups == u.cleanups + [Handle(u.nextId, Some(Source(u.nextId, Observer)))])
      // idle without requestIdleCallback is a 2000 ms delay
      && (t.Idle? && !caps.requestIdleCallback ==> r == InitEvent(u, Delay(None), caps, rootPresent))
      // idle with requestIdleCallback but no cancelIdleCallback arms a request, appends no handle
      && (t.Idle? && caps.requestIdleCallback && !caps.cancelIdleCallback ==>
            r.armed == u.armed + {Source(u.nextId, IdleRequest(false))} && r.cleanups == u.cleanups)
      && (t.Idle? && caps.requestIdleCallback && caps.cancelIdleCallback ==>
            r.armed == u.armed + {Source(u.nextId, IdleRequest(true))} &&
            r.cleanups == u.cleanups + [Handle(u.nextId, Some(Source(u.nextId, IdleRequest(true))))])
      // any other event appends exactly one removal handle, a no-op one for a null target
      && (t.DomEvent? && !t.target.GetOr(rootPresent) ==>
            r.armed == u.armed && r.cleanups == u.cleanups + [Handle(u.nextId, None)])
      && (t.DomEvent? && t.target.GetOr(rootPresent) ==>
            r.armed == u.armed + {Source(u.nextId, Listener(t.name))} &&
            r.cleanups == u.cleanups + [Handle(u.nextId, Some(Source(u.nextId, Listener(t.name))))])
  {
  }

  /** A trigger that does not hydrate synchronously appends exactly `HandleCount` handles
      and touches neither the flag nor the released log. */
  lemma InitEventAppends(u: UnitState, t: Trigger, caps: Capabilities, rootPresent: bool)
    requires !HydratesAtOnce(t, caps, rootPresent)
    ensures var r := InitEvent(u, t, caps, rootPresent);
      && r.hydrated == u.hydrated && r.released == u.released && r.phase == u.phase
      && |r.cleanups| == |u.cleanups| + HandleCount(t, caps, rootPresent)
      && r.cleanups[..|u.cleanups|] == u.cleanups
      && r.nextId >= u.nextId
  {
  }

  // ================================================================ the mount loop

  /** Total number of handles the triggers `ts` append. */
  function Registered(ts: seq<Trigger>, caps: Capabilities, rootPresent: bool): (n: nat)
    decreases |ts|
  {
    if ts == [] then 0
    else Registered(ts[..|ts| - 1], caps, rootPresent) + HandleCount(ts[|ts| - 1], caps, rootPresent)
  }

  /** The loop over `on` composes: running `a + b` is running `a`, then `b`. */
  lemma {:induction false} InitAllConcat(u: UnitState, a: seq<Trigger>, b: seq<Trigger>, caps: Capabilities, rootPresent: bool)
    ensures InitAll(u, a + b, caps, rootPresent) == InitAll(InitAll(u, a, caps, rootPresent), b, caps, rootPresent)
    decreases |b|
  {
    if b == [] {
      assert a + b == a;
    } else {
      var b' := b[..|b| - 1];
      assert (a + b)[..|a + b| - 1] == a + b';
      assert (a + b)[|a + b| - 1] == b[|b| - 1];
      InitAllConcat(u, a, b', caps, rootPresent);
    }
  }

  /** Handles left after the loop were there before it or were registered by it; ids
      only grow, and the released log only grows at its end. */
  lemma {:induction false} InitAllGrows(u: UnitState, ts: seq<Trigger>, caps: Capabilities, rootPresent: bool)
    ensures var r := InitAll(u, ts, caps, rootPresent);
      && r.nextId >= u.nextId
      && (forall h | h in r.cleanups :: h in u.cleanups || h.id >= u.nextId)
      && |r.released| >= |u.released| && r.released[..|u.released|] == u.released
      && r.phase == u.phase
      && (u.hydrated ==> r.hydrated)
    decreases |ts|
  {
    if ts != [] {
      var m := InitAll(u, ts[..|ts| - 1], caps, rootPresent);
      InitAllGrows(u, ts[..|ts| - 1], caps, rootPresent);
      var t := ts[|ts| - 1];
      var r := InitEvent(m, t, caps, rootPresent);
      if HydratesAtOnce(t, caps, rootPresent) {
        assert r == Hydrate(m);
        assert r.released[..|m.released|] == m.released;
      } else {
        InitEventAppends(m, t, caps, rootPresent);
        forall h | h in r.cleanups ensures h in m.cleanups || h.id >= m.nextId {
          var k :| 0 <= k < |r.cleanups| && r.cleanups[k] == h;
          if k < |m.cleanups| {
            assert h == r.cleanups[..|m.cleanups|][k];
          } else {
            assert h.id == m.nextId by {
              match t
              case Delay(ms) =>
              case Visible =>
              case Idle =>
              case DomEvent(_, _) =>
            }
          }
        }
      }
    }
  }

  /** Without a synchronously hydrating trigger, the loop only appends handles: exactly
      `Registered(ts)` of them, one per trigger that registers a disposable source. */
  lemma {:induction false} InitAllAppends(u: UnitState, ts: seq<Trigger>, caps: Capabilities, rootPresent: bool)
    requires forall i | 0 <= i < |ts| :: !HydratesAtOnce(ts[i], caps, rootPresent)
    ensures var r := InitAll(u, ts, caps, rootPresent);
      && r.hydrated == u.hydrated && r.released == u.released
      && |r.cleanups| == |u.cleanups| + Registered(ts, caps, rootPresent)
      && r.cleanups[..|u.cleanups|] == u.cleanups
    decreases |ts|
  {
    if ts != [] {
      var m := InitAll(u, ts[..|ts| - 1], caps, rootPresent);
      InitAllAppends(u, ts[..|ts| - 1], caps, rootPresent);
      InitEventAppends(m, ts[|ts| - 1], caps, rootPresent);
      var r := InitAll(u, ts, caps, rootPresent);
      assert r.cleanups[..|m.cleanups|] == m.cleanups;
      assert r.cleanups[..|u.cleanups|] == r.cleanups[..|m.cleanups|][..|u.cleanups|];
    }
  }

  /** A `visible` trigger that hydrates during the mount loop runs only the handles
      registered so far; the loop goes on, so the triggers after it in `on` still register
      and their handles are the only ones left afterwards. */
  lemma MidLoopHydration(u: UnitState, pre: seq<Trigger>, post: seq<Trigger>, caps: Capabilities, rootPresent: bool)
    requires !caps.intersectionObserver || !rootPresent
    ensures var mid := InitAll(u, pre, caps, rootPresent);
      var r := InitAll(u, pre + [Visible] + post, caps, rootPresent);
      && r.hydrated
      && |r.released| >= |mid.released| + |mid.cleanups|
      && r.released[..|mid.released| + |mid.cleanups|] == mid.released + mid.cleanups
      && (forall h | h in r.cleanups :: h.id >= mid.nextId)
      && ((forall i | 0 <= i < |post| :: !HydratesAtOnce(post[i], caps, rootPresent)) ==>
            |r.cleanups| == Registered(post, caps, rootPresent))
  {
    var mid := InitAll(u, pre, caps, rootPresent);
    InitAllConcat(u, pre + [Visible], post, caps, rootPresent);
    InitAllConcat(u, pre, [Visible], caps, rootPresent);
    var v := InitAll(mid, [Visible], caps, rootPresent);
    assert [Visible][..0] == [];
    assert v == Hydrate(mid);
    var r := InitAll(v, post, caps, rootPresent);
    InitAllGrows(v, post, caps, rootPresent);
    assert r.released[..|v.released|] == v.released;
    assert r.released[..|mid.released| + |mid.cleanups|] == r.released[..|v.released|];
    if forall i | 0 <= i < |post| :: !HydratesAtOnce(post[i], caps, rootPresent) {
      InitAllAppends(v, post, caps, rootPresent);
    }
  }

  /** A unit hydrated at mount initialises no trigger, keeps an empty cleanup list and
      returns no cleanup from its effect. */
  lemma HydratedAtMountRegistersNothing(o: Options, forceHydration: bool, probe: Option<bool>, caps: Capabilities, rootPresent: bool)
    requires Initial(o, forceHydration, probe).hydrated
    ensures var r := MountEffect(Initial(o, forceHydration, probe), o.on, caps, rootPresent);
      r.cleanups == [] && r.armed == {} && r.released == [] && r.phase == Mounted(false)
  {
  }

  // ================================================================ the invariant

  predicate DistinctIds(hs: seq<Handle>) {
    forall i, j | 0 <= i < j < |hs| :: hs[i].id != hs[j].id
  }

  /** Every handle ever registered has its own id and names the source registered with
      it; pending handles name armed sources, run handles name disarmed ones; every armed
      source that can be disposed has a pending handle; and outside an effect that
      returned `cleanUp` nothing is pending. */
  ghost predicate Valid(u: UnitState) {
    && (forall h | h in u.released + u.cleanups ::
          h.id < u.nextId && (h.disposes.Some? ==> h.disposes.value.id == h.id))
    && DistinctIds(u.released + u.cleanups)
    && (forall s | s in u.armed :: s.id < u.nextId)
    && Targets(u.cleanups) <= u.armed
    && Targets(u.released) !! u.armed
    && (forall s | s in u.armed && Cancellable(s) :: s in Targets(u.cleanups))
    && (u.phase.Rendered? ==> u.cleanups == [] && u.armed == {} && u.released == [])
    && (u.phase == Mounted(false) ==> u.cleanups == [] && u.armed == {})
    && (u.phase.Unmounted? ==> u.cleanups == [])
  }

  lemma ValidInitial(o: Options, forceHydration: bool, probe: Option<bool>)
    ensures Valid(Initial(o, forceHydration, probe))
  {
  }

  /** Running the pending handles, after the browser dropped the sources in `gone`,
      keeps the invariant and leaves only sources that cannot be disposed. */
  lemma ValidCleanUp(u: UnitState, gone: set<Source>)
    requires Valid(u)
    ensures var r := CleanUp(u.(armed := u.armed - gone));
      Valid(r) && forall s | s in r.armed :: !Cancellable(s)
  {
  }

  lemma ValidRegister(u: UnitState, kind: SourceKind, withHandle: bool)
    requires Valid(u) && u.phase == Mounted(true)
    requires withHandle == Cancellable(Source(u.nextId, kind))
    ensures Valid(Register(u, kind, withHandle))
  {
    var s := Source(u.nextId, kind);
    var r := Register(u, kind, withHandle);
    if withHandle {
      var h := Handle(u.nextId, Some(s));
      TargetsAppend(u.cleanups, h);
      assert r.released + r.cleanups == (u.released + u.cleanups) + [h];
      assert s !in Targets(u.released);
    } else {
      assert s !in Targets(u.released);
    }
  }

  lemma ValidInitEvent(u: UnitState, t: Trigger, caps: Capabilities, rootPresent: bool)
    requires Valid(u) && u.phase == Mounted(true)
    ensures Valid(InitEvent(u, t, caps, rootPresent))
  {
    match t
    case Delay(ms) =>
      if ms.GetOr(2000) > 0 { ValidRegister(u, Timer(ms.GetOr(2000)), true); }
    case Visible =>
      if caps.intersectionObserver && rootPresent {
        ValidRegister(u, Observer, true);
      } else {
        ValidCleanUp(u, {});
        assert u.(armed := u.armed - {}) == u;
      }
    case Idle =>
      if !caps.requestIdleCallback {
        ValidRegister(u, Timer(2000), true);
      } else {
        ValidRegister(u, IdleRequest(caps.cancelIdleCallback), caps.cancelIdleCallback);
      }
    case DomEvent(name, target) =>
      if target.GetOr(rootPresent) {
        ValidRegister(u, Listener(name), true);
      } else {
        var h := Handle(u.nextId, None);
        var r := InitEvent(u, t, caps, rootPresent);
        TargetsAppend(u.cleanups, h);
        assert r.released + r.cleanups == (u.released + u.cleanups) + [h];
      }
  }

  lemma {:induction false} ValidInitAll(u: UnitState, ts: seq<Trigger>, caps: Capabilities, rootPresent: bool)
    requires Valid(u) && u.phase == Mounted(true)
    ensures Valid(InitAll(u, ts, caps, rootPresent))
    decreases |ts|
  {
    if ts != [] {
      ValidInitAll(u, ts[..|ts| - 1], caps, rootPresent);
      InitAllGrows(u, ts[..|ts| - 1], caps, rootPresent);
      ValidInitEvent(InitAll(u, ts[..|ts| - 1], caps, rootPresent), ts[|ts| - 1], caps, rootPresent);
    }
  }

  /** The state the mount loop starts from (dormant, effect returning `cleanUp`) is
      valid. */
  lemma ValidEnterMount(u: UnitState)
    requires Valid(u) && u.phase == Rendered
    ensures Valid(u.(phase := Mounted(true)))
  {
  }

  lemma ValidMountEffect(u: UnitState, ts: seq<Trigger>, caps: Capabilities, rootPresent: bool)
    requires Valid(u) && u.phase == Rendered
    ensures Valid(MountEffect(u, ts, caps, rootPresent))
  {
    if !u.hydrated {
      ValidInitAll(u.(phase := Mounted(true)), ts, caps, rootPresent);
    }
  }

  lemma ValidFire(u: UnitState, s: Source)
    requires Valid(u)
    ensures Valid(Fire(u, s))
  {
  }

  lemma ValidIntersect(u: UnitState, s: Source, e: Entry)
    requires Valid(u)
    ensures Valid(Intersect(u, s, e))
  {
  }

  lemma ValidUnmount(u: UnitState)
    requires Valid(u)
    ensures Valid(Unmount(u))
  {
  }

  // ================================================================ lifecycle guarantees

  /** Unmounting a mounted unit leaks nothing: every handle ever registered has run,
      exactly once, every source it named is gone, and the only registrations left are
      idle requests the browser gave no way to cancel. */
  lemma UnmountReleasesEverything(u: UnitState)
    requires Valid(u) && u.phase.Mounted?
    ensures var r := Unmount(u);
      && r.cleanups == []
      && r.released == u.released + u.cleanups
      && DistinctIds(r.released)
      && Targets(r.released) !! r.armed
      && (forall s | s in r.armed :: !Cancellable(s))
  {
  }

  /** The first callback to hydrate wins: afterwards the list is empty, every disposable
      source is gone, and a later callback changes neither the flag, the list nor the log
      of run handles (only a non-cancellable idle request can still call back, and then
      the browser merely forgets it). */
  lemma FirstTriggerWins(u: UnitState, s: Source, t: Source, e: Entry)
    requires Valid(u)
    requires s in u.armed && !s.kind.Observer?
    ensures var v := Fire(u, s);
      && v.hydrated && v.cleanups == [] && v.released == u.released + u.cleanups
      && Intersect(v, t, e) == v
      && (Cancellable(t) ==> Fire(v, t) == v)
      && Fire(v, t).hydrated && Fire(v, t).cleanups == [] && Fire(v, t).released == v.released
  {
  }

  /** The same when an intersecting observer entry wins. */
  lemma FirstIntersectionWins(u: UnitState, s: Source, e: Entry, t: Source, e': Entry)
    requires Valid(u)
    requires s in u.armed && s.kind.Observer? && e.isIntersecting && e.intersectionRatio > 0.0
    ensures var v := Intersect(u, s, e);
      && v.hydrated && v.cleanups == [] && v.released == u.released + u.cleanups
      && s !in v.armed
      && Intersect(v, t, e') == v
      && (Cancellable(t) ==> Fire(v, t) == v)
  {
  }

  /** An idle request made without `cancelIdleCallback` stays registered through
      hydration and unmount. When it calls back, it runs `hydrate` like any other
      callback: every handle still pending is run, in order, and the list is emptied.
      After a callback has hydrated, or after unmount, nothing is pending, so it changes
      nothing visible. After a `visible` trigger hydrated in the middle of the mount
      loop, though, the handles of the later triggers are still pending (see
      `MidLoopHydration`), and this callback runs them. */
  lemma StrayIdleCallback(v: UnitState, t: Source)
    requires t in v.armed && t.kind.IdleRequest?
    ensures var r := Fire(v, t);
      && r.hydrated && r.cleanups == [] && t !in r.armed
      && r.released == v.released + v.cleanups
      && (v.cleanups == [] ==> r.released == v.released)
  {
  }

  /** On `[Idle, Visible, click]`, with `requestIdleCallback` and no other capability, the
      visible trigger hydrates during the mount loop. The click listener registered after it
      is still pending, and the idle request, which cannot be cancelled, is still registered.
      When that idle request calls back, it runs the listener's handle. */
  lemma LateIdleCallbackAfterMidLoopHydration(id: string)
    ensures var caps := Capabilities(false, true, false);
      var ts := [Idle, Visible, DomEvent("click", None)];
      var m := MountEffect(Initial(Options(id, ts), false, None), ts, caps, true);
      var idle := Source(0, IdleRequest(false));
      var click := Source(1, Listener("click"));
      var r := Fire(m, idle);
      && m.hydrated
      && m.armed == {idle, click}
      && m.cleanups == [Handle(1, Some(click))]
      && r.cleanups == [] && r.armed == {}
      && r.released == [Handle(1, Some(click))]
  {
    var caps := Capabilities(false, true, false);
    var ts := [Idle, Visible, DomEvent("click", None)];
    var u1 := Initial(Options(id, ts), false, None).(phase := Mounted(true));
    assert ts[..2] == [Idle, Visible];
    assert ts[..2][..1] == [Idle];
    assert ts[..2][..1][..0] == [];
    var idle := Source(0, IdleRequest(false));
    var click := Source(1, Listener("click"));
    var a := InitAll(u1, [Idle], caps, true);
    assert a == Register(u1, IdleRequest(false), false);
    var b := InitAll(u1, [Idle, Visible], caps, true);
    assert b == Hydrate(a);
    assert Targets(a.cleanups) == {};
    assert b.armed == {idle};
    var m := MountEffect(Initial(Options(id, ts), false, None), ts, caps, true);
    assert m == InitDOMEvent(b, "click", true);
    TargetsAppend([], Handle(1, Some(click)));
    assert [Handle(1, Some(click))] == [] + [Handle(1, Some(click))];
  }

  /** The flag never goes back from true to false. */
  lemma HydratedIsMonotone(u: UnitState, s: Source, e: Entry, ts: seq<Trigger>, caps: Capabilities, rootPresent: bool)
    requires u.hydrated
    ensures Fire(u, s).hydrated && Intersect(u, s, e).hydrated && Unmount(u).hydrated
    ensures MountEffect(u, ts, caps, rootPresent).hydrated
  {
  }

  // ================================================================ a worked scenario

  /** `on: ["visible", "idle"]` with every capability and a root element: mounting arms
      an observer and a cancellable idle request; an intersecting entry hydrates once and
      cancels the idle request, which then never calls back. */
  lemma VisibleThenIdleScenario(id: string)
    ensures var caps := Capabilities(true, true, true);
      var u0 := Initial(Options(id, [Visible, Idle]), false, None);
      var obs := Source(0, Observer);
      var idle := Source(1, IdleRequest(true));
      var m := MountEffect(u0, [Visible, Idle], caps, true);
      var v := Intersect(m, obs, Entry(true, 0.5));
      && m.armed == {obs, idle}
      && m.cleanups == [Handle(0, Some(obs)), Handle(1, Some(idle))]
      && !m.hydrated && Render(m, "<p/>") == Placeholder("<p/>")
      && v.hydrated && v.armed == {} && v.released == m.cleanups
      && Fire(v, idle) == v
  {
    var caps := Capabilities(true, true, true);
    var u0 := Initial(Options(id, [Visible, Idle]), false, None);
    var m1 := u0.(phase := Mounted(true));
    assert [Visible, Idle][..1] == [Visible];
    assert [Visible][..0] == [];
    assert InitAll(m1, [Visible], caps, true) == Register(m1, Observer, true);
    var m := MountEffect(u0, [Visible, Idle], caps, true);
    var obs := Source(0, Observer);
    var idle := Source(1, IdleRequest(true));
    assert Targets(m.cleanups) == {obs, idle} by {
      TargetsAppend([Handle(0, Some(obs))], Handle(1, Some(idle)));
      TargetsAppend([], Handle(0, Some(obs)));
      assert [Handle(0, Some(obs)), Handle(1, Some(idle))] == [Handle(0, Some(obs))] + [Handle(1, Some(idle))];
      assert [Handle(0, Some(obs))] == [] + [Handle(0, Some(obs))];
    }
  }
}
