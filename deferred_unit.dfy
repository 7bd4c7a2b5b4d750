/** One instance of the component returned by `withHydrationOnDemandClientSide`, as an
    object whose methods update its state in place the way the source's closures update
    the `cleanupFunctions` ref and the `isHydrated` state. Each method is proved to move
    the object's state exactly as the matching function of HydrationSpec does, and to
    keep the invariant of HydrationProps. */
module OnDemand {
  import opened Wrappers
  import opened HydrationSpec
  import P = HydrationProps

  class DeferredUnit {
    const options: Options
    /** The markup captured from the server-rendered element. */
    const html: string

    var phase: Phase
    var hydrated: bool
    /** `cleanupFunctions.current`. */
    var cleanups: seq<Handle>
    /** The browser's registrations made for this unit that can still call back. */
    var armed: set<Source>
    /** Every handle run so far, in order. */
    ghost var released: seq<Handle>
    var nextId: nat

    ghost function State(): UnitState
      reads this
    {
      UnitState(phase, hydrated, cleanups, armed, released, nextId)
    }

    ghost predicate Valid()
      reads this
    {
      P.Valid(State())
    }

    /** First render of one instance: decide the initial state. The markup is read once
        when the component is wrapped and shared by every instance; `element` is what that
        read found. */
    constructor (options: Options, element: Option<string>, forceHydration: bool, probe: Option<bool>)
      ensures this.options == options && html == CapturedHtml(element)
      ensures State() == Initial(options, forceHydration, probe)
      ensures Valid()
    {
      this.options := options;
      html := CapturedHtml(element);
      phase := Rendered;
      hydrated := DefaultHydrationState(options, forceHydration, probe);
      cleanups := [];
      armed := {};
      released := [];
      nextId := 0;
      P.ValidInitial(options, forceHydration, probe);
    }

    /** Run one handle (`fn()` inside `cleanUp`): cancel, disconnect or remove the source
        it names. An internal step of `CleanUp`. */
    method RunHandle(h: Handle)
      modifies this
      ensures armed == if h.disposes.Some? then old(armed) - {h.disposes.value} else old(armed)
      ensures released == old(released) + [h]
      ensures phase == old(phase) && hydrated == old(hydrated)
      ensures cleanups == old(cleanups) && nextId == old(nextId)
    {
      if h.disposes.Some? {
        armed := armed - {h.disposes.value};
      }
      released := released + [h];
    }

    /** `cleanUp`: run the handles in registration order, then empty the list. Called
        by `Hydrate` and `Unmount`; inside `Fire` it runs after the browser has dropped the
        firing source, in a state the invariant does not describe, so it keeps no
        invariant of its own (the callers do). */
    method CleanUp()
      modifies this
      ensures State() == HydrationSpec.CleanUp(old(State()))
    {
      var hs := cleanups;
      var i := 0;
      while i < |hs|
        invariant 0 <= i <= |hs|
        invariant armed == old(armed) - Targets(hs[..i])
        invariant released == old(released) + hs[..i]
        invariant phase == old(phase) && hydrated == old(hydrated)
        invariant cleanups == hs && nextId == old(nextId)
      {
        P.TargetsAppend(hs[..i], hs[i]);
        assert hs[..i + 1] == hs[..i] + [hs[i]];
        RunHandle(hs[i]);
        i := i + 1;
      }
      assert hs[..i] == hs;
      cleanups := [];
    }

    /** `hydrate`. Like `CleanUp`, an internal step of the initialisers and callbacks,
        which keep the invariant. */
    method Hydrate()
      modifies this
      ensures State() == HydrationSpec.Hydrate(old(State()))
    {
      CleanUp();
      if hydrated {
        return;
      }
      hydrated := true;
    }

    /** Register a source with the browser, pushing its disposal handle when `withHandle`:
        the register-and-push shared by the initialisers. An internal step of theirs. */
    method Register(kind: SourceKind, withHandle: bool)
      modifies this
      ensures State() == HydrationSpec.Register(old(State()), kind, withHandle)
    {
      var s := Source(nextId, kind);
      armed := armed + {s};
      if withHandle {
        cleanups := cleanups + [Handle(nextId, Some(s))];
      }
      nextId := nextId + 1;
    }

    /** `initTimeout(delay)`. */
    method InitTimeout(delay: int)
      requires Valid() && phase == Mounted(true)
      modifies this
      ensures State() == HydrationSpec.InitTimeout(old(State()), delay)
      ensures Valid()
    {
      P.ValidInitEvent(State(), Delay(Some(delay)), Capabilities(false, false, false), false);
      if delay <= 0 {
        return;
      }
      Register(Timer(delay), true);
    }

    /** `initIdleCallback`. */
    method InitIdleCallback(caps: Capabilities)
      requires Valid() && phase == Mounted(true)
      modifies this
      ensures State() == HydrationSpec.InitIdleCallback(old(State()), caps)
      ensures Valid()
    {
      P.ValidInitEvent(State(), Idle, caps, false);
      if !caps.requestIdleCallback {
        InitTimeout(2000);
        return;
      }
      Register(IdleRequest(caps.cancelIdleCallback), caps.cancelIdleCallback);
    }

    /** `initIntersectionObserver`. */
    method InitIntersectionObserver(caps: Capabilities, rootPresent: bool)
      requires Valid() && phase == Mounted(true)
      modifies this
      ensures State() == HydrationSpec.InitIntersectionObserver(old(State()), caps, rootPresent)
      ensures Valid()
    {
      P.ValidInitEvent(State(), Visible, caps, rootPresent);
      if !caps.intersectionObserver {
        Hydrate();
        return;
      }
      if !rootPresent {
        Hydrate();
        return;
      }
      Register(Observer, true);
    }

    /** `initDOMEvent`: the listener is added only to a present target, the removal
        handle is pushed in every case. */
    method InitDOMEvent(name: string, targetPresent: bool)
      requires Valid() && phase == Mounted(true)
      modifies this
      ensures State() == HydrationSpec.InitDOMEvent(old(State()), name, targetPresent)
      ensures Valid()
    {
      P.ValidInitEvent(State(), DomEvent(name, Some(targetPresent)), Capabilities(false, false, false), targetPresent);
      var target: Option<Source> := None;
      if targetPresent {
        target := Some(Source(nextId, Listener(name)));
        armed := armed + {target.value};
      }
      cleanups := cleanups + [Handle(nextId, target)];
      nextId := nextId + 1;
    }

    /** `initEvent`. */
    method InitEvent(t: Trigger, caps: Capabilities, rootPresent: bool)
      requires Valid() && phase == Mounted(true)
      modifies this
      ensures State() == HydrationSpec.InitEvent(old(State()), t, caps, rootPresent)
      ensures Valid()
    {
      match t
      case Delay(ms) => InitTimeout(ms.GetOr(2000));
      case Visible => InitIntersectionObserver(caps, rootPresent);
      case Idle => InitIdleCallback(caps);
      case DomEvent(name, target) => InitDOMEvent(name, target.GetOr(rootPresent));
    }

    /** The `on.forEach(...)` loop of the mount effect. */
    method InitEach(on: seq<Trigger>, caps: Capabilities, rootPresent: bool)
      requires Valid() && phase == Mounted(true)
      modifies this
      ensures State() == InitAll(old(State()), on, caps, rootPresent)
      ensures Valid()
    {
      var i := 0;
      while i < |on|
        invariant 0 <= i <= |on|
        invariant State() == InitAll(old(State()), on[..i], caps, rootPresent)
        invariant Valid() && phase == Mounted(true)
      {
        assert on[..i + 1][..i] == on[..i];
        InitEvent(on[i], caps, rootPresent);
        i := i + 1;
      }
      assert on[..i] == on;
    }

    /** The mount effect, run once by React after the first render. */
    method Mount(caps: Capabilities, rootPresent: bool)
      requires Valid() && phase == Rendered
      modifies this
      ensures State() == MountEffect(old(State()), options.on, caps, rootPresent)
      ensures Valid()
    {
      P.ValidMountEffect(State(), options.on, caps, rootPresent);
      if hydrated {
        phase := Mounted(false);
        return;
      }
      P.ValidEnterMount(State());
      phase := Mounted(true);
      InitEach(options.on, caps, rootPresent);
    }

    /** A timer elapses, an idle request is granted or a listened event occurs. */
    method Fire(s: Source)
      requires Valid()
      modifies this
      ensures State() == HydrationSpec.Fire(old(State()), s)
      ensures Valid()
    {
      P.ValidFire(State(), s);
      if s in armed && !s.kind.Observer? {
        armed := armed - {s};
        Hydrate();
      }
    }

    /** The observer reports its first entry. */
    method Intersect(s: Source, e: Entry)
      requires Valid()
      modifies this
      ensures State() == HydrationSpec.Intersect(old(State()), s, e)
      ensures Valid()
    {
      P.ValidIntersect(State(), s, e);
      if s in armed && s.kind.Observer? {
        if !e.isIntersecting || !(e.intersectionRatio > 0.0) {
          return;
        }
        Hydrate();
      }
    }

    /** React unmounts the instance and calls the effect's cleanup, if it returned one. */
    method Unmount()
      requires Valid() && phase.Mounted?
      modifies this
      ensures State() == HydrationSpec.Unmount(old(State()))
      ensures Valid()
      ensures cleanups == [] && forall s | s in armed :: !Cancellable(s)
    {
      P.UnmountReleasesEverything(State());
      P.ValidUnmount(State());
      if phase == Mounted(true) {
        CleanUp();
      }
      phase := Unmounted;
    }

    /** The render choice. */
    function View(): (v: View)
      reads this
      ensures v.Placeholder? <==> !hydrated
      ensures v == HydrationSpec.Render(State(), html)
    {
      if !hydrated then Placeholder(html) else Active(html)
    }
  }
}
