/** The client-side deferred-hydration scheduler of `withHydrationOnDemandClientSide`
    (src/index.tsx), as a pure state machine.

    One wrapped unit holds a hydration flag, an ordered list of disposal handles (the
    `cleanupFunctions` ref) and, on the browser's side, the set of trigger sources that are
    still registered and able to call back (`armed`). Every closure of the source
    (`cleanUp`, `hydrate`, the four initialisers, `initEvent`, the mount effect and the
    callbacks the browser invokes) is a function from the old state to the new one. The
    class in deferred_unit.dfy is proved against these functions. */
module HydrationSpec {
  import opened Wrappers

  /** A configured trigger, one element of the `on` option. The tags stand for the
      switch in `initEvent`: "delay", "visible", "idle", and every other DOM event name. */
  datatype Trigger =
    | Delay(ms: Option<int>)                    // ["delay", ms] or "delay" (ms omitted)
    | Visible                                   // observer options are opaque to the scheduler
    | Idle
    | DomEvent(name: string, target: Option<bool>)
      // target: None = the default getter (the unit's own root element);
      // Some(b) = a custom getter whose element is present exactly when b

  /** The options given to the wrapper, with the source's defaults. `onBefore` is only
      ever tested for presence, so only its presence is kept. */
  datatype Options = Options(
    id: string,
    on: seq<Trigger> := [],
    hasOnBefore: bool := false,
    whenInputPending: bool := false,
    isInputPendingFallbackValue: bool := true)

  /** Which optional browser APIs exist (`'X' in window`). */
  datatype Capabilities = Capabilities(
    intersectionObserver: bool,
    requestIdleCallback: bool,
    cancelIdleCallback: bool)

  /** A callback registration held by the browser on behalf of one trigger. */
  datatype SourceKind =
    | Timer(ms: int)
    | Observer
    | IdleRequest(cancellable: bool)
    | Listener(name: string)

  datatype Source = Source(id: nat, kind: SourceKind)

  /** One entry of `cleanupFunctions`: running it cancels, disconnects or removes the
      source it names; `None` is the removal closure of a listener whose target was null,
      which does nothing. */
  datatype Handle = Handle(id: nat, disposes: Option<Source>)

  /** The first entry an IntersectionObserver reports. */
  datatype Entry = Entry(isIntersecting: bool, intersectionRatio: real)

  /** Lifecycle of the component instance; `cleanupReturned` records whether the mount
      effect returned `cleanUp` for React to call at unmount. */
  datatype Phase = Rendered | Mounted(cleanupReturned: bool) | Unmounted

  /** What the component renders: the placeholder section holding the captured markup,
      or the wrapped component inside a Suspense whose fallback is that same section. */
  datatype View = Placeholder(html: string) | Active(fallbackHtml: string)

  datatype UnitState = UnitState(
    phase: Phase,
    hydrated: bool,
    cleanups: seq<Handle>,
    armed: set<Source>,
    released: seq<Handle>,     // every handle run so far, in the order it ran
    nextId: nat)               // the id the next registration receives

  /** A timer, observer or listener can be disposed through a handle; an idle request can
      only when the browser has `cancelIdleCallback`. */
  predicate Cancellable(s: Source) {
    !(s.kind.IdleRequest? && !s.kind.cancellable)
  }

  // ---------------------------------------------------------------- initial state

  /** `isInputPending`: the probe's answer, or the configured fallback when the
      browser has no `navigator.scheduling.isInputPending`. */
  function IsInputPending(probe: Option<bool>, fallback: bool): (r: bool)
    ensures probe == Some(true) ==> r
    ensures probe == Some(false) ==> !r
    ensures probe == None ==> r == fallback
  {
    probe.GetOr(fallback)
  }

  /** `getDefaultHydrationState`. */
  function DefaultHydrationState(o: Options, forceHydration: bool, probe: Option<bool>): (r: bool)
    ensures o.hasOnBefore ==> !r
    ensures r <==> (!o.hasOnBefore &&
                    (forceHydration ||
                     (o.whenInputPending && (probe == Some(false) || (probe == None && !o.isInputPendingFallbackValue)))))
  {
    var isNotInputPending := o.whenInputPending && !IsInputPending(probe, o.isInputPendingFallbackValue);
    (isNotInputPending || forceHydration) && !o.hasOnBefore
  }

  /** The markup captured from the server-rendered element, "" when it is missing. */
  function CapturedHtml(element: Option<string>): (r: string)
    ensures element == None ==> r == ""
    ensures element.Some? ==> r == element.value
  {
    element.GetOr("")
  }

  function Initial(o: Options, forceHydration: bool, probe: Option<bool>): (r: UnitState)
    ensures r.phase == Rendered && r.cleanups == [] && r.armed == {} && r.released == []
    ensures r.hydrated ==> !o.hasOnBefore
    ensures forceHydration && !o.hasOnBefore ==> r.hydrated
  {
    UnitState(Rendered, DefaultHydrationState(o, forceHydration, probe), [], {}, [], 0)
  }

  // ---------------------------------------------------------------- cleanUp and hydrate

  /** The sources that running the handles `hs` disposes. */
  function Targets(hs: seq<Handle>): (r: set<Source>)
    ensures forall h | h in hs && h.disposes.Some? :: h.disposes.value in r
    ensures hs == [] ==> r == {}
  {
    set h | h in hs && h.disposes.Some? :: h.disposes.value
  }

  /** `cleanUp`: run every handle in order, then empty the list. */
  function CleanUp(u: UnitState): (r: UnitState)
    ensures r.cleanups == [] && r.released == u.released + u.cleanups
    ensures r.armed == u.armed - Targets(u.cleanups) && r.armed <= u.armed
    ensures r.hydrated == u.hydrated && r.phase == u.phase && r.nextId == u.nextId
  {
    u.(cleanups := [], armed := u.armed - Targets(u.cleanups), released := u.released + u.cleanups)
  }

  /** `hydrate`: clean up, then set the flag (setting it again changes nothing). */
  function Hydrate(u: UnitState): (r: UnitState)
    ensures r.hydrated && r.cleanups == [] && r.released == u.released + u.cleanups
    ensures r.armed == u.armed - Targets(u.cleanups)
    ensures r.phase == u.phase && r.nextId == u.nextId
  {
    CleanUp(u).(hydrated := true)
  }

  // ---------------------------------------------------------------- trigger initialisers

  /** Register a new source with the browser, appending its disposal handle when
      `withHandle`. */
  function Register(u: UnitState, kind: SourceKind, withHandle: bool): (r: UnitState)
    ensures r.armed == u.armed + {Source(u.nextId, kind)} && r.nextId == u.nextId + 1
    ensures |r.cleanups| == |u.cleanups| + (if withHandle then 1 else 0)
    ensures r.cleanups[..|u.cleanups|] == u.cleanups
    ensures withHandle ==> r.cleanups[|u.cleanups|] == Handle(u.nextId, Some(Source(u.nextId, kind)))
    ensures r.hydrated == u.hydrated && r.released == u.released && r.phase == u.phase
  {
    var s := Source(u.nextId, kind);
    u.(armed := u.armed + {s},
       cleanups := if withHandle then u.cleanups + [Handle(u.nextId, Some(s))] else u.cleanups,
       nextId := u.nextId + 1)
  }

  /** `initTimeout(delay)`. */
  function InitTimeout(u: UnitState, delay: int): (r: UnitState)
    ensures delay <= 0 ==> r == u
    ensures delay > 0 ==>
      r.armed == u.armed + {Source(u.nextId, Timer(delay))} &&
      r.cleanups == u.cleanups + [Handle(u.nextId, Some(Source(u.nextId, Timer(delay))))]
    ensures r.hydrated == u.hydrated && r.released == u.released
  {
    if delay <= 0 then u else Register(u, Timer(delay), true)
  }

  /** `initIdleCallback`. */
  function InitIdleCallback(u: UnitState, caps: Capabilities): (r: UnitState)
    ensures !caps.requestIdleCallback ==> r == InitTimeout(u, 2000)
    ensures caps.requestIdleCallback ==>
      r.armed == u.armed + {Source(u.nextId, IdleRequest(caps.cancelIdleCallback))} &&
      |r.cleanups| == |u.cleanups| + (if caps.cancelIdleCallback then 1 else 0)
    ensures r.hydrated == u.hydrated && r.released == u.released
  {
    if !caps.requestIdleCallback then InitTimeout(u, 2000)
    else Register(u, IdleRequest(caps.cancelIdleCallback), caps.cancelIdleCallback)
  }

  /** `initIntersectionObserver`; `rootPresent` is whether `rootRef.current` is set. */
  function InitIntersectionObserver(u: UnitState, caps: Capabilities, rootPresent: bool): (r: UnitState)
    ensures !(caps.intersectionObserver && rootPresent) ==>
      r.hydrated && r.cleanups == [] && r.released == u.released + u.cleanups && r.nextId == u.nextId
    ensures caps.intersectionObserver && rootPresent ==>
      r.armed == u.armed + {Source(u.nextId, Observer)} &&
      r.cleanups == u.cleanups + [Handle(u.nextId, Some(Source(u.nextId, Observer)))] &&
      r.hydrated == u.hydrated
  {
    if !caps.intersectionObserver then Hydrate(u)
    else if !rootPresent then Hydrate(u)
    else Register(u, Observer, true)
  }

  /** `initDOMEvent(name, getTarget)`; `targetPresent` is whether the getter returned an
      element. The removal closure is pushed even for a null target. */
  function InitDOMEvent(u: UnitState, name: string, targetPresent: bool): (r: UnitState)
    ensures |r.cleanups| == |u.cleanups| + 1 && r.cleanups[..|u.cleanups|] == u.cleanups
    ensures r.cleanups[|u.cleanups|].disposes.Some? == targetPresent
    ensures r.armed == if targetPresent then u.armed + {Source(u.nextId, Listener(name))} else u.armed
    ensures r.hydrated == u.hydrated && r.released == u.released
  {
    if targetPresent then Register(u, Listener(name), true)
    else u.(cleanups := u.cleanups + [Handle(u.nextId, None)], nextId := u.nextId + 1)
  }

  /** `initEvent`: route one trigger to its initialiser. */
  function InitEvent(u: UnitState, t: Trigger, caps: Capabilities, rootPresent: bool): (r: UnitState)
    ensures r.nextId >= u.nextId && r.phase == u.phase
    ensures u.hydrated ==> r.hydrated
    ensures !t.Visible? ==> r.hydrated == u.hydrated && r.released == u.released && |r.cleanups| <= |u.cleanups| + 1
  {
    match t
    case Delay(ms) => InitTimeout(u, ms.GetOr(2000))
    case Visible => InitIntersectionObserver(u, caps, rootPresent)
    case Idle => InitIdleCallback(u, caps)
    case DomEvent(name, target) => InitDOMEvent(u, name, target.GetOr(rootPresent))
  }

  /** The `on.forEach(...)` loop, trigger by trigger in list order. */
  function InitAll(u: UnitState, ts: seq<Trigger>, caps: Capabilities, rootPresent: bool): (r: UnitState)
    decreases |ts|
 
    ensures r.nextId >= u.nextId && r.phase == u.phase
    ensures u.hydrated ==> r.hydrated
    ensures |r.released| >= |u.released|
  {
    if ts == [] then u
    else InitEvent(InitAll(u, ts[..|ts| - 1], caps, rootPresent), ts[|ts| - 1], caps, rootPresent)
  }

  /** The mount effect: nothing if already hydrated (and no cleanup is returned),
      otherwise initialise every trigger and return `cleanUp`. */
  function MountEffect(u: UnitState, ts: seq<Trigger>, caps: Capabilities, rootPresent: bool): (r: UnitState)
    ensures r.phase == Mounted(!u.hydrated)
    ensures u.hydrated ==> r == u.(phase := Mounted(false))
    ensures u.hydrated ==> r.hydrated
  {
    if u.hydrated then u.(phase := Mounted(false))
    else InitAll(u.(phase := Mounted(true)), ts, caps, rootPresent)
  }

  // ---------------------------------------------------------------- browser callbacks and unmount

  /** A timer elapses, an idle request is granted or a listened event occurs: the browser
      drops the one-shot registration and the callback calls `hydrate`. A source that was
      disposed (or never registered) never calls back. */
  function Fire(u: UnitState, s: Source): (r: UnitState)
    ensures s !in r.armed || s.kind.Observer?
    ensures s in u.armed && !s.kind.Observer? ==>
      r.hydrated && r.cleanups == [] && r.released == u.released + u.cleanups
    ensures !(s in u.armed && !s.kind.Observer?) ==> r == u
  {
    if s in u.armed && !s.kind.Observer? then Hydrate(u.(armed := u.armed - {s})) else u
  }

  /** An observer reports its first entry; it hydrates only on an intersecting entry with
      a positive ratio, and stays registered otherwise. */
  function Intersect(u: UnitState, s: Source, e: Entry): (r: UnitState)
    ensures r == u || (e.isIntersecting && e.intersectionRatio > 0.0 && s in u.armed && r == Hydrate(u))
    ensures !e.isIntersecting || e.intersectionRatio <= 0.0 ==> r == u
  {
    if s in u.armed && s.kind.Observer? && e.isIntersecting && e.intersectionRatio > 0.0 then Hydrate(u)
    else u
  }

  /** React calls the effect's returned cleanup, if there is one. */
  function Unmount(u: UnitState): (r: UnitState)
    ensures r.phase == Unmounted && r.hydrated == u.hydrated
    ensures u.phase == Mounted(true) ==> r.cleanups == [] && r.released == u.released + u.cleanups
    ensures u.phase != Mounted(true) ==> r.cleanups == u.cleanups && r.released == u.released && r.armed == u.armed
  {
    (if u.phase == Mounted(true) then CleanUp(u) else u).(phase := Unmounted)
  }

  /** The render choice of the component. */
  function Render(u: UnitState, html: string): (r: View)
    ensures r.Placeholder? <==> !u.hydrated
    ensures r == Placeholder(html) || r == Active(html)
  {
    if !u.hydrated then Placeholder(html) else Active(html)
  }
}
