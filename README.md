# Hydration on demand: the client-side scheduler

This project models the client side of `withHydrationOnDemand` (src/index.tsx). A wrapped
component is server-rendered into a `<section id=…>`. In the browser, the wrapper keeps
showing that server markup as a placeholder and hydrates the real component only when a
configured trigger fires:

- a `delay`;
- the section becoming `visible`;
- the browser going `idle`;
- any other DOM event.

It hydrates immediately instead when the initial-state decision says so.

The model covers one component instance as a small sequential state machine:

- **initial state**: `getDefaultHydrationState`, from `whenInputPending`, the optional
  `navigator.scheduling.isInputPending` probe with its fallback value, `forceHydration`
  and whether `onBefore` is present;
- **hydration flag**: `isHydrated`, which only ever goes from false to true;
- **cleanup registry**: the ordered list `cleanupFunctions`. Trigger initialisers append
  disposal handles to it; `cleanUp` runs them in order and empties it;
- **trigger dispatch**: `initEvent` and the four initialisers, each with its capability
  fallbacks;
- **browser side**: the set of registrations (timers, observers, idle requests, listeners)
  that can still call back. Browser callbacks are events delivered to the unit from
  outside.

Files:

- `wrappers.dfy`: `Option`.
- `hydration_spec.dfy` (module `HydrationSpec`): the data model and one pure function per
  closure of the source (`CleanUp`, `Hydrate`, `InitTimeout`, `InitIdleCallback`,
  `InitIntersectionObserver`, `InitDOMEvent`, `InitEvent`, the mount loop `InitAll`,
  `MountEffect`, the callbacks `Fire` and `Intersect`, `Unmount`, `Render`).
- `hydration_props.dfy` (module `HydrationProps`): the guarantees, proved about those
  functions. This includes an invariant `Valid` that every operation preserves.
- `deferred_unit.dfy` (module `OnDemand`): class `DeferredUnit`. Its fields are the
  component's mutable state. Each method is proved to move the state exactly as the
  matching specification function does. `CleanUp` and `InitEach` are the source's two loops,
  with their invariants.

Browser capabilities are parameters:

- a `Capabilities` record for `IntersectionObserver`, `requestIdleCallback` and
  `cancelIdleCallback`;
- `rootPresent`, whether `rootRef.current` is set;
- the input-pending probe, as `Option<bool>`;
- the element found by `document.getElementById`, as `Option<string>`.

Timers, observers, idle requests and listeners are `Source` values held in `armed`. A
disposal closure is a `Handle` naming the source it cancels. A `Handle` naming `None` is
the removal closure of a listener whose target was null; running it does nothing. The
ghost log `released` records every handle run, in order.

Behaviour of the code that this model reproduces and that is easy to miss:

- `onBefore` is typed `() => Promise<any>` (src/index.tsx:28), but it is never called.
  The code only tests whether it is present (line 86), which makes the unit start
  dormant. A trigger then hydrates without awaiting anything.
- If a `visible` trigger hydrates synchronously during the mount loop (no
  IntersectionObserver, or no root element), `cleanUp` runs only the handles registered
  so far. The loop goes on, so the triggers after it in `on` still register. Their
  handles stay pending until another callback or unmount runs them
  (`MidLoopHydration`).
- Nothing guards the callbacks against firing twice beyond `cleanUp` itself. An idle
  request made without `cancelIdleCallback` stays registered and can call back later.
  It then runs `hydrate`, which runs every handle still pending (`StrayIdleCallback`).
  - After a callback has hydrated, or after unmount, nothing is pending. Such a late
    callback then changes neither the flag, the handle list nor the run handles
    (`FirstTriggerWins`).
  - After a mid-loop hydration the handles of the later triggers are still pending. The
    late idle callback runs them (`LateIdleCallbackAfterMidLoopHydration`).
- The mount effect returns `cleanUp` only when the unit was dormant at mount (line 184).
  When the unit was already hydrated, nothing was registered and the list is empty, so
  unmount releases everything in both cases (`UnmountReleasesEverything`).

## Model

| member | source | states |
|---|---|---|
| `HydrationSpec.IsInputPending` | src/index.tsx:77-82 | the probe's answer when the browser has one, otherwise the configured fallback value |
| `HydrationSpec.DefaultHydrationState` | src/index.tsx:84-87 | true exactly when no `onBefore` is configured and either `forceHydration` holds or `whenInputPending` holds and input is not pending; never true with `onBefore` |
| `HydrationSpec.CapturedHtml` | src/index.tsx:68 | the element's markup, or "" when the element is missing |
| `HydrationSpec.Initial` | src/index.tsx:74-89 | the first-render state: no handles, no registrations, nothing run, flag from the initial-state decision (never set with `onBefore`, always set when forced without it) |
| `HydrationSpec.Targets` | src/index.tsx:92 | the set of sources the given handles dispose when run; empty for no handles |
| `HydrationSpec.CleanUp` | src/index.tsx:91-94 | the list becomes empty, the run log grows by exactly the old list in order, exactly the named sources are disposed; flag, phase and ids untouched |
| `HydrationSpec.Hydrate` | src/index.tsx:96-100 | the same as `CleanUp`, with the flag set |
| `HydrationSpec.Register` | src/index.tsx:107-162 | arms exactly one new source with a fresh id and appends its disposal handle exactly when asked; nothing else changes |
| `HydrationSpec.InitTimeout` | src/index.tsx:114-119 | a delay of at most 0 changes nothing; otherwise exactly one timer and its cancel handle are added; never hydrates |
| `HydrationSpec.InitIdleCallback` | src/index.tsx:121-139 | without `requestIdleCallback` equals `InitTimeout(2000)`; otherwise one idle request is armed, with one handle only when `cancelIdleCallback` exists; never hydrates |
| `HydrationSpec.InitIntersectionObserver` | src/index.tsx:141-165 | without IntersectionObserver or root element it hydrates, running all pending handles; otherwise one observer and its disconnect handle are added |
| `HydrationSpec.InitDOMEvent` | src/index.tsx:102-112 | exactly one handle is appended, naming a source exactly when the target is present; a listener is armed only then; never hydrates |
| `HydrationSpec.InitEvent` | src/index.tsx:167-181 | ids only grow, the flag is never cleared, and every trigger except `visible` leaves the flag and the run log alone and appends at most one handle |
| `HydrationSpec.InitAll` | src/index.tsx:186-188 | the loop over `on`: ids only grow, phase kept, flag never cleared, run log never shrinks |
| `HydrationSpec.MountEffect` | src/index.tsx:183-190 | the effect returns `cleanUp` exactly when the unit was dormant; a hydrated unit is left as it was |
| `HydrationSpec.Fire` | src/index.tsx:102-139 | a registered one-shot source calls back once: it is no longer registered, the flag is set and every pending handle has run; any other source changes nothing |
| `HydrationSpec.Intersect` | src/index.tsx:153-157 | either nothing changes, or the entry is intersecting with positive ratio on a registered observer and the result is `hydrate`; a non-intersecting entry changes nothing |
| `HydrationSpec.Unmount` | src/index.tsx:183-190 | the unit is unmounted with its flag kept; the pending handles run exactly when the effect returned `cleanUp`, otherwise nothing else changes |
| `HydrationSpec.Render` | src/index.tsx:192-215 | the placeholder exactly while dormant; either way the markup shown is the captured one |
| `HydrationProps.StartsHydratedIff` | src/index.tsx:77-89 | a unit starts hydrated iff no `onBefore` is configured and either `forceHydration` holds or `whenInputPending` holds and input is not pending; "pending" is the probe's answer, else the fallback value |
| `HydrationProps.OnBeforeStartsDormant` | src/index.tsx:84-87 | with `onBefore` configured the unit starts dormant, and renders the placeholder with whatever markup was captured, whatever `forceHydration` and the probe say |
| `HydrationProps.DefaultsHydrateOnlyWhenForced` | src/index.tsx:59-66 | with the default options only `forceHydration` hydrates eagerly |
| `OnDemand.DeferredUnit.constructor` | src/index.tsx:68-89 | holds the markup read when the component was wrapped ("" for a missing element), decides the initial flag, starts with no handles and no registrations |
| `OnDemand.DeferredUnit.CleanUp` | src/index.tsx:91-94 | runs every pending handle in registration order through the helper `RunHandle` (the `fn()` call), disposing each named source; appends them to the run log; empties the list |
| `OnDemand.DeferredUnit.Hydrate` | src/index.tsx:96-100 | cleans up, then sets the flag |
| `HydrationProps.HydrateRunsCleanupsInOrder` | src/index.tsx:91-100 | after `hydrate` the flag is set, the list is empty, the run log grew by exactly the old list in order, and exactly the sources named by it are gone |
| `HydrationProps.HydrateIdempotent` | src/index.tsx:96-100 | a second `hydrate` changes nothing |
| `OnDemand.DeferredUnit.InitDOMEvent` | src/index.tsx:102-112 | registers a listener only on a present target; pushes exactly one removal handle in every case, naming nothing for a null target; keeps the invariant |
| `OnDemand.DeferredUnit.InitTimeout` | src/index.tsx:114-119 | a delay of at most 0 changes nothing; otherwise one timer is registered with one cancel handle, through the helper `Register` that the initialisers share; keeps the invariant |
| `OnDemand.DeferredUnit.InitIdleCallback` | src/index.tsx:121-139 | without `requestIdleCallback` acts as `initTimeout(2000)`; otherwise registers an idle request through `Register`, with a cancel handle only when `cancelIdleCallback` exists; keeps the invariant |
| `OnDemand.DeferredUnit.InitIntersectionObserver` | src/index.tsx:141-165 | without IntersectionObserver or without a root element hydrates at once; otherwise registers an observer with one disconnect handle through `Register`; keeps the invariant |
| `OnDemand.DeferredUnit.InitEvent` | src/index.tsx:167-181 | routes `delay` (default 2000 ms), `visible`, `idle` and any other event name to their initialisers; keeps the invariant |
| `HydrationProps.InitEventCases` | src/index.tsx:114-181 | per trigger: delay at most 0 registers nothing; delay without ms is a 2000 ms timer; visible without support or root is `hydrate`; idle without `requestIdleCallback` is a 2000 ms delay, and without `cancelIdleCallback` appends no handle; each other registration appends exactly one handle |
| `HydrationProps.InitEventAppends` | src/index.tsx:167-181 | a trigger that does not hydrate at once appends exactly its handle count and keeps the flag and the run log |
| `HydrationProps.InitAllConcat` | src/index.tsx:186-188 | the loop over `on` composes: running `a + b` is running `a` then `b` |
| `HydrationProps.InitAllGrows` | src/index.tsx:186-188 | the loop only adds fresh handles, never un-runs a handle, and never clears the flag |
| `HydrationProps.InitAllAppends` | src/index.tsx:186-188 | without a synchronously hydrating trigger the loop appends exactly one handle per disposable registration and leaves the flag alone |
| `HydrationProps.MidLoopHydration` | src/index.tsx:141-190 | a `visible` trigger hydrating inside the loop runs exactly the handles registered before it, in order; afterwards only handles of later triggers are pending, all of them when none of those hydrates |
| `OnDemand.DeferredUnit.InitEach` | src/index.tsx:186-188 | the loop runs `initEvent` over `on` in list order, proved equal to `InitAll`, and keeps the invariant |
| `OnDemand.DeferredUnit.Mount` | src/index.tsx:183-190 | a hydrated unit registers nothing and returns no cleanup; a dormant one runs `InitEach` over `on` and returns `cleanUp`; keeps the invariant |
| `HydrationProps.HydratedAtMountRegistersNothing` | src/index.tsx:183-190 | a unit hydrated at first render mounts with an empty list and no registrations |
| `OnDemand.DeferredUnit.Fire` | src/index.tsx:102-139 | a registered timer, idle request or listener calls back once, is dropped by the browser and calls `hydrate`; a disposed one never calls back |
| `OnDemand.DeferredUnit.Intersect` | src/index.tsx:153-157 | the observer hydrates only on an intersecting entry with a positive ratio and stays registered otherwise |
| `OnDemand.DeferredUnit.Unmount` | src/index.tsx:183-190 | runs the returned cleanup, if any; afterwards nothing is pending and only non-cancellable idle requests remain registered |
| `HydrationProps.ValidInitial` | src/index.tsx:74-89 | the first render satisfies the handle/registration invariant |
| `HydrationProps.ValidCleanUp` | src/index.tsx:91-94 | `cleanUp` keeps the invariant and leaves only non-cancellable registrations |
| `HydrationProps.ValidRegister` | src/index.tsx:114-165 | registering a source with a handle exactly when it can be disposed keeps the invariant |
| `HydrationProps.ValidInitEvent` | src/index.tsx:102-181 | every initialiser keeps the invariant |
| `HydrationProps.ValidInitAll` | src/index.tsx:186-188 | the mount loop keeps the invariant |
| `HydrationProps.ValidMountEffect` | src/index.tsx:183-190 | the mount effect keeps the invariant |
| `HydrationProps.ValidFire` | src/index.tsx:102-139 | a one-shot callback keeps the invariant |
| `HydrationProps.ValidIntersect` | src/index.tsx:153-157 | an observer callback keeps the invariant |
| `HydrationProps.ValidUnmount` | src/index.tsx:189 | unmount keeps the invariant |
| `HydrationProps.UnmountReleasesEverything` | src/index.tsx:183-190 | after unmount every handle ever registered has run exactly once, no disposed source is registered, and only idle requests without `cancelIdleCallback` remain |
| `HydrationProps.FirstTriggerWins` | src/index.tsx:96-100 | the first one-shot callback hydrates and runs every pending handle; any later callback leaves the flag, the list and the run log unchanged, and a cancellable one cannot call back at all |
| `HydrationProps.FirstIntersectionWins` | src/index.tsx:153-162 | the same when an intersecting observer entry is first; the observer itself is disconnected |
| `HydrationProps.StrayIdleCallback` | src/index.tsx:121-139 | a registered idle request that cannot be cancelled, when it calls back, hydrates, runs every still-pending handle in order and empties the list; with nothing pending it runs nothing |
| `HydrationProps.LateIdleCallbackAfterMidLoopHydration` | src/index.tsx:121-188 | on `[idle, visible, click]` without IntersectionObserver or `cancelIdleCallback`, the unit is hydrated after mount with the listener's handle still pending; the late idle callback runs that handle |
| `HydrationProps.HydratedIsMonotone` | src/index.tsx:96-100 | no operation turns the flag back to false |
| `HydrationProps.VisibleThenIdleScenario` | src/index.tsx:121-188 | `on: ["visible", "idle"]`: mounting registers an observer and a cancellable idle request in that order; an intersecting entry hydrates, runs both handles, and the idle request never calls back |
| `HydrationProps.RenderShowsCapturedMarkup` | src/index.tsx:192-215 | while dormant the view is the placeholder with the captured markup ("" for a missing element), never the component; once hydrated, the component with that placeholder as fallback |
| `OnDemand.DeferredUnit.View` | src/index.tsx:192-215 | the view is the placeholder exactly while the unit is dormant |

## Left out

- React itself: rendering, JSX, `Suspense`, the scheduling of `useState`, `useRef` and
  `useEffect`, and `suppressHydrationWarning`. Rendering is only the tag
  `Placeholder(html)` or `Active(html)`. React's lifecycle order is the precondition of
  `Mount` (once, after the first render) and `Unmount` (after mount).
- The server-side wrapper `withHydrationOnDemandServerSide` and the `isClientSide` switch
  in `withHydrationOnDemand`. They only pass JSX through.
- `passThroughLoading`. It throws a promise to drive React's suspense protocol.
- The real browser APIs: `getElementById`/`innerHTML`, `setTimeout`,
  `IntersectionObserver`, `requestIdleCallback`/`requestAnimationFrame`,
  `addEventListener`, `navigator.scheduling`. They become parameters, `Source`
  registrations and the callback methods `Fire`/`Intersect`. Delivery order of callbacks
  is left to the caller. The 500 ms idle timeout and the listener options (`once`,
  `capture`, `passive`) are not modelled beyond "fires once".
- The `async` nature of `hydrate` and the animation-frame hop between an idle callback
  and `hydrate`. A callback and the `hydrate` it causes are one step.
- The render-time `isHydrated` read inside the `hydrate` closure. It is modelled as the
  current flag; the only difference is whether `true` is set again, which is
  unobservable.
- A callback arriving after unmount sets the model's flag. React drops that state
  update, and nothing is rendered any more, so the flag is unobservable then.
- Observer options (`getOptions`) and a custom `getTarget` are opaque. Only whether the
  target getter returns an element is kept.
- The string-to-trigger parsing of `on` entries. Triggers are a tagged datatype. Ill-typed
  options, such as a function given as a delay, are not modelled.
- The datatype admits `DomEvent("delay", …)`, `DomEvent("visible", …)` and
  `DomEvent("idle", …)`. No `on` entry produces them, because the switch of `initEvent`
  sends those three names to the other initialisers. They are modelled as listeners and
  should be read as unreachable.
- An initialiser that throws is not modelled. Examples: a `getOptions` or `getTarget`
  that throws, or observer options that the IntersectionObserver constructor rejects,
  such as `{threshold: 2}`. The exception aborts the `on.forEach`. The later triggers are
  then not registered, and the effect returns no `cleanUp`. The handles already pushed
  never run at unmount, so their timers, observers and listeners leak.
  `UnmountReleasesEverything` holds because the model's initialisers cannot fail.
- The markup is read once, when the component is wrapped (src/index.tsx:67-68), and
  every instance shares it. The model passes the element found by that read to each
  instance's constructor; the sharing between instances is not modelled.
- Delays are integers. A JavaScript number can also be fractional or `NaN`, and these
  are not modelled. A `NaN` delay matters because `NaN <= 0` is false, so the source
  sets a timer for it.
- `getDisplayName`/`displayName`, `disableFallback`, `wrapperProps`, and the option `id`
  beyond naming the unit. They are cosmetic or pass-through.
