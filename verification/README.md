# Scene manager lifecycle model

A Dafny model of `SceneManager` (`src/sceneManager.js`), the registry and
lifecycle driver of an interactive scene presenter. The manager keeps a Map
from scene name to `{ factory, instance }` and one active reference
`{ name, instance }`. It builds scenes lazily, stops the outgoing scene,
starts the incoming one, optionally stops and disposes every other live
scene, and forwards per-frame `animate` and `resize` calls.

The model has four modules:

- `SceneContract` (`scene_contract.dfy`): the duck-typed scene contract. An
  instance is an identity plus the set of hooks it exposes (`init`, `start`,
  `stop`, `dispose`, `animate`, `resize`). The calls the manager makes out to
  scene code are recorded as `Event`s.
- `Lifecycle` (`lifecycle.dfy`): every operation as a function on a `State`
  value that holds the manager's fields. These functions are the
  specification of the class methods.
- `LifecycleProperties` (`lifecycle_properties.dfy`): the promised properties,
  proved for every pattern of hook failures.
- `Manager` (`manager.dfy`): the class `SceneManager`. Its fields are updated
  in place, and its `for ... of` loops over the Map are `while` loops over
  the insertion order. Every method is proved to produce exactly the state
  and outcome that the matching `Lifecycle` function gives.

Modelling choices:

- **Hook failures.** Any call into scene code may throw or reject. Which calls
  do is a parameter, `throws: nat -> bool`, keyed by the call's position in
  the trace. Every lemma holds for every `throws`.
- **`await`.** Each operation runs to completion in sequence.
- **Object identity.** A factory call produces a fresh `id` taken from
  `nextId`.
- **Map order.** Iteration follows the Map's insertion order, kept in `order`.
  Re-registering a name keeps its position, as `Map.set` does, and a new
  name goes at the end.
- **`show` options.** `show(name, options)` becomes `Show(st, name,
  unloadOthers, throws)`. A call without options takes the default
  `{ unloadOthers: true }` (`src/sceneManager.js:15`), so `show(name)` is
  `Show(st, name, true, throws)`. An options object whose `unloadOthers` is
  missing or falsy is `Show(st, name, false, throws)`.
- **Teardown.** `TornDown(log, inst)` says that `log` holds the teardown of
  `inst`: its `stop` when it has one, and its `dispose` when it has one unless
  that `stop` threw first. `TearDownCalls` says a stretch of the trace is
  exactly one such teardown. `StopThenDispose` says that in a stretch of the
  trace the calls on any one instance are at most a successful `stop` and
  then `dispose`, and `OwnHooks` that only hooks the instance has are called.

Where the code departs from the intended design of the system, the model
follows the code:

- `show` never calls `load`, even on scenes that export it. Only the factory
  and then `init` run (`src/sceneManager.js:26-27`).
- The `stop` of the previous active scene is called without a presence check
  (`src/sceneManager.js:20`). A missing `stop` raises a TypeError, which the
  try block catches, so nothing happens and no event is recorded.
- The unload-others loops clear only slots whose instance has `dispose`
  (`src/sceneManager.js:37`, `67`). Live instances without `dispose` stay in
  place.
- A failing factory or `init` rejects `show` with no rollback. The previous
  scene stays stopped but remains the active reference. A failing `init`
  leaves the half-initialised instance in its slot, and a later `show`
  reuses it without calling `init` again (`ShowSlots`, `ShowActive`). A
  failing `start` leaves the target active and skips the unloading of others.
- `unload(name)` on the active scene, `unloadAllExcept(other)` with `other`
  not the active name (when the active instance has `dispose`), or `register`
  over the active name does not touch `active`. The manager then holds a
  reference to an instance that is no longer in any slot, and that the first
  two have already stopped and disposed. The next `show` calls `stop` on it,
  and `update` keeps calling its `animate` (`Lifecycle.Unload`,
  `Lifecycle.UnloadAllExcept`, `Lifecycle.Register`).
- `resize` has no try block. The first `resize` that throws ends the loop,
  and the call rejects (`ResizeLoopEffect`).
- In `unload` and `unloadAllExcept`, `stop` is not awaited. A throwing `stop`
  skips `dispose`. A rejected promise from it is never observed, which the
  model covers by `throws` choosing success for that call.

## Model

| member | source | states |
|---|---|---|
| `Lifecycle.Initial` | src/sceneManager.js:4-9 | the constructor starts with an empty registry and iteration order, no active scene, no calls made and `lastTime` set to the clock reading, and the registry invariant holds |
| `Lifecycle.Register` | src/sceneManager.js:11-13 | `name` maps to `{factory, instance: null}` whether or not it was registered, every other entry, the active reference and `lastTime` are unchanged, a re-registered name keeps its iteration position and a new one goes last, the invariant is kept |
| `Lifecycle.StopActive` | src/sceneManager.js:18-21 | when there is an active instance with `stop`, exactly one `stop` call on it is appended to the trace, otherwise none; slots and the active reference are untouched whatever `stop` does |
| `Lifecycle.Materialize` | src/sceneManager.js:23-28 | the lazy construction keeps the registry's names, leaves the target slot live when it succeeds, and rejects only with the FactoryThrew or InitThrew label; `MaterializeEffect` ties each label to the failed call |
| `LifecycleProperties.MaterializeEffect` | src/sceneManager.js:23-28 | a live target is reused with no call; a null slot gets exactly one factory call, then an `init` on the built instance exactly when the factory returned and the instance has `init`; the slot holds the fresh instance unless the factory threw; the factory or `init` failing is exactly what rejects; no other slot changes |
| `Lifecycle.StartTarget` | src/sceneManager.js:31 | exactly one `start` call on the target when it has `start`, none otherwise; nothing else changes; it rejects exactly when that call threw |
| `LifecycleProperties.StartTargetEffect` | src/sceneManager.js:31 | one `start` call on the target exactly when it has `start`, only the trace changes, and it rejects with StartThrew exactly when that call threw |
| `Lifecycle.Show` | src/sceneManager.js:15-16 | `show` rejects with NotRegistered exactly when the name is unknown, and then the state, trace included, is unchanged: no hook has run |
| `LifecycleProperties.ShowSlots` | src/sceneManager.js:23-47 | after `show`, a live target instance is kept, and a null one is replaced by the instance the factory built unless the factory threw; with `unloadOthers` and a successful start, every other slot whose instance has `dispose` is null, and no other slot changes; `lastTime` is untouched |
| `LifecycleProperties.ShowActive` | src/sceneManager.js:19-31 | on success, or when only `start` threw, `active` is `{name, instance in the name slot}`; a throwing factory or `init` leaves `active` as it was; a live target cannot fail before `start` |
| `LifecycleProperties.ShowHookOrder` | src/sceneManager.js:19-47 | the calls of one `show`, in trace order: the `stop` of the old active instance exactly when there is one with `stop`; then, only if the slot was null, the factory and then `init` of the new instance exactly when the factory returned and it has `init`; then, once the target is active, its `start` exactly when it has one; then, only with `unloadOthers` and success, the teardown of every other entry's instance that has `dispose`, and no other call, with (in a valid registry) at most one `stop` and one `dispose` per instance, `stop` first, nothing after a throwing `stop`, and only hooks the instance has; `show` rejects with FactoryThrew, InitThrew or StartThrew exactly when the factory, `init` or `start` call threw, so `start` and the unloading of others are skipped only after such a throw |
| `LifecycleProperties.ShowSparesTarget` | src/sceneManager.js:33-47 | the instances the unload-others part of `show` tears down never include the instance just activated |
| `LifecycleProperties.ShowLeavesOnlyTarget` | src/sceneManager.js:15-47 | when every registered scene has `dispose`, a successful `show(name)` that unloads others leaves `name` as the only entry with an instance |
| `LifecycleProperties.ShowPreservesValid` | src/sceneManager.js:15-48 | `show` keeps the registry invariant: each name listed once in iteration order, live instances are distinct objects built by their entry's factory |
| `Lifecycle.TearDown` | src/sceneManager.js:54-59 | the try block of an unload makes exactly the teardown calls: `stop` first when present, then `dispose` when present unless `stop` threw, only on the given instance and only hooks it has, each at most once; it changes nothing else |
| `Lifecycle.Unload` | src/sceneManager.js:51-61 | `unload` is a no-op for an unknown name or a null slot; otherwise it makes exactly the teardown calls of `TearDown` on the instance (`stop` first when present, then `dispose` when present unless `stop` threw, each at most once, only hooks it has), clears only that slot whatever the hooks did, leaves `active` and the other slots alone, calls nothing else, and keeps the invariant |
| `LifecycleProperties.UnloadIdempotent` | src/sceneManager.js:51-61 | a second `unload` of the same name calls no hook and changes nothing |
| `Lifecycle.UnloadOther` | src/sceneManager.js:36-45 | one iteration of the unload-others loop keeps the registry's names, order, active reference and id supply, and only appends to the trace |
| `Lifecycle.Sweep` | src/sceneManager.js:35-46 | the whole unload-others loop keeps the same frame and never changes the kept name's entry, by induction over the visited names |
| `LifecycleProperties.SweepEffect` | src/sceneManager.js:35-46 | after the loop, each visited non-kept slot whose instance has `dispose` is null even if its `stop` or `dispose` threw, and that instance has been torn down; every other slot is unchanged, and every call made is a `stop`/`dispose` of such an instance; in a valid registry each instance gets at most one `stop` and one `dispose`, `stop` first, nothing after a throwing `stop`, and only hooks it has |
| `LifecycleProperties.SweepCallOrder` | src/sceneManager.js:35-46 | in a valid registry, the loop's calls on any one instance are a successful `stop` followed by `dispose` at most, and only hooks that instance has, by induction over the visited names |
| `LifecycleProperties.SweepWithoutDisposable` | src/sceneManager.js:65-76 | the loop over entries none of which has a live instance with `dispose` makes no call and changes nothing |
| `LifecycleProperties.SweepPreservesValid` | src/sceneManager.js:35-46 | the unload-others loop keeps the registry invariant |
| `Lifecycle.UnloadAllExcept` | src/sceneManager.js:64-77 | `unloadAllExcept(name)` keeps the registry's names, order, active reference, id supply and `lastTime`, only appends to the trace, and never changes `name`'s entry |
| `LifecycleProperties.UnloadAllExceptEffect` | src/sceneManager.js:64-77 | `unloadAllExcept(name)` never changes `name`'s entry, clears every other slot whose instance has `dispose` and tears that instance down, keeps all other entries, and calls only `stop`/`dispose` of the cleared instances, each at most once per instance, `stop` first, nothing after a throwing `stop`, and only hooks the instance has |
| `LifecycleProperties.UnloadAllExceptIdempotent` | src/sceneManager.js:64-77 | a second `unloadAllExcept(name)` calls no hook and changes nothing, so nothing is disposed twice |
| `Lifecycle.Update` | src/sceneManager.js:79-89 | with no active scene, `update` changes nothing and calls nothing; otherwise it advances `lastTime` to `now` and calls `animate(now - lastTime)` on the active instance only, once, exactly when it has `animate`; a throw is absorbed |
| `Lifecycle.ResizeOne` | src/sceneManager.js:93 | one iteration makes a `resize(width, height)` call exactly when the entry holds a live instance with `resize`, on that instance, changes nothing but the trace, and rejects exactly when that call threw |
| `Lifecycle.ResizeLoop` | src/sceneManager.js:92-94 | the loop changes nothing but the trace, and a rejection always comes from a `resize` call, the last one made, that threw |
| `Lifecycle.ResizeAll` | src/sceneManager.js:91-95 | `resize` changes nothing but the trace and rejects only when the last `resize` call it made threw |
| `LifecycleProperties.ResizeLoopEffect` | src/sceneManager.js:91-95 | the loop calls `resize(width, height)` on the live instances that have `resize`, in Map order, once each; it stops right after the first call that throws and then rejects; it succeeds only when every call succeeded; only the trace changes |
| `LifecycleProperties.ResizeLoopStopsAtFailure` | src/sceneManager.js:92-94 | once a `resize` call has thrown, the remaining entries are not visited |
| `LifecycleProperties.ResizableCovers` | src/sceneManager.js:92-93 | the instances the loop targets are exactly the live instances with `resize` among the visited entries |
| `LifecycleProperties.ResizeLoopCallsLive` | src/sceneManager.js:92-93 | every call the loop makes goes to a live instance that has `resize` |
| `LifecycleProperties.ResizeLoopReachesAll` | src/sceneManager.js:92-93 | a loop that succeeds has made a successful call on each live instance with `resize` among the visited entries |
| `LifecycleProperties.ResizeAllReachesLive` | src/sceneManager.js:91-95 | `resize` calls only live instances with `resize`, active or not; when it succeeds, every such instance got a successful `resize(width, height)` |
| `LifecycleProperties.ResizeAllPreservesValid` | src/sceneManager.js:91-95 | `resize` keeps the registry invariant |
| `Manager.SceneManager.constructor` | src/sceneManager.js:4-9 | the new manager's fields are the initial state and satisfy the invariant |
| `Manager.SceneManager.Register` | src/sceneManager.js:11-13 | the fields after `register` are `Lifecycle.Register` of the fields before; the invariant is kept |
| `Manager.SceneManager.Show` | src/sceneManager.js:15-48 | the fields and outcome after `show` are exactly `Lifecycle.Show` of the fields before; the invariant is kept |
| `Manager.SceneManager.BuildTarget` | src/sceneManager.js:23-28 | the lazy construction step leaves exactly the state and outcome of `Lifecycle.Materialize` |
| `Manager.SceneManager.UnloadOthers` | src/sceneManager.js:35-46 | the `for ... of` loop leaves exactly `Lifecycle.Sweep` of the fields before, over the iteration order |
| `Manager.SceneManager.UnloadOther` | src/sceneManager.js:36-45 | one loop iteration leaves exactly `Lifecycle.UnloadOther` of the fields before |
| `Manager.SceneManager.Unload` | src/sceneManager.js:51-61 | the fields after `unload` are `Lifecycle.Unload` of the fields before; the invariant is kept |
| `Manager.SceneManager.UnloadAllExcept` | src/sceneManager.js:64-77 | the fields after `unloadAllExcept` are `Lifecycle.UnloadAllExcept` of the fields before; the invariant is kept |
| `Manager.SceneManager.Update` | src/sceneManager.js:79-89 | the fields after `update` are `Lifecycle.Update` of the fields before |
| `Manager.SceneManager.Resize` | src/sceneManager.js:91-95 | the fields and outcome after `resize` are exactly `Lifecycle.ResizeAll` of the fields before; the invariant is kept |
| `Manager.SceneManager.ResizeEntry` | src/sceneManager.js:93 | one loop iteration leaves exactly the state and outcome of `Lifecycle.ResizeOne` |

## Left out

- The renderer passed to the constructor, the factories and `init` is not modelled. Scenes see no arguments beyond `animate`'s `dt` and `resize`'s width and height.
- `performance.now()` becomes a `now: int` parameter. `dt` is the integer difference of two clock readings: the floating-point division by 1000 is not modelled.
- `console.warn` and `console.error` logging is left out. A caught throw leaves no trace beyond the failed event.
- Real interleaving at `await` points is not modelled. Each operation is atomic, and nothing is claimed about a `show` that overlaps another call.
- What hooks do inside a scene is not modelled: rendering, asset loading, GPU disposal and DOM overlays in `src/scenes/*.js`, and the render loop and wheel rotation in `src/main.js`. Only the presence of each hook is kept. `onPointerMove` and `onWheel` are never called by the manager.
- A factory always builds instances with the same set of hooks.
- A throw from a hook call is one outcome per call. Whether it was a synchronous throw or a rejected promise is not distinguished.
- The fade transition coordinator and the stepped scroller are not part of this model: no file of the source implements them.
