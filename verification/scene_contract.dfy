/** The duck-typed capability contract of a scene, as the scene manager sees it:
    an instance is an opaque identity together with the set of lifecycle members
    it happens to expose. What the hooks do is outside the model; only whether
    they are present, when they are called and whether the call threw matter. */
module SceneContract {

  datatype Option<T> = None | Some(value: T)

  /** The members the manager may call. `load` is deliberately absent: the
      manager never calls it, even on scenes that export one. */
  datatype Hook = Init | Start | Stop | Dispose | Animate | Resize

  /** A live scene object: `id` stands for its object identity. */
  datatype Instance = Instance(id: nat, hooks: set<Hook>)

  /** A registered factory. `token` tells factories apart; every instance a
      factory builds exposes `hooks`. */
  datatype Factory = Factory(token: nat, hooks: set<Hook>)

  /** A registry entry `{ factory, instance }`; `instance` is null until built. */
  datatype Entry = Entry(factory: Factory, instance: Option<Instance>)

  /** The active reference `{ name, instance }`. */
  datatype Active = Active(name: string, instance: Instance)

  /** One call from the manager out to scene code, with whether it returned
      normally (`ok`) or threw / rejected (`!ok`). */
  datatype Event =
    | Built(name: string, inst: nat, ok: bool)              // entry.factory(renderer)
    | Called(inst: nat, hook: Hook, ok: bool)                // init, start, stop, dispose
    | Animated(inst: nat, dt: int, ok: bool)                 // animate(dt)
    | Resized(inst: nat, width: int, height: int, ok: bool)  // resize(width, height)

  /** Why a call into the manager rejected. */
  datatype Error = NotRegistered | FactoryThrew | InitThrew | StartThrew | ResizeThrew

  datatype Outcome = Done | Rejected(error: Error)

  predicate IsCall(e: Event, id: nat, h: Hook) {
    e.Called? && e.inst == id && e.hook == h
  }

  /** `log` holds the teardown of `inst`: its `stop` when it has one, and its
      `dispose` when it has one, unless that `stop` threw first. */
  predicate TornDown(log: seq<Event>, inst: Instance) {
    && (Stop in inst.hooks ==> Called(inst.id, Stop, true) in log || Called(inst.id, Stop, false) in log)
    && (Dispose in inst.hooks ==>
          || Called(inst.id, Dispose, true) in log || Called(inst.id, Dispose, false) in log
          || (Stop in inst.hooks && Called(inst.id, Stop, false) in log))
  }

  /** The guard `instance && instance.dispose` of the unload-others loops. */
  predicate Disposable(slot: Option<Instance>) {
    slot.Some? && Dispose in slot.value.hooks
  }
}
