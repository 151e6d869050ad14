/** The scene manager's behaviour as functions on a state value. Each function
    is the specification of the `SceneManager` method of the same name in
    module Manager; the properties the manager promises are lemmas about these
    functions in module LifecycleProperties.

    A call out to scene code may throw. Whether it does is decided by the
    environment, given here as `throws`, a predicate on the position the call
    takes in the trace of calls. Awaits are sequential composition: every
    operation runs to completion before the next one starts. */
module Lifecycle {
  import opened SceneContract

  /** The manager's fields: `scenes` is the registry Map, `order` its iteration
      (insertion) order, `active` the active reference, `lastTime` the clock
      value of the previous frame. `nextId` supplies fresh object identities and
      `trace` records every call made out to scene code, oldest first. */
  datatype State = State(
    scenes: map<string, Entry>,
    order: seq<string>,
    active: Option<Active>,
    lastTime: int,
    nextId: nat,
    trace: seq<Event>)

  /** The registry invariant: `order` lists each registered name exactly once;
      every live instance is a distinct object built by its entry's factory. */
  ghost predicate Valid(st: State) {
    && (forall i, j | 0 <= i < j < |st.order| :: st.order[i] != st.order[j])
    && (forall n :: n in st.scenes <==> n in st.order)
    && (forall n | n in st.scenes && st.scenes[n].instance.Some? ::
          && st.scenes[n].instance.value.id < st.nextId
          && st.scenes[n].instance.value.hooks == st.scenes[n].factory.hooks)
    && (forall a, b | a in st.scenes && b in st.scenes && a != b
          && st.scenes[a].instance.Some? && st.scenes[b].instance.Some? ::
          st.scenes[a].instance.value.id != st.scenes[b].instance.value.id)
  }

  /** What an operation that only appends to the trace and clears slots
      leaves alone. */
  predicate Framed(st: State, r: State) {
    && r.scenes.Keys == st.scenes.Keys
    && r.order == st.order
    && r.active == st.active
    && r.nextId == st.nextId
    && r.lastTime == st.lastTime
    && st.trace <= r.trace
  }

  /** The calls `log[lo..]` are exactly one teardown of `inst`: `stop` first
      when it has one, then `dispose` when it has one unless that `stop`
      threw, and nothing else; two calls are a successful `stop` and then
      `dispose`. */
  predicate TearDownCalls(log: seq<Event>, lo: nat, inst: Instance, throws: nat -> bool) {
    && |log| == lo + (if Stop in inst.hooks then 1 else 0)
                 + (if Dispose in inst.hooks && !(Stop in inst.hooks && throws(lo)) then 1 else 0)
    && (forall p | lo <= p < |log| ::
          && log[p].Called? && log[p].inst == inst.id && log[p].hook in {Stop, Dispose}
          && log[p].hook in inst.hooks)
    && (Stop in inst.hooks ==> log[lo].hook == Stop)
    && (forall p | lo < p < |log| :: log[p].hook == Dispose)
    && (|log| == lo + 2 ==> log[lo] == Called(inst.id, Stop, true))
  }

  /** In `log[lo..]`, two calls on the same instance are a successful `stop`
      and then `dispose`: no hook is called twice on one instance, `stop`
      comes before `dispose`, and a throwing `stop` is followed by nothing. */
  predicate StopThenDispose(log: seq<Event>, lo: nat) {
    forall p, q | lo <= p < q < |log| && log[p].inst == log[q].inst ::
      log[p] == Called(log[p].inst, Stop, true) && log[q].Called? && log[q].hook == Dispose
  }

  /** Every call in `log[lo..]` on `inst` is a call of a hook `inst` has. */
  predicate OwnHooks(log: seq<Event>, lo: nat, inst: Instance) {
    forall p | lo <= p < |log| && log[p].inst == inst.id :: log[p].Called? && log[p].hook in inst.hooks
  }

  /** The ids of the instances that the unload-others loop of `show` and
      `unloadAllExcept(keep)` may tear down. */
  function DisposableIds(scenes: map<string, Entry>, keep: string): set<nat> {
    set n | n in scenes && n != keep && Disposable(scenes[n].instance) :: scenes[n].instance.value.id
  }

  /** The constructor: an empty registry and no active scene. */
  function Initial(now: int): (st: State)
    ensures Valid(st)
    ensures st.scenes == map[] && st.order == [] && st.active.None? && st.trace == []
    ensures st.lastTime == now
  {
    State(map[], [], None, now, 0, [])
  }

  /** `register(name, factory)`: `Map.set` keeps the position of a name that is
      already present and appends a new one. */
  function Register(st: State, name: string, f: Factory): (r: State)
    ensures name in r.scenes && r.scenes[name] == Entry(f, None)
    ensures forall n | n != name :: (n in r.scenes <==> n in st.scenes)
    ensures forall n | n != name && n in st.scenes :: r.scenes[n] == st.scenes[n]
    ensures name in st.scenes ==> r.order == st.order
    ensures name !in st.scenes ==> r.order == st.order + [name]
    ensures r.active == st.active && r.trace == st.trace && r.nextId == st.nextId && r.lastTime == st.lastTime
    ensures Valid(st) ==> Valid(r)
  {
    var r := st.(scenes := st.scenes[name := Entry(f, None)],
                 order := if name in st.scenes then st.order else st.order + [name]);
    assert Valid(st) ==> forall i, j | 0 <= i < j < |r.order| :: r.order[i] != r.order[j];
    r
  }

  /** One call of hook `h` on `inst`, appended to the trace with its outcome. */
  function Invoke(st: State, inst: Instance, h: Hook, throws: nat -> bool): State {
    st.(trace := st.trace + [Called(inst.id, h, !throws(|st.trace|))])
  }

  /** Clears the instance slot of `name`. */
  function Clear(st: State, name: string): State
    requires name in st.scenes
  {
    st.(scenes := st.scenes[name := st.scenes[name].(instance := None)])
  }

  // ---------------------------------------------------------------- show

  /** Step 1 of `show`: `await this.active.instance.stop()` inside a try. A
      missing `stop` throws a TypeError before any scene code runs, so it is
      skipped; a throwing `stop` is caught. Either way `show` goes on. */
  function StopActive(st: State, throws: nat -> bool): (r: State)
    ensures r == st.(trace := r.trace) && st.trace <= r.trace
    ensures |r.trace| == |st.trace| + if st.active.Some? && Stop in st.active.value.instance.hooks then 1 else 0
    ensures |st.trace| < |r.trace| ==> IsCall(r.trace[|st.trace|], st.active.value.instance.id, Stop)
  {
    match st.active
    case None => st
    case Some(a) => if Stop in a.instance.hooks then Invoke(st, a.instance, Stop, throws) else st
  }

  /** Step 2 of `show`: when the slot of `name` is null, call the factory and
      store what it returns, then `init` it if it has `init`. Either call may
      throw, and then `show` rejects. `load` is never called. */
  function Materialize(st: State, name: string, throws: nat -> bool): (r: (State, Outcome))
    requires name in st.scenes
    ensures name in r.0.scenes && r.0.scenes.Keys == st.scenes.Keys
    ensures r.1.Done? ==> r.0.scenes[name].instance.Some?
    ensures r.1 == Done || r.1 == Rejected(FactoryThrew) || r.1 == Rejected(InitThrew)
  {
    var e := st.scenes[name];
    if e.instance.Some? then (st, Done)
    else
      var inst := Instance(st.nextId, e.factory.hooks);
      var built := st.(trace := st.trace + [Built(name, inst.id, !throws(|st.trace|))],
                       nextId := st.nextId + 1);
      if throws(|st.trace|) then (built, Rejected(FactoryThrew))
      else
        var stored := built.(scenes := built.scenes[name := e.(instance := Some(inst))]);
        if Init !in inst.hooks then (stored, Done)
        else if throws(|stored.trace|) then (Invoke(stored, inst, Init, throws), Rejected(InitThrew))
        else (Invoke(stored, inst, Init, throws), Done)
  }

  /** Step 4 of `show`: `await start()` when the instance has one. */
  function StartTarget(st: State, inst: Instance, throws: nat -> bool): (r: (State, Outcome))
    ensures r.0 == st.(trace := r.0.trace) && st.trace <= r.0.trace
    ensures |r.0.trace| == |st.trace| + if Start in inst.hooks then 1 else 0
    ensures |st.trace| < |r.0.trace| ==> IsCall(r.0.trace[|st.trace|], inst.id, Start)
    ensures r.1 == Rejected(StartThrew) <==> |st.trace| < |r.0.trace| && !r.0.trace[|st.trace|].ok
    ensures r.1.Done? || r.1 == Rejected(StartThrew)
  {
    if Start !in inst.hooks then (st, Done)
    else if throws(|st.trace|) then (Invoke(st, inst, Start, throws), Rejected(StartThrew))
    else (Invoke(st, inst, Start, throws), Done)
  }

  /** `show(name, { unloadOthers })`. */
  function Show(st: State, name: string, unloadOthers: bool, throws: nat -> bool): (r: (State, Outcome))
    ensures r.1 == Rejected(NotRegistered) <==> name !in st.scenes
    ensures name !in st.scenes ==> r.0 == st
  {
    if name !in st.scenes then (st, Rejected(NotRegistered))
    else
      var stopped := StopActive(st, throws);
      var (built, made) := Materialize(stopped, name, throws);
      if made.Rejected? then (built, made)
      else
        var inst := built.scenes[name].instance.value;
        var (started, ran) := StartTarget(built.(active := Some(Active(name, inst))), inst, throws);
        if ran.Rejected? then (started, ran)
        else if unloadOthers then (Sweep(started, name, started.order, throws), Done)
        else (started, Done)
  }

  // ---------------------------------------------------------------- unload

  /** The try block of the unload loops: `stop` if present, then `dispose` if
      present; a throwing `stop` skips `dispose`, and the throw is caught. */
  function TearDown(st: State, inst: Instance, throws: nat -> bool): (r: State)
    ensures r == st.(trace := r.trace) && st.trace <= r.trace
    ensures TearDownCalls(r.trace, |st.trace|, inst, throws)
    ensures TornDown(r.trace[|st.trace|..], inst)
  {
    var stopped := if Stop in inst.hooks then Invoke(st, inst, Stop, throws) else st;
    var r := if Dispose in inst.hooks && !(Stop in inst.hooks && throws(|st.trace|))
             then Invoke(stopped, inst, Dispose, throws)
             else stopped;
    var log := r.trace[|st.trace|..];
    assert |st.trace| < |r.trace| ==> log[0] == r.trace[|st.trace|] && log[|log| - 1] == r.trace[|r.trace| - 1];
    r
  }

  /** `unload(name)`: a no-op for an unknown name or a null slot; otherwise
      tear the instance down and clear the slot whatever the hooks did. */
  function Unload(st: State, name: string, throws: nat -> bool): (r: State)
    ensures name !in st.scenes || st.scenes[name].instance.None? ==> r == st
    ensures name in st.scenes && st.scenes[name].instance.Some? ==>
              && Framed(st, r)
              && r.scenes == st.scenes[name := st.scenes[name].(instance := None)]
              && TearDownCalls(r.trace, |st.trace|, st.scenes[name].instance.value, throws)
              && TornDown(r.trace[|st.trace|..], st.scenes[name].instance.value)
    ensures Valid(st) ==> Valid(r)
  {
    if name !in st.scenes || st.scenes[name].instance.None? then st
    else Clear(TearDown(st, st.scenes[name].instance.value, throws), name)
  }

  /** One iteration of the loops `for (const [otherName, otherEntry] of
      this.scenes)` in `show` and `unloadAllExcept(keep)`. */
  function UnloadOther(st: State, keep: string, n: string, throws: nat -> bool): (r: State)
    ensures Framed(st, r)
    ensures keep in st.scenes ==> r.scenes[keep] == st.scenes[keep]
  {
    if n == keep || n !in st.scenes || !Disposable(st.scenes[n].instance) then st
    else Clear(TearDown(st, st.scenes[n].instance.value, throws), n)
  }

  /** The unload-others loop run over the names `names`, in order. */
  function Sweep(st: State, keep: string, names: seq<string>, throws: nat -> bool): (r: State)
    ensures Framed(st, r)
    ensures keep in st.scenes ==> r.scenes[keep] == st.scenes[keep]
    decreases |names|
  {
    if names == [] then st
    else UnloadOther(Sweep(st, keep, names[..|names| - 1], throws), keep, names[|names| - 1], throws)
  }

  /** `unloadAllExcept(name)`. */
  function UnloadAllExcept(st: State, name: string, throws: nat -> bool): (r: State)
    ensures Framed(st, r)
    ensures name in st.scenes ==> r.scenes[name] == st.scenes[name]
  {
    Sweep(st, name, st.order, throws)
  }

  // ---------------------------------------------------------------- forwarding

  /** `update()` at clock value `now`: nothing without an active scene;
      otherwise advance `lastTime` and call `animate(dt)` on the active
      instance if it has one, catching a throw. `dt` is kept in clock units. */
  function Update(st: State, now: int, throws: nat -> bool): (r: State)
    ensures st.active.None? ==> r == st
    ensures r == st.(trace := r.trace, lastTime := r.lastTime) && st.trace <= r.trace
    ensures st.active.Some? ==> r.lastTime == now
    ensures |r.trace| == |st.trace| + (if st.active.Some? && Animate in st.active.value.instance.hooks then 1 else 0)
    ensures forall p | |st.trace| <= p < |r.trace| ::
              && st.active.Some? && r.trace[p].Animated?
              && r.trace[p].inst == st.active.value.instance.id && r.trace[p].dt == now - st.lastTime
  {
    match st.active
    case None => st
    case Some(a) =>
      var ticked := st.(lastTime := now);
      if Animate !in a.instance.hooks then ticked
      else ticked.(trace := st.trace + [Animated(a.instance.id, now - st.lastTime, !throws(|st.trace|))])
  }

  /** One iteration of the `resize` loop: a live instance with `resize` gets
      the call; there is no try, so a throw ends the whole operation. */
  function ResizeOne(st: State, width: int, height: int, n: string, throws: nat -> bool): (r: (State, Outcome))
    ensures r.0 == st.(trace := r.0.trace) && st.trace <= r.0.trace
    ensures |st.trace| < |r.0.trace| <==>
              n in st.scenes && st.scenes[n].instance.Some? && Resize in st.scenes[n].instance.value.hooks
    ensures |r.0.trace| <= |st.trace| + 1
    ensures |st.trace| < |r.0.trace| ==>
              r.0.trace[|st.trace|] == Resized(st.scenes[n].instance.value.id, width, height, r.0.trace[|st.trace|].ok)
    ensures r.1.Rejected? <==> |st.trace| < |r.0.trace| && !r.0.trace[|st.trace|].ok
    ensures r.1.Done? || r.1 == Rejected(ResizeThrew)
  {
    if n in st.scenes && st.scenes[n].instance.Some? && Resize in st.scenes[n].instance.value.hooks then
      var ok := !throws(|st.trace|);
      (st.(trace := st.trace + [Resized(st.scenes[n].instance.value.id, width, height, ok)]),
       if ok then Done else Rejected(ResizeThrew))
    else (st, Done)
  }

  /** The `resize` loop run over `names`, stopping at the first throw. */
  function ResizeLoop(st: State, width: int, height: int, names: seq<string>, throws: nat -> bool): (r: (State, Outcome))
    ensures r.0 == st.(trace := r.0.trace) && st.trace <= r.0.trace
    ensures r.1.Done? || r.1 == Rejected(ResizeThrew)
    ensures r.1.Rejected? ==> |st.trace| < |r.0.trace| && !r.0.trace[|r.0.trace| - 1].ok
    decreases |names|
  {
    if names == [] then (st, Done)
    else
      var (before, out) := ResizeLoop(st, width, height, names[..|names| - 1], throws);
      if out.Rejected? then (before, out)
      else ResizeOne(before, width, height, names[|names| - 1], throws)
  }

  /** `resize(width, height)`. */
  function ResizeAll(st: State, width: int, height: int, throws: nat -> bool): (r: (State, Outcome))
    ensures r.0 == st.(trace := r.0.trace) && st.trace <= r.0.trace
    ensures r.1.Done? || r.1 == Rejected(ResizeThrew)
    ensures r.1.Rejected? ==> |st.trace| < |r.0.trace| && !r.0.trace[|r.0.trace| - 1].ok
  {
    ResizeLoop(st, width, height, st.order, throws)
  }

  /** The live instances with `resize` among the entries `names`, in order:
      the instances `resize` is meant to reach. */
  function Resizable(scenes: map<string, Entry>, names: seq<string>): seq<Instance>
    decreases |names|
  {
    if names == [] then []
    else
      var n := names[|names| - 1];
      Resizable(scenes, names[..|names| - 1])
        + if n in scenes && scenes[n].instance.Some? && Resize in scenes[n].instance.value.hooks
          then [scenes[n].instance.value] else []
  }
}
