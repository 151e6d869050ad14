/** The `SceneManager` class: the registry Map, the active reference and the
    clock of the previous frame as fields that its methods update in place.
    Every method is proved to leave exactly the state, and return exactly the
    outcome, that the function of the same name in module Lifecycle gives, so
    the lemmas of module LifecycleProperties hold of every run. `trace` is
    the record of the calls made out to scene code; `throws` decides which of
    them throw. The renderer handed to factories and hooks is left out. */
module Manager {
  import opened SceneContract
  import Lifecycle
  import LifecycleProperties

  class SceneManager {
    var scenes: map<string, Entry>
    var order: seq<string>
    var active: Option<Active>
    var lastTime: int
    var nextId: nat
    var trace: seq<Event>

    /** The fields as a Lifecycle state. */
    function Model(): Lifecycle.State
      reads this
    {
      Lifecycle.State(scenes, order, active, lastTime, nextId, trace)
    }

    ghost predicate Valid()
      reads this
    {
      Lifecycle.Valid(Model())
    }

    /** `new SceneManager(renderer)`, with the clock reading `now`. */
    constructor (now: int)
      ensures Valid() && Model() == Lifecycle.Initial(now)
    {
      scenes, order, active := map[], [], None;
      lastTime, nextId, trace := now, 0, [];
    }

    /** `register(name, factory)`. */
    method Register(name: string, factory: Factory)
      requires Valid()
      modifies this
      ensures Valid() && Model() == Lifecycle.Register(old(Model()), name, factory)
    {
      if name !in scenes {
        order := order + [name];
      }
      scenes := scenes[name := Entry(factory, None)];
    }

    /** `show(name, { unloadOthers })`. */
    method Show(name: string, unloadOthers: bool, throws: nat -> bool) returns (out: Outcome)
      requires Valid()
      modifies this
      ensures Valid()
      ensures (Model(), out) == Lifecycle.Show(old(Model()), name, unloadOthers, throws)
    {
      ghost var st := Model();
      LifecycleProperties.ShowPreservesValid(st, name, unloadOthers, throws);
      if name !in scenes {
        return Rejected(NotRegistered);
      }

      // stop current; a missing or throwing stop is caught
      if active.Some? && Stop in active.value.instance.hooks {
        trace := trace + [Called(active.value.instance.id, Stop, !throws(|trace|))];
      }
      ghost var stopped := Model();
      assert stopped == Lifecycle.StopActive(st, throws);

      // create the instance lazily
      ghost var made := Lifecycle.Materialize(stopped, name, throws);
      out := BuildTarget(name, throws);
      assert (Model(), out) == made;
      if out.Rejected? {
        return;
      }

      var target := scenes[name].instance.value;
      active := Some(Active(name, target));
      ghost var started := Lifecycle.StartTarget(Model(), target, throws);
      if Start in target.hooks {
        var startOk := !throws(|trace|);
        trace := trace + [Called(target.id, Start, startOk)];
        if !startOk {
          assert (Model(), Rejected(StartThrew)) == started;
          return Rejected(StartThrew);
        }
      }
      assert (Model(), Done) == started;

      // unload the other scenes
      if unloadOthers {
        assert forall n | n in order :: n in scenes;
        UnloadOthers(name, throws);
      }
      return Done;
    }

    /** The lazy construction in `show`: when the slot of `name` is null, call
        the factory, store the instance and `init` it if it has `init`. */
    method BuildTarget(name: string, throws: nat -> bool) returns (out: Outcome)
      requires name in scenes
      modifies this
      ensures (Model(), out) == Lifecycle.Materialize(old(Model()), name, throws)
    {
      var entry := scenes[name];
      if entry.instance.Some? {
        return Done;
      }
      var built := Instance(nextId, entry.factory.hooks);
      var ok := !throws(|trace|);
      trace := trace + [Built(name, built.id, ok)];
      nextId := nextId + 1;
      if !ok {
        return Rejected(FactoryThrew);
      }
      scenes := scenes[name := entry.(instance := Some(built))];
      if Init in built.hooks {
        var initOk := !throws(|trace|);
        trace := trace + [Called(built.id, Init, initOk)];
        if !initOk {
          return Rejected(InitThrew);
        }
      }
      return Done;
    }

    /** `unload(name)`. */
    method Unload(name: string, throws: nat -> bool)
      requires Valid()
      modifies this
      ensures Valid() && Model() == Lifecycle.Unload(old(Model()), name, throws)
    {
      if name !in scenes || scenes[name].instance.None? {
        return;
      }
      var entry := scenes[name];
      var inst := entry.instance.value;
      var stopOk := true;
      if Stop in inst.hooks {
        stopOk := !throws(|trace|);
        trace := trace + [Called(inst.id, Stop, stopOk)];
      }
      if stopOk && Dispose in inst.hooks {
        trace := trace + [Called(inst.id, Dispose, !throws(|trace|))];
      }
      scenes := scenes[name := entry.(instance := None)];
    }

    /** `unloadAllExcept(name)`. */
    method UnloadAllExcept(name: string, throws: nat -> bool)
      requires Valid()
      modifies this
      ensures Valid() && Model() == Lifecycle.UnloadAllExcept(old(Model()), name, throws)
    {
      LifecycleProperties.SweepPreservesValid(Model(), name, order, throws);
      UnloadOthers(name, throws);
    }

    /** The loop `for (const [otherName, otherEntry] of this.scenes)` that
        `show` and `unloadAllExcept(keep)` both run, in Map order. */
    method UnloadOthers(keep: string, throws: nat -> bool)
      requires forall n | n in order :: n in scenes
      modifies this
      ensures Model() == Lifecycle.Sweep(old(Model()), keep, old(order), throws)
    {
      ghost var st := Model();
      var i := 0;
      while i < |order|
        invariant 0 <= i <= |order| && order == st.order
        invariant Model() == Lifecycle.Sweep(st, keep, order[..i], throws)
        invariant forall n | n in order :: n in scenes
      {
        assert order[..i + 1][..i] == order[..i];
        UnloadOther(keep, order[i], throws);
        i := i + 1;
      }
      assert order[..|order|] == order;
    }

    /** One iteration of the loops over the registry in `show` and
        `unloadAllExcept(keep)`: an entry other than `keep` whose instance has
        `dispose` gets `stop` (if present) and `dispose`, a throw from either
        is caught, and its slot is cleared in any case. */
    method UnloadOther(keep: string, other: string, throws: nat -> bool)
      requires other in scenes
      modifies this
      ensures Model() == Lifecycle.UnloadOther(old(Model()), keep, other, throws)
    {
      if other == keep {
        return;
      }
      var otherEntry := scenes[other];
      if otherEntry.instance.Some? && Dispose in otherEntry.instance.value.hooks {
        var inst := otherEntry.instance.value;
        var stopOk := true;
        if Stop in inst.hooks {
          stopOk := !throws(|trace|);
          trace := trace + [Called(inst.id, Stop, stopOk)];
        }
        if stopOk {
          trace := trace + [Called(inst.id, Dispose, !throws(|trace|))];
        }
        scenes := scenes[other := otherEntry.(instance := None)];
      }
    }

    /** `update()` at clock value `now`. */
    method Update(now: int, throws: nat -> bool)
      requires Valid()
      modifies this
      ensures Valid() && Model() == Lifecycle.Update(old(Model()), now, throws)
    {
      if active.None? {
        return;
      }
      var dt := now - lastTime;
      lastTime := now;
      var inst := active.value.instance;
      if Animate in inst.hooks {
        trace := trace + [Animated(inst.id, dt, !throws(|trace|))];
      }
    }

    /** `resize(width, height)`. */
    method Resize(width: int, height: int, throws: nat -> bool) returns (out: Outcome)
      requires Valid()
      modifies this
      ensures Valid()
      ensures (Model(), out) == Lifecycle.ResizeAll(old(Model()), width, height, throws)
    {
      ghost var st := Model();
      LifecycleProperties.ResizeAllPreservesValid(st, width, height, throws);
      var i := 0;
      while i < |order|
        invariant 0 <= i <= |order|
        invariant (Model(), Done) == Lifecycle.ResizeLoop(st, width, height, order[..i], throws)
        invariant scenes == st.scenes && order == st.order && active == st.active
        invariant lastTime == st.lastTime && nextId == st.nextId
      {
        assert order[..i + 1][..i] == order[..i];
        var step := ResizeEntry(order[i], width, height, throws);
        if step.Rejected? {
          assert order == order[..i + 1] + order[i + 1..];
          LifecycleProperties.ResizeLoopStopsAtFailure(st, width, height, order[..i + 1], order[i + 1..], throws);
          return step;
        }
        i := i + 1;
      }
      assert order[..|order|] == order;
      return Done;
    }

    /** One iteration of the `resize` loop, for the entry of `name`. */
    method ResizeEntry(name: string, width: int, height: int, throws: nat -> bool) returns (out: Outcome)
      requires name in scenes
      modifies this
      ensures (Model(), out) == Lifecycle.ResizeOne(old(Model()), width, height, name, throws)
    {
      var entry := scenes[name];
      if entry.instance.Some? && Hook.Resize in entry.instance.value.hooks {
        var ok := !throws(|trace|);
        trace := trace + [Resized(entry.instance.value.id, width, height, ok)];
        if !ok {
          return Rejected(ResizeThrew);
        }
      }
      return Done;
    }
  }
}
