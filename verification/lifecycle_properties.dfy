/** What the scene manager promises, proved about the functions of module
    Lifecycle for every environment `throws`, that is, whichever scene hooks
    throw. */
module LifecycleProperties {
  import opened SceneContract
  import opened Lifecycle

  // ---------------------------------------------------------------- the unload-others loop

  /** Helper: a teardown recorded in a suffix of a trace is recorded in every
      longer suffix of every extension of it. */
  lemma TornDownWiden(a: seq<Event>, b: seq<Event>, lo: nat, hi: nat, inst: Instance)
    requires a <= b && lo <= hi <= |a|
    requires TornDown(a[hi..], inst)
    ensures TornDown(b[lo..], inst)
  {
    forall e | e in a[hi..] ensures e in b[lo..] {
      var q :| 0 <= q < |a[hi..]| && a[hi..][q] == e;
      assert b[lo..][q + hi - lo] == e;
    }
  }

  /** Helper: the slots after the unload-others loop and the instances its
      calls go to, by induction over the visited names. */
  lemma {:induction false} SweepSlots(st: State, keep: string, names: seq<string>, throws: nat -> bool)
    ensures var r := Sweep(st, keep, names, throws);
      && Framed(st, r)
      && (forall n | n in st.scenes :: r.scenes[n].factory == st.scenes[n].factory)
      && (forall n | n in st.scenes ::
            r.scenes[n].instance
            == if n != keep && n in names && Disposable(st.scenes[n].instance) then None
               else st.scenes[n].instance)
      && (forall p | |st.trace| <= p < |r.trace| ::
            && r.trace[p].Called? && r.trace[p].hook in {Stop, Dispose}
            && r.trace[p].inst in DisposableIds(st.scenes, keep))
      && (forall n | n in st.scenes && n != keep && n in names && Disposable(st.scenes[n].instance) ::
            TornDown(r.trace[|st.trace|..], st.scenes[n].instance.value))
    decreases |names|
  {
    if names != [] {
      var init, last := names[..|names| - 1], names[|names| - 1];
      var mid := Sweep(st, keep, init, throws);
      var r := Sweep(st, keep, names, throws);
      SweepSlots(st, keep, init, throws);
      assert forall n :: n in names <==> n in init || n == last;
      forall n | n in st.scenes && n != keep && n in init && Disposable(st.scenes[n].instance)
        ensures TornDown(r.trace[|st.trace|..], st.scenes[n].instance.value)
      {
        TornDownWiden(mid.trace, r.trace, |st.trace|, |st.trace|, st.scenes[n].instance.value);
      }
      if last != keep && last in mid.scenes && Disposable(mid.scenes[last].instance) {
        var inst := mid.scenes[last].instance.value;
        assert mid.scenes[last].instance == st.scenes[last].instance;
        assert inst.id in DisposableIds(st.scenes, keep);
        var td := TearDown(mid, inst, throws);
        assert r.trace == td.trace;
        TornDownWiden(td.trace, r.trace, |st.trace|, |mid.trace|, inst);
      }
    }
  }

  /** Helper: the ids of the instances the unload-others loop over `names`
      may tear down. */
  ghost function SweptIds(scenes: map<string, Entry>, keep: string, names: seq<string>): set<nat> {
    set n | n in scenes && n in names && n != keep && Disposable(scenes[n].instance) :: scenes[n].instance.value.id
  }

  /** Helper: appending one teardown of an instance with no earlier call
      keeps every instance's calls a successful `stop` then `dispose`. */
  lemma StopThenDisposeAppend(a: seq<Event>, b: seq<Event>, lo: nat, inst: Instance, throws: nat -> bool)
    requires a <= b && lo <= |a|
    requires StopThenDispose(a, lo)
    requires forall p | lo <= p < |a| :: a[p].inst != inst.id
    requires TearDownCalls(b, |a|, inst, throws)
    ensures StopThenDispose(b, lo)
  {
    forall p, q | lo <= p < q < |b| && b[p].inst == b[q].inst
      ensures b[p] == Called(b[p].inst, Stop, true) && b[q].Called? && b[q].hook == Dispose
    {
      if q < |a| {
        assert b[p] == a[p] && b[q] == a[q];
      }
    }
  }

  /** Helper: appending one teardown of `inst` keeps the calls on `other`
      to hooks `other` has. */
  lemma OwnHooksAppend(a: seq<Event>, b: seq<Event>, lo: nat, inst: Instance, other: Instance, throws: nat -> bool)
    requires a <= b && lo <= |a|
    requires OwnHooks(a, lo, other)
    requires TearDownCalls(b, |a|, inst, throws)
    requires other.id != inst.id || other == inst
    ensures OwnHooks(b, lo, other)
  {
    forall p | lo <= p < |b| && b[p].inst == other.id ensures b[p].Called? && b[p].hook in other.hooks {
      if p < |a| {
        assert b[p] == a[p];
      }
    }
  }

  /** Helper: the slot of one entry after the unload-others loop. */
  lemma SweepSlot(st: State, keep: string, names: seq<string>, throws: nat -> bool, n: string)
    requires n in st.scenes
    ensures var r := Sweep(st, keep, names, throws);
      n in r.scenes && r.scenes[n].instance
      == if n != keep && n in names && Disposable(st.scenes[n].instance) then None else st.scenes[n].instance
  {
    SweepSlots(st, keep, names, throws);
  }

  /** Helper: every call of the unload-others loop over `names` is on an
      instance of one of those entries that has `dispose`. */
  lemma {:induction false} SweepCallIds(st: State, keep: string, names: seq<string>, throws: nat -> bool)
    ensures forall p | |st.trace| <= p < |Sweep(st, keep, names, throws).trace| ::
              Sweep(st, keep, names, throws).trace[p].inst in SweptIds(st.scenes, keep, names)
    decreases |names|
  {
    if names != [] {
      var init, last := names[..|names| - 1], names[|names| - 1];
      var mid := Sweep(st, keep, init, throws);
      var r := Sweep(st, keep, names, throws);
      SweepCallIds(st, keep, init, throws);
      assert SweptIds(st.scenes, keep, init) <= SweptIds(st.scenes, keep, names);
      if last != keep && last in mid.scenes && Disposable(mid.scenes[last].instance) {
        SweepSlot(st, keep, init, throws, last);
        assert st.scenes[last].instance.value.id in SweptIds(st.scenes, keep, names);
      } else {
        assert r == mid;
        forall p | |st.trace| <= p < |mid.trace| ensures mid.trace[p].inst in SweptIds(st.scenes, keep, names) {
          assert mid.trace[p].inst in SweptIds(st.scenes, keep, init);
        }
      }
    }
  }

  /** Helper: in a valid registry, the instance of an entry outside `names`
      is not among those the loop over `names` may tear down. */
  lemma NotSwept(st: State, keep: string, names: seq<string>, last: string)
    requires Valid(st) && last in st.scenes && st.scenes[last].instance.Some? && last !in names
    ensures st.scenes[last].instance.value.id !in SweptIds(st.scenes, keep, names)
  {
    forall n | n in st.scenes && n in names && n != keep && Disposable(st.scenes[n].instance)
      ensures st.scenes[n].instance.value.id != st.scenes[last].instance.value.id
    {
      assert n != last;
    }
  }

  /** The calls of the unload-others loop, instance by instance: on each
      instance at most one `stop` and one `dispose`, `stop` first, nothing
      after a throwing `stop`, and only hooks the instance has. */
  lemma {:induction false} SweepCallOrder(st: State, keep: string, names: seq<string>, throws: nat -> bool)
    requires Valid(st)
    ensures var r := Sweep(st, keep, names, throws);
      && StopThenDispose(r.trace, |st.trace|)
      && (forall n | n in st.scenes && st.scenes[n].instance.Some? ::
            OwnHooks(r.trace, |st.trace|, st.scenes[n].instance.value))
    decreases |names|
  {
    if names != [] {
      var init, last := names[..|names| - 1], names[|names| - 1];
      var mid := Sweep(st, keep, init, throws);
      var r := Sweep(st, keep, names, throws);
      SweepCallOrder(st, keep, init, throws);
      if last != keep && last in mid.scenes && Disposable(mid.scenes[last].instance) {
        SweepSlot(st, keep, init, throws, last);
        var inst := mid.scenes[last].instance.value;
        assert last !in init;
        SweepCallIds(st, keep, init, throws);
        NotSwept(st, keep, init, last);
        var td := TearDown(mid, inst, throws);
        assert r.trace == td.trace;
        StopThenDisposeAppend(mid.trace, r.trace, |st.trace|, inst, throws);
        forall n | n in st.scenes && st.scenes[n].instance.Some?
          ensures OwnHooks(r.trace, |st.trace|, st.scenes[n].instance.value)
        {
          OwnHooksAppend(mid.trace, r.trace, |st.trace|, inst, st.scenes[n].instance.value, throws);
        }
      } else {
        assert r == mid;
      }
    }
  }

  /** The unload-others loop clears exactly the visited non-`keep` slots whose
      instance has `dispose`, whatever `stop` and `dispose` did, and tears
      each of them down (`stop` when present, then `dispose` unless `stop`
      threw); it leaves every other slot alone, and calls only `stop` and
      `dispose` of the instances it clears. In a valid registry each of
      those instances gets at most one `stop` and one `dispose`, `stop`
      first, nothing after a throwing `stop`, and only hooks it has. */
  lemma SweepEffect(st: State, keep: string, names: seq<string>, throws: nat -> bool)
    ensures var r := Sweep(st, keep, names, throws);
      && Framed(st, r)
      && (forall n | n in st.scenes :: r.scenes[n].factory == st.scenes[n].factory)
      && (forall n | n in st.scenes ::
            r.scenes[n].instance
            == if n != keep && n in names && Disposable(st.scenes[n].instance) then None
               else st.scenes[n].instance)
      && (forall p | |st.trace| <= p < |r.trace| ::
            && r.trace[p].Called? && r.trace[p].hook in {Stop, Dispose}
            && r.trace[p].inst in DisposableIds(st.scenes, keep))
      && (forall n | n in st.scenes && n != keep && n in names && Disposable(st.scenes[n].instance) ::
            TornDown(r.trace[|st.trace|..], st.scenes[n].instance.value))
      && (Valid(st) ==>
            && StopThenDispose(r.trace, |st.trace|)
            && forall n | n in st.scenes && st.scenes[n].instance.Some? ::
                 OwnHooks(r.trace, |st.trace|, st.scenes[n].instance.value))
  {
    SweepSlots(st, keep, names, throws);
    if Valid(st) {
      SweepCallOrder(st, keep, names, throws);
    }
  }

  /** The unload-others loop keeps the registry invariant. */
  lemma SweepPreservesValid(st: State, keep: string, names: seq<string>, throws: nat -> bool)
    requires Valid(st)
    ensures Valid(Sweep(st, keep, names, throws))
  {
    SweepSlots(st, keep, names, throws);
  }

  /** `unloadAllExcept(name)` never touches `name`'s slot, clears every other
      slot whose instance has `dispose`, tearing that instance down, and keeps
      the others. */
  lemma UnloadAllExceptEffect(st: State, name: string, throws: nat -> bool)
    requires Valid(st)
    ensures var r := UnloadAllExcept(st, name, throws);
      && Valid(r) && Framed(st, r)
      && (name in st.scenes ==> r.scenes[name] == st.scenes[name])
      && (forall n | n in st.scenes && n != name ::
            r.scenes[n] == if Disposable(st.scenes[n].instance) then st.scenes[n].(instance := None)
                           else st.scenes[n])
      && (forall p | |st.trace| <= p < |r.trace| ::
            r.trace[p].Called? && r.trace[p].hook in {Stop, Dispose} && r.trace[p].inst in DisposableIds(st.scenes, name))
      && (forall n | n in st.scenes && n != name && Disposable(st.scenes[n].instance) ::
            TornDown(r.trace[|st.trace|..], st.scenes[n].instance.value))
      && StopThenDispose(r.trace, |st.trace|)
      && (forall n | n in st.scenes && st.scenes[n].instance.Some? ::
            OwnHooks(r.trace, |st.trace|, st.scenes[n].instance.value))
  {
    SweepSlots(st, name, st.order, throws);
    SweepPreservesValid(st, name, st.order, throws);
    SweepCallOrder(st, name, st.order, throws);
  }

  /** The unload-others loop over entries none of which it may tear down
      calls no hook and changes nothing. */
  lemma {:induction false} SweepWithoutDisposable(st: State, keep: string, names: seq<string>, throws: nat -> bool)
    requires forall n | n in names && n in st.scenes && n != keep :: !Disposable(st.scenes[n].instance)
    ensures Sweep(st, keep, names, throws) == st
    decreases |names|
  {
    if names != [] {
      SweepWithoutDisposable(st, keep, names[..|names| - 1], throws);
    }
  }

  /** A second `unloadAllExcept(name)` right after the first calls no hook and
      changes nothing: nothing is disposed twice. */
  lemma UnloadAllExceptIdempotent(st: State, name: string, throws: nat -> bool)
    requires Valid(st)
    ensures var once := UnloadAllExcept(st, name, throws);
      UnloadAllExcept(once, name, throws) == once
  {
    var once := UnloadAllExcept(st, name, throws);
    UnloadAllExceptEffect(st, name, throws);
    SweepWithoutDisposable(once, name, once.order, throws);
  }

  /** A second `unload(name)` is a no-op: `dispose` is not called twice. */
  lemma UnloadIdempotent(st: State, name: string, throws: nat -> bool)
    ensures var once := Unload(st, name, throws);
      Unload(once, name, throws) == once
  {
  }

  // ---------------------------------------------------------------- show

  /** Helper: what building the target does. */
  lemma MaterializeEffect(st: State, name: string, throws: nat -> bool)
    requires name in st.scenes
    ensures var (r, out) := Materialize(st, name, throws);
      && r.scenes.Keys == st.scenes.Keys && r.order == st.order && r.active == st.active
      && r.lastTime == st.lastTime
      && (forall n | n in st.scenes && n != name :: r.scenes[n] == st.scenes[n])
      && r.scenes[name].factory == st.scenes[name].factory
      && st.trace <= r.trace && |r.trace| <= |st.trace| + 2
      && (out.Done? || out == Rejected(FactoryThrew) || out == Rejected(InitThrew))
      && (st.scenes[name].instance.Some? ==> r == st && out == Done)
      && (st.scenes[name].instance.None? ==>
            && |st.trace| < |r.trace| && r.trace[|st.trace|] == Built(name, st.nextId, r.trace[|st.trace|].ok)
            && (|r.trace| == |st.trace| + 2 ==> IsCall(r.trace[|st.trace| + 1], st.nextId, Init))
            && (|r.trace| == |st.trace| + 2 <==> r.trace[|st.trace|].ok && Init in st.scenes[name].factory.hooks)
            && (out == Rejected(FactoryThrew) <==> !r.trace[|st.trace|].ok)
            && (out == Rejected(InitThrew) <==> |r.trace| == |st.trace| + 2 && !r.trace[|st.trace| + 1].ok)
            && r.scenes[name].instance
               == if out == Rejected(FactoryThrew) then None
                  else Some(Instance(st.nextId, st.scenes[name].factory.hooks)))
      && (Valid(st) ==> Valid(r))
  {
  }

  /** Helper: what starting the target does. */
  lemma StartTargetEffect(st: State, inst: Instance, throws: nat -> bool)
    ensures var (r, out) := StartTarget(st, inst, throws);
      && r == st.(trace := r.trace) && st.trace <= r.trace
      && |r.trace| == |st.trace| + (if Start in inst.hooks then 1 else 0)
      && (out == Rejected(StartThrew) <==> |st.trace| < |r.trace| && !r.trace[|st.trace|].ok)
      && (out.Done? || out == Rejected(StartThrew))
      && (forall p | |st.trace| <= p < |r.trace| :: IsCall(r.trace[p], inst.id, Start))
  {
  }

  /** Helper: two registries that agree off `keep` have the same disposable ids. */
  lemma DisposableIdsAgree(a: map<string, Entry>, b: map<string, Entry>, keep: string)
    requires a.Keys == b.Keys
    requires forall n | n in a && n != keep :: a[n] == b[n]
    ensures DisposableIds(a, keep) == DisposableIds(b, keep)
  {
    forall id | id in DisposableIds(a, keep) ensures id in DisposableIds(b, keep) {
      var n :| n in a && n != keep && Disposable(a[n].instance) && a[n].instance.value.id == id;
      assert b[n] == a[n];
    }
    forall id | id in DisposableIds(b, keep) ensures id in DisposableIds(a, keep) {
      var n :| n in b && n != keep && Disposable(b[n].instance) && b[n].instance.value.id == id;
      assert b[n] == a[n];
    }
  }

  /** The slots after `show(name)`: a live target instance is reused, a null
      target slot receives what the factory built (unless the factory threw);
      with `unloadOthers` and a successful start every other slot whose
      instance has `dispose` is cleared, and no other slot changes. */
  lemma ShowSlots(st: State, name: string, unloadOthers: bool, throws: nat -> bool)
    requires Valid(st) && name in st.scenes
    ensures var (r, out) := Show(st, name, unloadOthers, throws);
      && r.scenes.Keys == st.scenes.Keys && r.order == st.order && r.lastTime == st.lastTime
      && (forall n | n in st.scenes :: r.scenes[n].factory == st.scenes[n].factory)
      && (st.scenes[name].instance.Some? ==> r.scenes[name].instance == st.scenes[name].instance)
      && (st.scenes[name].instance.None? ==>
            r.scenes[name].instance
            == if out == Rejected(FactoryThrew) then None
               else Some(Instance(st.nextId, st.scenes[name].factory.hooks)))
      && (forall n | n in st.scenes && n != name ::
            r.scenes[n].instance
            == if unloadOthers && out.Done? && Disposable(st.scenes[n].instance) then None
               else st.scenes[n].instance)
  {
    var stopped := StopActive(st, throws);
    var m := Materialize(stopped, name, throws);
    MaterializeEffect(stopped, name, throws);
    if m.1.Done? {
      var inst := m.0.scenes[name].instance.value;
      var s := StartTarget(m.0.(active := Some(Active(name, inst))), inst, throws);
      StartTargetEffect(m.0.(active := Some(Active(name, inst))), inst, throws);
      if s.1.Done? && unloadOthers {
        SweepSlots(s.0, name, s.0.order, throws);
        assert Show(st, name, unloadOthers, throws) == (Sweep(s.0, name, s.0.order, throws), Done);
      } else {
        assert Show(st, name, unloadOthers, throws) == s;
      }
    } else {
      assert Show(st, name, unloadOthers, throws) == m;
    }
  }

  /** The active reference after `show(name)`: once the target is built and
      initialised it becomes the active scene, paired with the instance in its
      slot, even if its `start` then throws; a throwing factory or `init`
      leaves the previous active reference in place. A live target cannot
      fail in the factory or `init`, because neither runs. */
  lemma ShowActive(st: State, name: string, unloadOthers: bool, throws: nat -> bool)
    requires name in st.scenes
    ensures var (r, out) := Show(st, name, unloadOthers, throws);
      && (out.Done? || out == Rejected(StartThrew) ==>
            && name in r.scenes && r.scenes[name].instance.Some?
            && r.active == Some(Active(name, r.scenes[name].instance.value)))
      && (out == Rejected(FactoryThrew) || out == Rejected(InitThrew) ==> r.active == st.active)
      && (st.scenes[name].instance.Some? ==> out.Done? || out == Rejected(StartThrew))
  {
    var stopped := StopActive(st, throws);
    var m := Materialize(stopped, name, throws);
    MaterializeEffect(stopped, name, throws);
    if m.1.Done? {
      var inst := m.0.scenes[name].instance.value;
      var pre := m.0.(active := Some(Active(name, inst)));
      var s := StartTarget(pre, inst, throws);
      StartTargetEffect(pre, inst, throws);
      if s.1.Done? && unloadOthers {
        SweepSlots(s.0, name, s.0.order, throws);
        assert Show(st, name, unloadOthers, throws) == (Sweep(s.0, name, s.0.order, throws), Done);
      } else {
        assert Show(st, name, unloadOthers, throws) == s;
      }
    } else {
      assert Show(st, name, unloadOthers, throws) == m;
    }
  }

  /** Helper: `show(name)` up to and including the `start` of its target:
      the state the unload-others part begins from, and the outcome so far. */
  ghost function Started(st: State, name: string, throws: nat -> bool): (State, Outcome)
    requires name in st.scenes
  {
    var m := Materialize(StopActive(st, throws), name, throws);
    if m.1.Rejected? then m
    else
      var inst := m.0.scenes[name].instance.value;
      StartTarget(m.0.(active := Some(Active(name, inst))), inst, throws)
  }

  /** Helper: up to the `start` of its target, `show(name)` changes no other
      entry and keeps the registry invariant. */
  lemma StartedFrame(st: State, name: string, throws: nat -> bool)
    requires name in st.scenes
    ensures var s := Started(st, name, throws).0;
      && s.scenes.Keys == st.scenes.Keys && s.order == st.order
      && (forall n | n in st.scenes && n != name :: s.scenes[n] == st.scenes[n])
      && (Valid(st) ==> Valid(s))
  {
    var stopped := StopActive(st, throws);
    assert Valid(st) ==> Valid(stopped);
    MaterializeEffect(stopped, name, throws);
  }

  /** `show` keeps the registry invariant. */
  lemma ShowPreservesValid(st: State, name: string, unloadOthers: bool, throws: nat -> bool)
    requires Valid(st)
    ensures Valid(Show(st, name, unloadOthers, throws).0)
  {
    if name in st.scenes {
      var stopped := StopActive(st, throws);
      var m := Materialize(stopped, name, throws);
      MaterializeEffect(stopped, name, throws);
      if m.1.Done? {
        var inst := m.0.scenes[name].instance.value;
        var pre := m.0.(active := Some(Active(name, inst)));
        var s := StartTarget(pre, inst, throws);
        StartedFrame(st, name, throws);
        assert Started(st, name, throws) == s;
        if s.1.Done? && unloadOthers {
          SweepPreservesValid(s.0, name, s.0.order, throws);
          assert Show(st, name, unloadOthers, throws) == (Sweep(s.0, name, s.0.order, throws), Done);
        } else {
          assert Show(st, name, unloadOthers, throws) == s;
        }
      } else {
        assert Show(st, name, unloadOthers, throws) == m;
      }
    }
  }

  /** Helper: the target instance of `show`, reused or freshly built, is not
      among the instances of other entries. */
  lemma TargetNotOther(st: State, name: string, inst: Instance)
    requires Valid(st) && name in st.scenes
    requires st.scenes[name].instance == Some(inst) || inst.id == st.nextId
    ensures inst.id !in DisposableIds(st.scenes, name)
  {
    forall n | n in st.scenes && n != name && Disposable(st.scenes[n].instance)
      ensures st.scenes[n].instance.value.id != inst.id
    {
    }
  }

  /** Helper: the calls of the unload-others part of `show(name)`, which
      runs on a registry `s` that agrees with `st` off the target. */
  lemma SweepSegment(st: State, s: State, name: string, throws: nat -> bool)
    requires s.scenes.Keys == st.scenes.Keys && s.order == st.order
    requires forall n | n in st.scenes && n != name :: s.scenes[n] == st.scenes[n]
    ensures var r := Sweep(s, name, s.order, throws);
      && s.trace <= r.trace
      && (forall p | |s.trace| <= p < |r.trace| ::
            && r.trace[p].Called? && r.trace[p].hook in {Stop, Dispose}
            && r.trace[p].inst in DisposableIds(st.scenes, name))
      && (forall n | n in st.order && n in st.scenes && n != name && Disposable(st.scenes[n].instance) ::
            TornDown(r.trace[|s.trace|..], st.scenes[n].instance.value))
      && (Valid(s) ==>
            && StopThenDispose(r.trace, |s.trace|)
            && forall n | n in st.scenes && n != name && st.scenes[n].instance.Some? ::
                 OwnHooks(r.trace, |s.trace|, st.scenes[n].instance.value))
  {
    DisposableIdsAgree(s.scenes, st.scenes, name);
    SweepSlots(s, name, s.order, throws);
    if Valid(s) {
      SweepCallOrder(s, name, s.order, throws);
    }
  }

  /** Helper: the calls `show(name)` makes up to the `start` of its target,
      as the cut points of `ShowHookOrder`, and what follows them. */
  lemma ShowStages(st: State, name: string, unloadOthers: bool, throws: nat -> bool)
    returns (i: nat, j: nat, k: nat)
    requires name in st.scenes
    ensures var (r, out) := Show(st, name, unloadOthers, throws);
      && st.trace <= r.trace && |st.trace| <= i <= j <= k <= |r.trace|
      && i == |st.trace| + (if st.active.Some? && Stop in st.active.value.instance.hooks then 1 else 0)
      && (forall p | |st.trace| <= p < i :: st.active.Some? && IsCall(r.trace[p], st.active.value.instance.id, Stop))
      && (st.scenes[name].instance.Some? <==> j == i)
      && (i < j ==> r.trace[i] == Built(name, st.nextId, r.trace[i].ok))
      && j <= i + 2
      && (j == i + 2 ==> IsCall(r.trace[i + 1], st.nextId, Init))
      && (st.scenes[name].instance.None? ==> (j == i + 2 <==> r.trace[i].ok && Init in st.scenes[name].factory.hooks))
      && (out == Rejected(FactoryThrew) <==> i < j && !r.trace[i].ok)
      && (out == Rejected(InitThrew) <==> j == i + 2 && !r.trace[i + 1].ok)
      && (out == Rejected(StartThrew) <==> j < k && !r.trace[j].ok)
      && out != Rejected(NotRegistered)
      && k <= j + 1
      && (out.Done? || out == Rejected(StartThrew) ==>
            r.active.Some? && (k == j + 1 <==> Start in r.active.value.instance.hooks))
      && (forall p | j <= p < k ::
            && r.active.Some? && r.active.value.name == name
            && IsCall(r.trace[p], r.active.value.instance.id, Start))
      && var s := Started(st, name, throws).0;
      && k == |s.trace|
      && (unloadOthers && out.Done? ==> r == Sweep(s, name, s.order, throws))
      && (!(unloadOthers && out.Done?) ==> r == s)
  {
    var stopped := StopActive(st, throws);
    var m := Materialize(stopped, name, throws);
    MaterializeEffect(stopped, name, throws);
    i, j, k := |stopped.trace|, |m.0.trace|, |m.0.trace|;
    if m.1.Done? {
      var inst := m.0.scenes[name].instance.value;
      var pre := m.0.(active := Some(Active(name, inst)));
      var s := StartTarget(pre, inst, throws);
      StartTargetEffect(pre, inst, throws);
      k := |s.0.trace|;
      assert Started(st, name, throws) == s;
      if s.1.Done? && unloadOthers {
        SweepSlots(s.0, name, s.0.order, throws);
        assert Show(st, name, unloadOthers, throws) == (Sweep(s.0, name, s.0.order, throws), Done);
      } else {
        assert Show(st, name, unloadOthers, throws) == s;
      }
    } else {
      assert Started(st, name, throws) == m;
      assert Show(st, name, unloadOthers, throws) == m;
    }
  }

  /** The order of the calls `show(name)` makes, as three cut points in the
      trace: first the `stop` of the previously active instance, when there
      is one and it has `stop` (before `i`); then, only when the slot was
      null, the factory and, when it returned and the instance has `init`,
      that `init` (up to `j`); then, once the target is active, its `start`
      when it has one (up to `k`); and only after that, when `unloadOthers`
      is set and the start succeeded, the teardown of every other entry's
      instance that has `dispose`, and no other call. `show` rejects with
      FactoryThrew, InitThrew or StartThrew exactly when the factory, `init`
      or `start` call in its segment threw. */
  lemma ShowHookOrder(st: State, name: string, unloadOthers: bool, throws: nat -> bool)
    returns (i: nat, j: nat, k: nat)
    requires name in st.scenes
    ensures var (r, out) := Show(st, name, unloadOthers, throws);
      && st.trace <= r.trace && |st.trace| <= i <= j <= k <= |r.trace|
      && i == |st.trace| + (if st.active.Some? && Stop in st.active.value.instance.hooks then 1 else 0)
      && (forall p | |st.trace| <= p < i :: st.active.Some? && IsCall(r.trace[p], st.active.value.instance.id, Stop))
      && (st.scenes[name].instance.Some? <==> j == i)
      && (i < j ==> r.trace[i] == Built(name, st.nextId, r.trace[i].ok))
      && j <= i + 2
      && (j == i + 2 ==> IsCall(r.trace[i + 1], st.nextId, Init))
      && (st.scenes[name].instance.None? ==> (j == i + 2 <==> r.trace[i].ok && Init in st.scenes[name].factory.hooks))
      && (out == Rejected(FactoryThrew) <==> i < j && !r.trace[i].ok)
      && (out == Rejected(InitThrew) <==> j == i + 2 && !r.trace[i + 1].ok)
      && (out == Rejected(StartThrew) <==> j < k && !r.trace[j].ok)
      && out != Rejected(NotRegistered)
      && k <= j + 1
      && (out.Done? || out == Rejected(StartThrew) ==>
            r.active.Some? && (k == j + 1 <==> Start in r.active.value.instance.hooks))
      && (forall p | j <= p < k ::
            && r.active.Some? && r.active.value.name == name
            && IsCall(r.trace[p], r.active.value.instance.id, Start))
      && (forall p | k <= p < |r.trace| ::
            && unloadOthers && out.Done?
            && r.trace[p].Called? && r.trace[p].hook in {Stop, Dispose}
            && r.trace[p].inst in DisposableIds(st.scenes, name))
      && (unloadOthers && out.Done? ==>
            forall n | n in st.order && n in st.scenes && n != name && Disposable(st.scenes[n].instance) ::
              TornDown(r.trace[k..], st.scenes[n].instance.value))
      && (Valid(st) && unloadOthers && out.Done? ==>
            && StopThenDispose(r.trace, k)
            && forall n | n in st.scenes && n != name && st.scenes[n].instance.Some? ::
                 OwnHooks(r.trace, k, st.scenes[n].instance.value))
  {
    i, j, k := ShowStages(st, name, unloadOthers, throws);
    StartedFrame(st, name, throws);
    SweepSegment(st, Started(st, name, throws).0, name, throws);
  }

  /** The instances whose `stop` and `dispose` the unload-others part of
      `show(name)` may call never include the new active instance: the target
      is never torn down by the `show` that activates it. */
  lemma ShowSparesTarget(st: State, name: string, unloadOthers: bool, throws: nat -> bool)
    requires Valid(st) && name in st.scenes
    ensures var (r, out) := Show(st, name, unloadOthers, throws);
      out.Done? ==> r.active.Some? && r.active.value.instance.id !in DisposableIds(st.scenes, name)
  {
    ShowActive(st, name, unloadOthers, throws);
    ShowSlots(st, name, unloadOthers, throws);
    var (r, out) := Show(st, name, unloadOthers, throws);
    if out.Done? {
      TargetNotOther(st, name, r.active.value.instance);
    }
  }

  /** With every factory building scenes that have `dispose`, a successful
      `show(name)` that unloads the others leaves the target as the only
      entry holding an instance. So `show("A")`, `show("B")`, `show("C")`
      leave only C live. */
  lemma ShowLeavesOnlyTarget(st: State, name: string, throws: nat -> bool)
    requires Valid(st)
    requires forall n | n in st.scenes :: Dispose in st.scenes[n].factory.hooks
    ensures var (r, out) := Show(st, name, true, throws);
      out.Done? ==> forall n | n in r.scenes :: r.scenes[n].instance.Some? <==> n == name
  {
    if name in st.scenes {
      ShowSlots(st, name, true, throws);
      ShowActive(st, name, true, throws);
    }
  }

  // ---------------------------------------------------------------- resize

  /** The `resize` loop calls `resize(width, height)` on the resizable live
      instances in iteration order, one call each, and stops right after the
      first call that throws; it changes nothing but the trace. */
  lemma {:induction false} ResizeLoopEffect(st: State, width: int, height: int, names: seq<string>, throws: nat -> bool)
    ensures var (r, out) := ResizeLoop(st, width, height, names, throws);
      var targets := Resizable(st.scenes, names);
      && r == st.(trace := r.trace) && st.trace <= r.trace
      && |r.trace| <= |st.trace| + |targets|
      && (forall p | |st.trace| <= p < |r.trace| ::
            && r.trace[p].Resized? && r.trace[p].width == width && r.trace[p].height == height
            && r.trace[p].inst == targets[p - |st.trace|].id)
      && (forall p | |st.trace| <= p < |r.trace| - 1 :: r.trace[p].ok)
      && (out.Done? ==> |r.trace| == |st.trace| + |targets| && forall p | |st.trace| <= p < |r.trace| :: r.trace[p].ok)
      && (out.Rejected? ==> out.error == ResizeThrew && |st.trace| < |r.trace| && !r.trace[|r.trace| - 1].ok)
    decreases |names|
  {
    if names != [] {
      var init := names[..|names| - 1];
      ResizeLoopEffect(st, width, height, init, throws);
    }
  }

  /** `resize` keeps the registry invariant. */
  lemma ResizeAllPreservesValid(st: State, width: int, height: int, throws: nat -> bool)
    requires Valid(st)
    ensures Valid(ResizeAll(st, width, height, throws).0)
  {
    ResizeLoopEffect(st, width, height, st.order, throws);
  }

  /** Once a `resize` call has thrown, the rest of the loop does not run. */
  lemma {:induction false} ResizeLoopStopsAtFailure(st: State, width: int, height: int,
                                                    names: seq<string>, more: seq<string>, throws: nat -> bool)
    requires ResizeLoop(st, width, height, names, throws).1.Rejected?
    ensures ResizeLoop(st, width, height, names + more, throws) == ResizeLoop(st, width, height, names, throws)
    decreases |more|
  {
    if more == [] {
      assert names + more == names;
    } else {
      var shorter := more[..|more| - 1];
      ResizeLoopStopsAtFailure(st, width, height, names, shorter, throws);
      assert (names + more)[..|names + more| - 1] == names + shorter;
    }
  }

  /** `Resizable` lists exactly the live instances with `resize` among the
      visited entries. */
  lemma {:induction false} ResizableCovers(scenes: map<string, Entry>, names: seq<string>)
    ensures forall n | n in names && n in scenes && scenes[n].instance.Some? && Resize in scenes[n].instance.value.hooks ::
              scenes[n].instance.value in Resizable(scenes, names)
    ensures forall inst | inst in Resizable(scenes, names) ::
              exists n :: n in names && n in scenes && scenes[n].instance == Some(inst) && Resize in inst.hooks
    decreases |names|
  {
    if names != [] {
      var init := names[..|names| - 1];
      ResizableCovers(scenes, init);
      assert forall n :: n in names <==> n in init || n == names[|names| - 1];
      forall inst | inst in Resizable(scenes, names)
        ensures exists n :: n in names && n in scenes && scenes[n].instance == Some(inst) && Resize in inst.hooks
      {
        if inst in Resizable(scenes, init) {
          var n :| n in init && n in scenes && scenes[n].instance == Some(inst) && Resize in inst.hooks;
          assert n in names;
        } else {
          assert names[|names| - 1] in names;
        }
      }
    }
  }

  /** Helper: every call the `resize` loop makes over `names` goes to a live
      instance with `resize`. */
  lemma ResizeLoopCallsLive(st: State, width: int, height: int, names: seq<string>, throws: nat -> bool)
    ensures var r := ResizeLoop(st, width, height, names, throws).0;
      forall p | |st.trace| <= p < |r.trace| ::
        exists n :: n in st.scenes && st.scenes[n].instance.Some?
          && st.scenes[n].instance.value.id == r.trace[p].inst && Resize in st.scenes[n].instance.value.hooks
  {
    var r := ResizeLoop(st, width, height, names, throws).0;
    var targets := Resizable(st.scenes, names);
    ResizeLoopEffect(st, width, height, names, throws);
    ResizableCovers(st.scenes, names);
    forall p | |st.trace| <= p < |r.trace|
      ensures exists n :: n in st.scenes && st.scenes[n].instance.Some?
                && st.scenes[n].instance.value.id == r.trace[p].inst && Resize in st.scenes[n].instance.value.hooks
    {
      assert targets[p - |st.trace|] in targets;
    }
  }

  /** Helper: a `resize` loop over `names` that succeeds has made a successful
      call on every live instance with `resize` among those entries. */
  lemma ResizeLoopReachesAll(st: State, width: int, height: int, names: seq<string>, throws: nat -> bool)
    ensures var (r, out) := ResizeLoop(st, width, height, names, throws);
      out.Done? ==>
        forall n | n in names && n in st.scenes && st.scenes[n].instance.Some? && Resize in st.scenes[n].instance.value.hooks ::
          Resized(st.scenes[n].instance.value.id, width, height, true) in r.trace[|st.trace|..]
  {
    var (r, out) := ResizeLoop(st, width, height, names, throws);
    var targets := Resizable(st.scenes, names);
    ResizeLoopEffect(st, width, height, names, throws);
    ResizableCovers(st.scenes, names);
    if out.Done? {
      forall n | n in names && n in st.scenes && st.scenes[n].instance.Some? && Resize in st.scenes[n].instance.value.hooks
        ensures Resized(st.scenes[n].instance.value.id, width, height, true) in r.trace[|st.trace|..]
      {
        var inst := st.scenes[n].instance.value;
        assert inst in targets;
        var q :| 0 <= q < |targets| && targets[q] == inst;
        assert r.trace[|st.trace| + q] == Resized(inst.id, width, height, true);
        assert r.trace[|st.trace|..][q] == r.trace[|st.trace| + q];
      }
    }
  }

  /** `resize(width, height)` calls `resize` on live instances with `resize`
      only, whether active or not; when no call throws it reaches every one
      of them with a successful call. */
  lemma ResizeAllReachesLive(st: State, width: int, height: int, throws: nat -> bool)
    requires Valid(st)
    ensures var (r, out) := ResizeAll(st, width, height, throws);
      && r == st.(trace := r.trace) && st.trace <= r.trace
      && (forall p | |st.trace| <= p < |r.trace| ::
            && r.trace[p].Resized? && r.trace[p].width == width && r.trace[p].height == height
            && exists n :: n in st.scenes && st.scenes[n].instance.Some?
                 && st.scenes[n].instance.value.id == r.trace[p].inst && Resize in st.scenes[n].instance.value.hooks)
      && (out.Done? ==>
            forall n | n in st.scenes && st.scenes[n].instance.Some? && Resize in st.scenes[n].instance.value.hooks ::
              Resized(st.scenes[n].instance.value.id, width, height, true) in r.trace[|st.trace|..])
  {
    ResizeLoopEffect(st, width, height, st.order, throws);
    ResizeLoopCallsLive(st, width, height, st.order, throws);
    ResizeLoopReachesAll(st, width, height, st.order, throws);
  }
}
