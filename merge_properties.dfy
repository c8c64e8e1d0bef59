/**
 * What `MultipleContainers.merge` does to the store, stated over the
 * specification function `MergeArgs` that the method is proved against:
 * which keys exist afterwards, which entries change and how, when it raises,
 * how much is applied before it raises, and that merging only `None`s twice
 * changes nothing the second time.
 */
module MergeProperties {
  import opened Containers

  type Args = seq<(string, Value)>

  /** The keyword names passed to `merge`. */
  function ArgKeys(args: Args): (keys: set<string>)
    ensures forall i :: 0 <= i < |args| ==> args[i].0 in keys
    ensures forall k :: k in keys ==> exists i :: 0 <= i < |args| && args[i].0 == k
  {
    if args == [] then {} else {args[0].0} + ArgKeys(args[1..])
  }

  /** No keyword is passed twice, as for any Python `**kwargs`. */
  predicate Distinct(args: Args) {
    forall i, j :: 0 <= i < j < |args| ==> args[i].0 != args[j].0
  }

  predicate AllNone(args: Args) {
    forall i :: 0 <= i < |args| ==> args[i].1.None?
  }

  /**
   * Every argument is a container or `None`, and every container argument
   * whose key is already stored meets there a container that is not a
   * nested registry.
   */
  predicate WellTyped(store: map<string, Value>, args: Args) {
    forall i :: 0 <= i < |args| ==>
      && !args[i].1.Other?
      && (args[i].1.Cont? && args[i].0 in store ==>
            store[args[i].0].Cont? && store[args[i].0].c.kind != Registry)
  }

  predicate IsRegistry(v: Value) {
    v.Cont? && v.c.kind == Registry
  }

  /** Neither the store nor the arguments hold a nested registry. */
  predicate NoRegistries(store: map<string, Value>, args: Args) {
    && (forall k :: k in store ==> !IsRegistry(store[k]))
    && (forall i :: 0 <= i < |args| ==> !IsRegistry(args[i].1))
  }

  /**
   * Keys not named in the arguments are untouched, no key is ever removed,
   * and every key that `merge` adds is bound to a container.
   */
  lemma {:induction false} MergeFrame(store: map<string, Value>, args: Args, inner: InnerMerge)
    ensures var r := MergeArgs(store, args, inner).store;
      && store.Keys <= r.Keys <= store.Keys + ArgKeys(args)
      && (forall k :: k in store && k !in ArgKeys(args) ==> r[k] == store[k])
      && (forall k :: k in r && k !in store ==> r[k].Cont?)
      && (forall k :: k in store && store[k].Cont? ==> r[k].Cont?)
    decreases |args|
  {
    if args != [] {
      var step := MergeOne(store, args[0].0, args[0].1, inner);
      if step.outcome.Pass? {
        MergeFrame(step.store, args[1..], inner);
      }
    }
  }

  /** After a merge that did not raise, the keys are the old keys together with the argument keys. */
  lemma {:induction false} MergeKeys(store: map<string, Value>, args: Args, inner: InnerMerge)
    requires MergeArgs(store, args, inner).outcome.Pass?
    ensures MergeArgs(store, args, inner).store.Keys == store.Keys + ArgKeys(args)
    decreases |args|
  {
    if args != [] {
      var step := MergeOne(store, args[0].0, args[0].1, inner);
      MergeKeys(step.store, args[1..], inner);
    }
  }

  /**
   * The entry each argument leaves behind, for distinct keys and a merge
   * that did not raise: `None` adds `GetContainer(k)` only where `k` is
   * absent; a container is stored as it is where `k` is absent, and
   * otherwise merged into the existing container, whose kind is kept.
   */
  lemma {:induction false} MergeEntry(store: map<string, Value>, args: Args, inner: InnerMerge, i: nat)
    requires Distinct(args) && i < |args|
    requires MergeArgs(store, args, inner).outcome.Pass?
    ensures var (k, v) := args[i];
      var r := MergeArgs(store, args, inner).store;
      && k in r
      && !v.Other?
      && (v.None? && k in store ==> r[k] == store[k])
      && (v.None? && k !in store ==> r[k] == Cont(GetContainer(k)))
      && (v.Cont? && k !in store ==> r[k] == v)
      && (v.Cont? && k in store ==>
            store[k].Cont? && store[k].c.kind != Registry && r[k] == Cont(Container(store[k].c.kind, inner(store[k].c.items, v.c.items))))
    decreases |args|
  {
    var step := MergeOne(store, args[0].0, args[0].1, inner);
    assert Distinct(args[1..]) by {
      forall a, b | 0 <= a < b < |args[1..]| ensures args[1..][a].0 != args[1..][b].0 {
        assert args[1..][a] == args[a + 1] && args[1..][b] == args[b + 1];
      }
    }
    if i == 0 {
      MergeFrame(step.store, args[1..], inner);
      assert args[0].0 !in ArgKeys(args[1..]);
    } else {
      MergeEntry(step.store, args[1..], inner, i - 1);
      assert args[1..][i - 1] == args[i];
      assert args[i].0 != args[0].0;
    }
  }

  /**
   * A merge raises exactly where some argument fails: the arguments before
   * it have all been applied and the ones after it have not.
   */
  lemma MergeStopsAtError(store: map<string, Value>, args: Args, inner: InnerMerge, i: nat)
    requires i < |args|
    requires MergeArgs(store, args[..i], inner).outcome.Pass?
    requires MergeOne(MergeArgs(store, args[..i], inner).store, args[i].0, args[i].1, inner).outcome.Fail?
    ensures MergeArgs(store, args, inner) ==
      MergeResult(MergeArgs(store, args[..i], inner).store,
                  MergeOne(MergeArgs(store, args[..i], inner).store, args[i].0, args[i].1, inner).outcome)
  {
    MergeArgsSnoc(store, args[..i], args[i], inner);
    assert args[..i + 1] == args[..i] + [args[i]];
    MergeArgsPrefixFail(store, args, i + 1, inner);
  }

  /** The merge ended at argument `i`: everything before it applied without raising, and `i` raised. */
  predicate RaisedAt(store: map<string, Value>, args: Args, inner: InnerMerge, i: nat)
    requires i < |args|
  {
    var before := MergeArgs(store, args[..i], inner);
    && before.outcome.Pass?
    && MergeArgs(store, args, inner) ==
         MergeResult(before.store, MergeOne(before.store, args[i].0, args[i].1, inner).outcome)
  }

  /** Conversely, every merge that raises does so at some argument, as `MergeStopsAtError` describes. */
  lemma {:induction false} MergeErrorHasCause(store: map<string, Value>, args: Args, inner: InnerMerge)
    requires MergeArgs(store, args, inner).outcome.Fail?
    ensures exists i :: 0 <= i < |args| && RaisedAt(store, args, inner, i)
    decreases |args|
  {
    var step := MergeOne(store, args[0].0, args[0].1, inner);
    if step.outcome.Fail? {
      assert args[..0] == [];
      assert MergeArgs(store, args[..0], inner) == MergeResult(store, Pass);
      assert RaisedAt(store, args, inner, 0);
    } else {
      MergeErrorHasCause(step.store, args[1..], inner);
      var j :| 0 <= j < |args[1..]| && RaisedAt(step.store, args[1..], inner, j);
      assert args[..j + 1][0] == args[0];
      assert args[..j + 1][1..] == args[1..][..j];
      assert MergeArgs(store, args[..j + 1], inner) == MergeArgs(step.store, args[1..][..j], inner);
      assert args[1..][j] == args[j + 1];
      assert RaisedAt(store, args, inner, j + 1);
    }
  }

  /**
   * `merge` raises `TypeError` at an argument that is neither a container
   * nor `None` when everything before it was well typed, and any such
   * argument makes it raise something. With no such argument and no nested
   * registry anywhere, it raises nothing or an `AttributeError`.
   */
  lemma {:induction false} MergeTypeError(store: map<string, Value>, args: Args, inner: InnerMerge)
    ensures (exists i :: 0 <= i < |args| && args[i].1.Other?) ==> MergeArgs(store, args, inner).outcome.Fail?
    ensures forall i :: 0 <= i < |args| && args[i].1.Other? && Distinct(args[..i]) && WellTyped(store, args[..i]) ==>
      MergeArgs(store, args, inner).outcome == Fail(TypeError(args[i].0))
    ensures (forall i :: 0 <= i < |args| ==> !args[i].1.Other?) && NoRegistries(store, args) ==>
      MergeArgs(store, args, inner).outcome.Pass? || MergeArgs(store, args, inner).outcome.error.AttributeError?
    decreases |args|
  {
    forall i | 0 <= i < |args| && args[i].1.Other? && Distinct(args[..i]) && WellTyped(store, args[..i])
      ensures MergeArgs(store, args, inner).outcome == Fail(TypeError(args[i].0))
    {
      MergePassesIffWellTyped(store, args[..i], inner);
      MergeStopsAtError(store, args, inner, i);
    }
    if args != [] {
      var step := MergeOne(store, args[0].0, args[0].1, inner);
      if step.outcome.Pass? {
        MergeTypeError(step.store, args[1..], inner);
        assert forall i :: 0 <= i < |args[1..]| ==> args[1..][i] == args[i + 1];
        if exists i :: 0 <= i < |args| && args[i].1.Other? {
          var i :| 0 <= i < |args| && args[i].1.Other?;
          assert i != 0;
          assert args[1..][i - 1].1.Other?;
        }
        if NoRegistries(store, args) {
          assert NoRegistries(step.store, args[1..]);
        }
      }
    }
  }

  /**
   * A merge that raises nothing had well-typed arguments; for distinct
   * keyword names, as Python passes them, well-typed arguments raise nothing.
   */
  lemma {:induction false} MergePassesIffWellTyped(store: map<string, Value>, args: Args, inner: InnerMerge)
    ensures MergeArgs(store, args, inner).outcome.Pass? ==> WellTyped(store, args)
    ensures Distinct(args) && WellTyped(store, args) ==> MergeArgs(store, args, inner).outcome.Pass?
    decreases |args|
  {
    if args != [] {
      var (k, v) := args[0];
      var step := MergeOne(store, k, v, inner);
      assert forall i :: 0 <= i < |args[1..]| ==> args[1..][i] == args[i + 1];
      if step.outcome.Pass? {
        MergePassesIffWellTyped(step.store, args[1..], inner);
        if Distinct(args) && WellTyped(store, args) {
          assert Distinct(args[1..]);
          forall i | 0 <= i < |args[1..]| && args[1..][i].1.Cont? && args[1..][i].0 in step.store
            ensures step.store[args[1..][i].0].Cont? && step.store[args[1..][i].0].c.kind != Registry
          {
            assert args[1..][i] == args[i + 1];
            assert args[i + 1].0 != k;
          }
        }
        if MergeArgs(store, args, inner).outcome.Pass? {
          forall i | 0 <= i < |args| && args[i].1.Cont? && args[i].0 in store
            ensures store[args[i].0].Cont? && store[args[i].0].c.kind != Registry
          {
            if i > 0 {
              assert args[1..][i - 1] == args[i];
            }
          }
        }
      } else {
        assert !WellTyped(store, args) by {
          assert args[0] == (k, v);
        }
      }
    }
  }

  /**
   * A merge of `None`s never raises; it keeps every stored entry and binds
   * each absent argument key to `GetContainer` of that key.
   */
  lemma {:induction false} MergeNones(store: map<string, Value>, args: Args, inner: InnerMerge)
    requires AllNone(args)
    ensures var r := MergeArgs(store, args, inner);
      && r.outcome.Pass?
      && r.store.Keys == store.Keys + ArgKeys(args)
      && (forall k :: k in store ==> r.store[k] == store[k])
      && (forall k :: k in r.store && k !in store ==> r.store[k] == Cont(GetContainer(k)))
    decreases |args|
  {
    if args != [] {
      var step := MergeOne(store, args[0].0, args[0].1, inner);
      assert AllNone(args[1..]) by {
        forall i | 0 <= i < |args[1..]| ensures args[1..][i].1.None? {
          assert args[1..][i] == args[i + 1];
        }
      }
      MergeNones(step.store, args[1..], inner);
    }
  }

  /** Merging the same `None`s a second time leaves the store as the first merge left it. */
  lemma MergeNonesIdempotent(store: map<string, Value>, args: Args, inner: InnerMerge)
    requires AllNone(args)
    ensures var once := MergeArgs(store, args, inner);
      MergeArgs(once.store, args, inner) == once
  {
    var once := MergeArgs(store, args, inner);
    MergeNones(store, args, inner);
    MergeNones(once.store, args, inner);
    var twice := MergeArgs(once.store, args, inner);
    assert twice.store == once.store;
  }

  /**
   * After a merge that did not raise, every argument key is bound to a
   * container, unless it was already bound to something else and only
   * `None` was passed for it; so `create` can then look it up and call it.
   */
  lemma {:induction false} MergeMakesReady(store: map<string, Value>, args: Args, inner: InnerMerge)
    requires MergeArgs(store, args, inner).outcome.Pass?
    ensures forall k :: k in ArgKeys(args) && (k in store ==> store[k].Cont?) ==>
      Ready(MergeArgs(store, args, inner).store, k)
    decreases |args|
  {
    if args != [] {
      var step := MergeOne(store, args[0].0, args[0].1, inner);
      MergeMakesReady(step.store, args[1..], inner);
      MergeFrame(step.store, args[1..], inner);
      forall k | k in ArgKeys(args) && (k in store ==> store[k].Cont?)
        ensures Ready(MergeArgs(store, args, inner).store, k)
      {
        if k !in ArgKeys(args[1..]) {
          assert k == args[0].0;
        }
      }
    }
  }

  /** `None` merged for each standard key into an empty store leaves an empty container of the matching kind under each. */
  lemma DefaultsReady(args: Args, inner: InnerMerge)
    requires |args| == |StandardKeys| && AllNone(args)
    requires forall j :: 0 <= j < |args| ==> args[j].0 == StandardKeys[j]
    ensures forall j :: 0 <= j < |StandardKeys| ==>
      Ready(MergeArgs(map[], args, inner).store, StandardKeys[j]) &&
      MergeArgs(map[], args, inner).store[StandardKeys[j]].c == GetContainer(StandardKeys[j])
  {
    MergeNones(map[], args, inner);
  }

  /**
   * The default set-up: an empty `MultipleContainers` merged with `None`
   * for the four standard keys creates, in order, an empty container of
   * each standard kind; optimizers are built from the models and
   * schedulers from the optimizers.
   */
  method DefaultSetup(inner: InnerMerge) returns (events: seq<Event>, outcome: Outcome)
    ensures outcome == Pass && |events| == 4
    ensures events[0].CreateCall? && events[3].CreateCall?
    ensures forall j :: 0 <= j < 4 ==> events[j].target == GetContainer(StandardKeys[j])
    ensures events[1].CreateWithCall? && events[1].from == GetContainer("models")
    ensures events[2].CreateWithCall? && events[2].from == GetContainer("optimizers")
  {
    var mc := new MultipleContainers(map[]);
    var args: Args := [("models", None), ("optimizers", None), ("lr_schedulers", None), ("misc", None)];
    DefaultsReady(args, inner);
    var merged := mc.Merge(args, inner);
    events, outcome := mc.Create();
  }
}
