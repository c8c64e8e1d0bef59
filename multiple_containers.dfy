/**
 * The keyed container registry of pytorch-adapt: `get_container`, which makes
 * an empty container of the kind a key names, and `MultipleContainers`, a
 * dictionary of named containers that can be merged with keyword arguments
 * and then created in dependency order.
 *
 * What a container holds (torch modules, optimizers, schedulers, ...) is
 * abstract here: a map from names to opaque item identifiers. How two
 * containers of one kind are merged (`BaseContainer.merge`) is not part of
 * this model; every operation that needs it takes it as the parameter
 * `inner`, so what is proved holds whatever contents that merge returns.
 * It is taken to return normally, as `create` and `create_with` are.
 */
module Containers {

  /**
   * The class of a container: the four standard sub-containers, the plain
   * base class, and a nested `MultipleContainers`, which is itself a
   * `BaseContainer` but whose `merge` takes keyword arguments only.
   */
  datatype Kind = Models | Optimizers | LRSchedulers | Misc | Base | Registry

  /** An object held by a container, known only by its identity. */
  datatype Item = Item(id: nat)

  type Items = map<string, Item>

  datatype Container = Container(kind: Kind, items: Items)

  /** The merge of one container's contents into another's (`BaseContainer.merge`). */
  type InnerMerge = (Items, Items) -> Items

  /** A Python value passed as a keyword argument or kept in the store. */
  datatype Value = Cont(c: Container) | None | Other(name: string)

  /**
   * The exception raised. The key is the model's record of which argument
   * or lookup was being processed; the source's messages do not name it.
   */
  datatype Error =
    | TypeError(key: string)       // a value that is neither a container nor None, or a positional merge into a nested registry
    | AttributeError(key: string)  // the stored value under key has no merge/create method
    | KeyError(key: string)        // create looked up a key the store does not have

  datatype Outcome = Pass | Fail(error: Error)

  /** The store together with how the operation ended. */
  datatype MergeResult = MergeResult(store: map<string, Value>, outcome: Outcome)

  /** The four sub-containers `create` builds, in the order it builds them. */
  const StandardKeys: seq<string> := ["models", "optimizers", "lr_schedulers", "misc"]

  /** A fresh empty container whose class is chosen by the key. */
  function GetContainer(k: string): (c: Container)
    ensures c.items == map[]
    ensures c.kind == Models <==> k == "models"
    ensures c.kind == Optimizers <==> k == "optimizers"
    ensures c.kind == LRSchedulers <==> k == "lr_schedulers"
    ensures c.kind == Misc <==> k == "misc"
    ensures c.kind == Base <==> k !in StandardKeys
  {
    if k == "models" then Container(Models, map[])
    else if k == "optimizers" then Container(Optimizers, map[])
    else if k == "lr_schedulers" then Container(LRSchedulers, map[])
    else if k == "misc" then Container(Misc, map[])
    else Container(Base, map[])
  }

  /** One iteration of `merge`'s loop: the argument `v` under key `k` applied to `store`. */
  function MergeOne(store: map<string, Value>, k: string, v: Value, inner: InnerMerge): (r: MergeResult)
    ensures r.outcome.Pass? ==> r.store.Keys == store.Keys + {k}
    ensures r.outcome.Pass? && (k !in store || v.Cont?) ==> r.store[k].Cont?
    ensures r.outcome.Fail? ==> r.store == store && r.outcome.error.key == k
    ensures forall j :: j in store && j != k ==> j in r.store && r.store[j] == store[j]
    ensures v.Other? ==> r.outcome == Fail(TypeError(k))
    ensures v.Cont? && k in store && !store[k].Cont? ==> r.outcome == Fail(AttributeError(k))
    ensures v.Cont? && k in store && store[k].Cont? && store[k].c.kind == Registry ==> r.outcome == Fail(TypeError(k))
  {
    match v
    case Cont(c) =>
      if k in store then
        match store[k]
        case Cont(existing) =>
          if existing.kind == Registry then MergeResult(store, Fail(TypeError(k)))
          else MergeResult(store[k := Cont(existing.(items := inner(existing.items, c.items)))], Pass)
        case _ => MergeResult(store, Fail(AttributeError(k)))
      else MergeResult(store[k := v], Pass)
    case None =>
      if k in store then MergeResult(store, Pass)
      else MergeResult(store[k := Cont(GetContainer(k))], Pass)
    case Other(_) => MergeResult(store, Fail(TypeError(k)))
  }

  /**
   * The whole of `merge`: the arguments applied in order, stopping at the
   * first one that raises, with everything before it left applied.
   */
  function MergeArgs(store: map<string, Value>, args: seq<(string, Value)>, inner: InnerMerge): (r: MergeResult)
    ensures store.Keys <= r.store.Keys
    ensures r.outcome.Fail? ==> |args| > 0
    decreases |args|
  {
    if args == [] then MergeResult(store, Pass)
    else
      var r := MergeOne(store, args[0].0, args[0].1, inner);
      if r.outcome.Fail? then r else MergeArgs(r.store, args[1..], inner)
  }

  /** Appending one argument: merging `args + [a]` is merging `args`, then `a` if nothing failed. */
  lemma {:induction false} MergeArgsSnoc(store: map<string, Value>, args: seq<(string, Value)>, a: (string, Value), inner: InnerMerge)
    decreases |args|
    ensures MergeArgs(store, args + [a], inner) ==
      var r := MergeArgs(store, args, inner);
      if r.outcome.Fail? then r else MergeOne(r.store, a.0, a.1, inner)
  {
    if args == [] {
      assert args + [a] == [a];
    } else {
      var r := MergeOne(store, args[0].0, args[0].1, inner);
      assert (args + [a])[0] == args[0];
      assert (args + [a])[1..] == args[1..] + [a];
      if r.outcome.Pass? {
        MergeArgsSnoc(r.store, args[1..], a, inner);
      }
    }
  }

  /** The value under `k` is a container, on which `merge` and `create` can be called. */
  predicate Ready(store: map<string, Value>, k: string) {
    k in store && store[k].Cont?
  }

  /** What looking up `k` and calling a method on the result raises when `k` is not ready. */
  function Missing(store: map<string, Value>, k: string): (e: Error)
    requires !Ready(store, k)
    ensures e.key == k
    ensures e.KeyError? <==> k !in store
    ensures e.AttributeError? <==> k in store
  {
    if k in store then AttributeError(k) else KeyError(k)
  }

  /** One call `create` makes on a stored sub-container. */
  datatype Event =
    | CreateCall(key: string, target: Container)                       // store[key].create()
    | CreateWithCall(key: string, target: Container, from: Container)  // store[key].create_with(from)

  class MultipleContainers {
    var store: map<string, Value>

    /** `MultipleContainers(**kwargs)`: the store is the keyword arguments, unchecked. */
    constructor (kwargs: map<string, Value>)
      ensures store == kwargs
    {
      store := kwargs;
    }

    /** `merge(**kwargs)`: applies the arguments in order and raises at the first bad one. */
    method Merge(kwargs: seq<(string, Value)>, inner: InnerMerge) returns (outcome: Outcome)
      modifies this
      ensures MergeResult(store, outcome) == MergeArgs(old(store), kwargs, inner)
    {
      var i := 0;
      while i < |kwargs|
        invariant 0 <= i <= |kwargs|
        invariant MergeArgs(old(store), kwargs[..i], inner) == MergeResult(store, Pass)
      {
        var (k, v) := kwargs[i];
        MergeArgsSnoc(old(store), kwargs[..i], kwargs[i], inner);
        assert kwargs[..i + 1] == kwargs[..i] + [kwargs[i]];
        match v {
          case Cont(c) =>
            if k in store {
              match store[k] {
                case Cont(existing) =>
                  if existing.kind == Registry {
                    outcome := Fail(TypeError(k));
                    MergeArgsPrefixFail(old(store), kwargs, i + 1, inner);
                    return;
                  }
                  store := store[k := Cont(existing.(items := inner(existing.items, c.items)))];
                case _ =>
                  outcome := Fail(AttributeError(k));
                  MergeArgsPrefixFail(old(store), kwargs, i + 1, inner);
                  return;
              }
            } else {
              store := store[k := v];
            }
          case None =>
            if k !in store {
              store := store[k := Cont(GetContainer(k))];
            }
          case Other(_) =>
            outcome := Fail(TypeError(k));
            MergeArgsPrefixFail(old(store), kwargs, i + 1, inner);
            return;
        }
        i := i + 1;
      }
      assert kwargs[..i] == kwargs;
      outcome := Pass;
    }

    /**
     * `create()`: builds models, then optimizers from models, then schedulers
     * from optimizers, then misc. `events` are the calls made, in order; a
     * key that is missing or not bound to a container stops it there.
     */
    method Create() returns (events: seq<Event>, outcome: Outcome)
      ensures |events| <= |StandardKeys|
      ensures outcome.Pass? <==> |events| == |StandardKeys|
      ensures forall j :: 0 <= j < |events| ==>
        Ready(store, StandardKeys[j]) && events[j].key == StandardKeys[j] &&
        events[j].target == store[StandardKeys[j]].c
      ensures outcome.Fail? ==>
        !Ready(store, StandardKeys[|events|]) && outcome.error == Missing(store, StandardKeys[|events|])
      ensures |events| > 0 ==> events[0].CreateCall?
      ensures |events| > 1 ==> events[1].CreateWithCall? && events[1].from == events[0].target
      ensures |events| > 2 ==> events[2].CreateWithCall? && events[2].from == events[1].target
      ensures |events| > 3 ==> events[3].CreateCall?
    {
      events := [];
      if !Ready(store, "models") {
        return events, Fail(Missing(store, "models"));
      }
      var models := store["models"].c;
      events := events + [CreateCall("models", models)];
      if !Ready(store, "optimizers") {
        return events, Fail(Missing(store, "optimizers"));
      }
      var optimizers := store["optimizers"].c;
      events := events + [CreateWithCall("optimizers", optimizers, models)];
      if !Ready(store, "lr_schedulers") {
        return events, Fail(Missing(store, "lr_schedulers"));
      }
      var schedulers := store["lr_schedulers"].c;
      events := events + [CreateWithCall("lr_schedulers", schedulers, optimizers)];
      if !Ready(store, "misc") {
        return events, Fail(Missing(store, "misc"));
      }
      events := events + [CreateCall("misc", store["misc"].c)];
      outcome := Pass;
    }
  }

  /** Once a prefix of the arguments fails, the rest are never looked at. */
  lemma {:induction false} MergeArgsPrefixFail(store: map<string, Value>, args: seq<(string, Value)>, n: nat, inner: InnerMerge)
    requires n <= |args|
    requires MergeArgs(store, args[..n], inner).outcome.Fail?
    decreases n
    ensures MergeArgs(store, args, inner) == MergeArgs(store, args[..n], inner)
  {
    if n == 0 {
      assert false;
    } else {
      var r := MergeOne(store, args[0].0, args[0].1, inner);
      assert args[..n][0] == args[0];
      assert args[..n][1..] == args[1..][..n - 1];
      if r.outcome.Pass? {
        MergeArgsPrefixFail(r.store, args[1..], n - 1, inner);
      }
    }
  }
}
