# Keyed container registry of pytorch-adapt, in Dafny

pytorch-adapt organises the state of a domain-adaptation run in containers:
one for models, one for optimizers, one for learning-rate schedulers and one
for miscellaneous objects. `MultipleContainers` keeps these in a dictionary
`store` under the names `models`, `optimizers`, `lr_schedulers` and `misc`.
Its `merge(**kwargs)` folds user-supplied containers into the store, filling
in an empty default container (from `get_container`) where the user passes
`None`. Its `create()` then builds the four sub-containers in dependency
order: models, optimizers from the models, schedulers from the optimizers,
then misc.

The model (`multiple_containers.dfy`, module `Containers`):

- A container is a value `Container(kind, items)`. `kind` is one of
  `Models`, `Optimizers`, `LRSchedulers`, `Misc`, `Base` or `Registry`.
  `Registry` is a nested `MultipleContainers`, which is itself a
  `BaseContainer`. Its `merge` takes keyword arguments only, so the
  positional call `self[k].merge(v)` on it raises `TypeError`. `items` maps
  names to opaque item identifiers that stand for torch objects.
- A Python value passed to `merge` or kept in the store is `Value`: a
  container, `None`, or any other object. The constructor stores its keyword
  arguments unchecked, so the store can hold `None` or other objects too.
- `MultipleContainers` is a class with the field `store: map<string, Value>`.
  `Merge` is a loop that updates `store` in place. It is proved equal to the
  specification function `MergeArgs`, which folds `MergeOne` over the
  arguments in order and stops at the first one that raises.
- `BaseContainer.merge`, the merge of one container's contents into
  another's, is not part of this model. Every operation that needs it takes
  it as a parameter `inner`, so each property holds whatever contents it
  returns. It is taken to return normally and it does not see the kinds.
  The stored container keeps its kind, because the source mutates it in
  place.
- Exceptions are `Outcome` values. `TypeError` is for an argument that is
  neither a container nor `None`, and for the positional `merge` call on a
  nested registry. `AttributeError` is for calling `merge`
  or `create` on a stored value that is not a container. `KeyError` is for
  `create` looking up a missing key. Each error carries a key. The key is
  the model's record of which argument or lookup was being processed.
  The source's messages do not name it: the `TypeError` message names the
  class, and the `AttributeError` from `None.merge` names no key.
- `Create` returns the calls it makes as a trace of `Event`s, in order,
  with the outcome. It reads the store and does not change it. What
  `create`/`create_with` build inside a container is not modelled.

`merge_properties.dfy` (module `MergeProperties`) states what a merge does to
the store and proves it against `MergeArgs`. It also contains `DefaultSetup`,
a client of the class. It builds an empty registry, merges `None` for the
four standard keys, and creates.

One behaviour that follows from the source: a key bound to `None` by the
constructor stays `None` after merging `None` under it. Merging a container
under such a key raises `AttributeError`, because `None` has no `merge`.
`MergePassesIffWellTyped` gives the condition for a merge to raise
nothing. It is necessary for every merge. It is sufficient when the keyword
names are distinct, as Python always passes them.

## Model

| member | source | states |
|---|---|---|
| `Containers.GetContainer` | src/pytorch_adapt/containers/multiple_containers.py:9-19 | the result is empty; its kind is `Models`, `Optimizers`, `LRSchedulers` or `Misc` exactly when the key is `models`, `optimizers`, `lr_schedulers` or `misc`, and `Base` exactly for every other key |
| `Containers.MultipleContainers.constructor` | src/pytorch_adapt/containers/multiple_containers.py:23-24 | after construction the store is exactly the keyword-argument map |
| `Containers.MergeOne` | src/pytorch_adapt/containers/multiple_containers.py:27-39 | one argument: on success the keys grow by exactly that key, which is then a container if it was absent or a container was passed; on an exception the store is unchanged and the error records the key; every other entry is unchanged; a value that is neither a container nor `None` raises `TypeError`, a container merged onto a stored non-container raises `AttributeError`, and a container merged onto a nested registry raises `TypeError` |
| `Containers.MergeArgs` | src/pytorch_adapt/containers/multiple_containers.py:26-39 | the whole `merge` loop as a function; its own contract says only that no key is removed and that an exception needs at least one argument; what it does is stated by the `MergeProperties` lemmas |
| `Containers.MergeArgsSnoc` | src/pytorch_adapt/containers/multiple_containers.py:26-39 | the arguments are applied in order: merging `args + [a]` is merging `args` and then, if nothing raised, `a` |
| `Containers.MergeArgsPrefixFail` | src/pytorch_adapt/containers/multiple_containers.py:36-39 | once a prefix of the arguments raises, the remaining arguments change nothing and the same exception is raised |
| `Containers.MultipleContainers.Merge` | src/pytorch_adapt/containers/multiple_containers.py:26-39 | the in-place loop leaves the store and the outcome that `MergeArgs` gives for the old store and the arguments |
| `Containers.Missing` | src/pytorch_adapt/containers/multiple_containers.py:42-45 | looking up a key that is not bound to a container raises `KeyError` exactly when the key is missing, and `AttributeError` exactly when it is bound to something else |
| `Containers.MultipleContainers.Create` | src/pytorch_adapt/containers/multiple_containers.py:41-45 | calls go to `models`, `optimizers`, `lr_schedulers`, `misc` in that order, each on the stored container; the second and third are `create_with` the container of the call before; it succeeds exactly when all four calls are made; otherwise it stops at the first key that is missing (`KeyError`) or not a container (`AttributeError`) |
| `MergeProperties.MergeFrame` | src/pytorch_adapt/containers/multiple_containers.py:26-35 | no key is removed; new keys are argument keys; entries under keys not named in the arguments are unchanged; new entries are containers and container entries stay containers |
| `MergeProperties.MergeKeys` | src/pytorch_adapt/containers/multiple_containers.py:26-35 | after a merge that raised nothing, the key set is the old keys together with the argument keys |
| `MergeProperties.MergeEntry` | src/pytorch_adapt/containers/multiple_containers.py:28-35 | for distinct keys and a merge that raised nothing: `None` under a present key leaves the entry unchanged, under an absent key binds `GetContainer(k)`; a container under an absent key is bound as it is, under a present key the existing entry is a container that is not a nested registry, keeps its kind, and its contents become the inner merge of old and new |
| `MergeProperties.MergeStopsAtError` | src/pytorch_adapt/containers/multiple_containers.py:27-39 | if the arguments before position `i` apply without raising and argument `i` raises, the merge raises that exception with the earlier arguments applied and the later ones not |
| `MergeProperties.MergeErrorHasCause` | src/pytorch_adapt/containers/multiple_containers.py:27-39 | every merge that raises does so at some position `i` as described by `MergeStopsAtError` |
| `MergeProperties.MergeTypeError` | src/pytorch_adapt/containers/multiple_containers.py:28-39 | an argument that is neither a container nor `None` makes the merge raise; if the arguments before it have distinct names and are well typed, it raises `TypeError` there; with no such argument and no nested registry in the store or the arguments, the merge raises nothing or an `AttributeError` |
| `MergeProperties.MergePassesIffWellTyped` | src/pytorch_adapt/containers/multiple_containers.py:27-39 | a merge that raises nothing had well-typed arguments (each a container or `None`, and each container argument whose key is stored finds there a container that is not a nested registry); with distinct keyword names, well-typed arguments raise nothing |
| `MergeProperties.MergeNones` | src/pytorch_adapt/containers/multiple_containers.py:33-35 | a merge of only `None`s raises nothing, keeps every stored entry, and binds each absent argument key to `GetContainer` of that key |
| `MergeProperties.MergeNonesIdempotent` | src/pytorch_adapt/containers/multiple_containers.py:33-35 | merging the same all-`None` arguments a second time leaves the store and the outcome as the first merge did |
| `MergeProperties.MergeMakesReady` | src/pytorch_adapt/containers/multiple_containers.py:26-35 | after a merge that raised nothing, every argument key is bound to a container, unless it was already bound to a non-container and only `None` was passed for it |
| `MergeProperties.DefaultsReady` | src/pytorch_adapt/containers/multiple_containers.py:33-35 | `None` merged for each of the four standard keys into an empty store leaves under each key an empty container of the matching kind, ready for `create` |
| `MergeProperties.DefaultSetup` | src/pytorch_adapt/containers/multiple_containers.py:9-45 | an empty registry merged with `None` for the four standard keys creates successfully, with four calls on empty containers of the standard kinds; models and misc get plain `create` calls, optimizers are built from the models and schedulers from the optimizers |

## Left out

- The internals of `BaseContainer.merge`: the base container class is not part of this model, so the merge of contents is the parameter `inner`.
- What `create` and `create_with` build (torch modules, optimizers, schedulers): these are framework calls; the model records each call as an event and leaves the containers' contents unchanged.
- `BaseContainer`'s `__getitem__`, `__setitem__` and `__contains__`: not part of this model; they are taken to read and write `store`.
- Aliasing: the source stores the caller's container object itself and later mutates it in place; the model works on values, so a caller that keeps a reference does not see later merges. `MergeFrame` and `MergeEntry` assume distinct objects under distinct keys: when one object is stored under two keys (`MultipleContainers(models=m, misc=m).merge(models=d)`), the source changes both entries; when an argument is a stored object (`merge(a=mc["models"], models=d)`), the source binds `a` to the object the later merge changes.
- Duck typing: an object that is not a container but has its own `merge` or `create` method is treated like any other non-container and raises `AttributeError`.
- Subclasses of `BaseContainer` other than the four standard ones and `MultipleContainers` are all of kind `Base`, whose merge is `inner`.
- A nested registry's own contents: `Registry` containers hold items like any other, not a store of their own; `Create` records a call on one as a single event and does not model the nested `create`.
- MergeProperties.MergePassesIffWellTyped, MergeProperties.MergeTypeError, Containers.MultipleContainers.Create: `BaseContainer.merge`, `create` and `create_with` are not part of this model and are assumed to return normally, so "raises nothing" and "succeeds exactly when all four calls are made" hold only up to exceptions those calls raise themselves; the inner merge also cannot depend on the containers' kinds.
- Containers.MergeArgs: its own contract states only that no key is removed and that an exception needs an argument; the lemmas of `MergeProperties` state the rest.
- Exception messages: only the exception class and the key being processed are modelled.
- The adapters (`Classifier`, `Finetuner`, `SymNets`), the validators and the training set-up are not part of this model: they configure hooks and run neural-network and floating-point computations outside the registry.
