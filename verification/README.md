# Session validator chain (laminas-session `ValidatorChain`)

A Dafny model of the session validator chain: an event manager specialised
for `session.validate`. It couples its listener list to the session metadata
entry `_VALID`, which maps a validator's name (its class name) to the data it
was built with.

- **Construction** reads `_VALID`. If the entry is truthy, the chain rebuilds
  one validator per entry, in registry order. It then attaches each one as
  `[$validator, 'isValid']` on `session.validate`, going through its own
  `attach`.
- **`attach`** looks at the callback. It may be a validator object, or an
  array whose first element is one; the array is probed with `array_shift`
  and then `array_unshift`. If a validator is found, `attach` writes
  `['_VALID' => [name => data]]` to the storage. In every case it hands the
  callback on to the base event manager.
- **`getStorage`** returns the storage the chain was built on.

The state is immutable (`ValidatorChain.Chain`). It has three parts:
- the storage the chain was built on;
- the append-only list of `(event, callback, priority)` listeners;
- the log of `setMetadata` writes the chain issued.

Construction and `attach` are pure functions over this state.

Modules:
- `Results`: `Option` and `Result`.
- `PhpValues`: metadata values, PHP truthiness, and the ordered `name => data` registry.
- `Validators`: the closed set of validator kinds. The factory `Build` stands for `new $name($data)`.
- `Callbacks`: callbacks, `array_shift`/`array_unshift`, and validator detection.
- `ValidatorChain`: the chain itself.
- `MergeStore`: an explicit assumption about how the storage merges an array written with `setMetadata` into the array already stored. The lemmas in this module hold only under that assumption.

Behaviours of the code worth noting:
- A truthy `_VALID` that is not an array (a string, say) is not an error. `foreach` over a scalar visits nothing, so the chain is built empty (PHP only emits a warning).
- `attach` does not read, modify and write back the whole registry. It writes the one-entry array `[name => data]` and leaves any merging to the storage. That merging is what `MergeStore` assumes.
- For an unknown class name, PHP throws while instantiating it, and no chain results. The entries before it have already gone through `attach`, so their writes have reached the storage. The model returns `Failure(UnknownValidator(name, issued))`: `name` is the first entry that cannot be built, and `issued` holds the writes already made.
- An empty array callback `[]` is handed to the base attach as `[null]`: `array_shift` of `[]` yields `null`, and `array_unshift` puts it back.

## Model

| member | source | states |
|---|---|---|
| Validators.Build | src/ValidatorChain.php:38 | `new $name($data)` builds a validator exactly when `name` is a known class, and the validator reports `name` and `data` back through getName/getData |
| Validators.BuildInverse | src/ValidatorChain.php:38 | rebuilding from a validator's own getName/getData gives that same validator back |
| Callbacks.ShiftUnshiftRestores | src/ValidatorChain.php:57-61 | `array_shift` then `array_unshift` of the same element restores every non-empty array; an empty array comes back as `[null]` |
| Callbacks.Detect | src/ValidatorChain.php:53-62 | a validator is found exactly when the callback is a validator or an array whose first element is one, and it is that validator; the callback comes out unchanged except `[]`, which becomes `[null]` |
| ValidatorChain.Attach | src/ValidatorChain.php:51-71 | every attach appends exactly one listener with the same event and priority, keeping earlier listeners and the storage; the callback is passed through unchanged apart from the `[]` quirk; a validator-backed callback adds exactly one write `_VALID => [name => data]` of that validator, and any other callback adds no write |
| ValidatorChain.Reattach | src/ValidatorChain.php:37-39 | the reconstruction loop succeeds exactly when every entry names a known class; it then adds, per entry and in order, one `isValid` listener on `session.validate` at priority 1 wrapping the rebuilt validator and one write re-persisting that entry; otherwise it fails naming the first unknown entry and carrying the writes already issued, which re-persist exactly the entries before it |
| ValidatorChain.Construct | src/ValidatorChain.php:31-41 | a missing or falsy `_VALID` (and a scalar one) gives a chain with no listeners and no writes; a registry of n entries gives n listeners and n writes in registry order, or fails naming the first unknown class and carrying the writes already issued for the entries before it; the chain keeps the given storage |
| ValidatorChain.GetStorageIsConstructorArgument | src/ValidatorChain.php:78-81 | `getStorage()` returns exactly the storage passed to the constructor, after any number of later attach calls |
| ValidatorChain.AttachAllEffect | src/ValidatorChain.php:51-71 | a run of attach calls adds one listener per call in call order with each call's event, priority and passed-through callback; the writes it adds are exactly one `_VALID => [name => data]` per validator-backed call, for that call's validator and in call order, after the earlier writes |
| ValidatorChain.PersistThenReconstruct | src/ValidatorChain.php:35-66 | the value attach persists for a validator, read back by a new chain, yields one `isValid` listener wrapping that same validator, and that chain re-persists the same value |
| MergeStore.ApplyWrite | src/ValidatorChain.php:66 | an assumed `setMetadata(key, value)` sets `key` and leaves every other metadata key unchanged |
| MergeStore.Put | src/ValidatorChain.php:66 | merging `[name => data]` into a registry maps `name` to `data` and leaves the lookup of every other name unchanged |
| MergeStore.PutKeepsDistinct | src/ValidatorChain.php:66 | merging keeps the registry free of duplicate names |
| MergeStore.PersistKeepsOthers | src/ValidatorChain.php:63-66 | under the merge assumption, persisting a validator stores its own data and keeps every other validator's entry and every other metadata key |
| MergeStore.DistinctNamesBothSurvive | src/ValidatorChain.php:51-71 | under the merge assumption, attaching two validator-backed callbacks (bare or `[$v, method]`, at any priorities) whose validators have different names leaves both persisted with their own data, and the chain gains two listeners |
| MergeStore.LastWriteWins | src/ValidatorChain.php:51-71 | under the merge assumption, attaching two validator-backed callbacks (bare or `[$v, method]`, at any priorities) whose validators share a name persists the later one's data, while both stay attached as listeners |
| MergeStore.ReconstructionIsIdempotent | src/ValidatorChain.php:35-39 | under the merge assumption, the writes a completed construction issues for a registry with distinct names leave the storage exactly as it was |
| MergeStore.FailedReconstructionIsIdempotent | src/ValidatorChain.php:35-39 | under the merge assumption, the writes a construction has issued before failing at an unknown name, for a registry with distinct names, leave the storage exactly as it was |

## Left out

- Event manager internals: the base class is not part of this model. Its priority queue, `trigger`, result aggregation and short-circuiting are left out, and so is the listener handle it returns. The base attach is modelled as appending a listener and returning it. Whether the base class accepts `[null]` as a callable is also not modelled.
- GetStorage: `Chain.storage` models the identity of the storage object and its metadata as read at construction. It does not model the storage's current contents, which also include the chain's later writes; under the `MergeStore` assumption those contents are `ApplyWrites(storage.metadata, writes)`.
- Storage: `setMetadata`'s merge behaviour is not part of this model. The chain records each write. `MergeStore` states the merge behaviour as an explicit assumption, and only its lemmas depend on it.
- Validators.Build: concrete validator classes are not part of this model. The model assumes two things about them. First, `getName()` returns the validator's own class name (`__CLASS__`). Second, the constructor keeps the data it is given, and `getData()` returns it. A constructor that replaces empty data with request values (for example, one that reads the client's user agent) is therefore not modelled. `isValid` logic is left out.
- Validators.Build: names are matched exactly against the canonical class names. PHP's `new $name` also accepts case variants and a leading `\`; such a variant would be built and then re-persisted under its canonical name. The model reports it as an unknown class instead.
- PHP dynamic class loading is replaced by a closed set of three validator kinds, named by their class names. Any other name is an unknown class.
- Callbacks: an array element is a validator, another object (`ObjElem`, known only by its class name), a string or `null`; other element types are left out.
- Callback arrays are modelled as lists. Arrays with string keys, and the renumbering `array_shift` does on them, are left out. Closures, function names and `null` are all modelled as `Plain`.
- Metadata values are modelled as null, booleans, integers, strings, and registry arrays. Floats, nested arrays and objects are left out, and so are PHP warnings.
- Concurrency and lost updates on the shared session store are left out, because this code is sequential.
