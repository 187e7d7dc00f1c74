/**
 The validator chain: an event dispatcher specialised for session validation.
 Its state is the storage it was built on (never replaced), the listeners
 attached so far (append-only) and the log of `setMetadata` calls it issued.
 */
module ValidatorChain {
  import opened Results
  import opened PhpValues
  import opened Validators
  import opened Callbacks

  /** The metadata key under which validators are persisted. */
  const ValidKey: string := "_VALID"
  /** The event validators listen on. */
  const ValidateEvent: string := "session.validate"
  /** The priority `attach` uses when none is given. */
  const DefaultPriority: int := 1
  /** The validator method reconstruction registers. */
  const IsValidMethod: string := "isValid"

  /** A session storage: its metadata, by key. */
  datatype Storage = Storage(metadata: map<string, MetaValue>)

  /** One listener entry of the dispatcher. */
  datatype Listener = Listener(event: string, callback: Callback, priority: int)

  /** One `setMetadata(key, value)` call issued to the storage. */
  datatype Write = Write(key: string, value: MetaValue)

  /**
   The chain's state. `storage` stands for the storage object the chain holds,
   as it was read at construction; the chain never replaces that object, and
   what the storage holds afterwards depends on how it applies `writes`.
   */
  datatype Chain = Chain(storage: Storage, listeners: seq<Listener>, writes: seq<Write>)

  /**
   Construction fails when the registry names a class that cannot be built.
   `issued` are the `setMetadata` calls the chain had already made to the
   storage when instantiating `name` failed; they are not undone.
   */
  datatype ConstructError = UnknownValidator(name: string, issued: seq<Write>)

  /** `getMetadata(key)`: a missing key reads as nothing. */
  function GetMetadata(s: Storage, key: string): Option<MetaValue> {
    if key in s.metadata then Some(s.metadata[key]) else None
  }

  /** The registry write that persists validator `v`: `['_VALID' => [name => data]]`. */
  function PersistWrite(v: Validator): Write {
    Write(ValidKey, Registry([Entry(v.Name(), v.Data())]))
  }

  /** The listener reconstruction registers for a validator: `[$v, 'isValid']` at the default priority. */
  function RebuiltListener(v: Validator): Listener {
    Listener(ValidateEvent, Arr([ValidatorElem(v), StrElem(IsValidMethod)]), DefaultPriority)
  }

  /**
   The base dispatcher's attach: appends one listener and returns it. Its
   priority queue and triggering are not part of this model.
   */
  function BaseAttach(c: Chain, event: string, cb: Callback, priority: int): (r: (Chain, Listener))
    ensures r.1.event == event && r.1.callback == cb && r.1.priority == priority
    ensures |r.0.listeners| == |c.listeners| + 1
    ensures r.0.listeners[..|c.listeners|] == c.listeners && r.0.listeners[|c.listeners|] == r.1
    ensures r.0.storage == c.storage && r.0.writes == c.writes
  {
    var l := Listener(event, cb, priority);
    (c.(listeners := c.listeners + [l]), l)
  }

  /**
   The overridden `attach`: when the callback is a validator, or an array led
   by one, persist that validator's `name => data` under `_VALID`; in every case
   hand the callback on to the base dispatcher.
   */
  function Attach(c: Chain, event: string, cb: Callback, priority: int): (r: (Chain, Listener))
    ensures r.0.storage == c.storage
    ensures r.0.listeners == c.listeners + [r.1]
    ensures r.1.event == event && r.1.priority == priority
    ensures cb != Arr([]) ==> r.1.callback == cb
    ensures cb == Arr([]) ==> r.1.callback == Arr([NullElem])
    ensures IsValidatorBacked(cb) ==>
      var v := BackingValidator(cb);
      r.0.writes == c.writes + [Write(ValidKey, Registry([Entry(v.Name(), v.Data())]))]
    ensures !IsValidatorBacked(cb) ==> r.0.writes == c.writes
  {
    var (context, cb') := Detect(cb);
    var c' := if context.Some? then c.(writes := c.writes + [PersistWrite(context.value)]) else c;
    BaseAttach(c', event, cb', priority)
  }

  /** True when every registry entry names a class the factory can build. */
  predicate AllKnown(entries: seq<Entry>) {
    forall i :: 0 <= i < |entries| ==> KnownName(entries[i].name)
  }

  /**
   `listeners` and `writes` are what re-attaching `entries` in order adds: one
   `isValid` listener per entry on `session.validate` at the default priority,
   wrapping the validator built from that entry, and one write re-persisting
   exactly that entry.
   */
  ghost predicate Rebuilt(entries: seq<Entry>, listeners: seq<Listener>, writes: seq<Write>) {
    && AllKnown(entries)
    && |listeners| == |entries|
    && |writes| == |entries|
    && forall i :: 0 <= i < |entries| ==>
         && Build(entries[i].name, entries[i].data).Some?
         && listeners[i] == RebuiltListener(Build(entries[i].name, entries[i].data).value)
         && writes[i] == Write(ValidKey, Registry([entries[i]]))
  }

  /** The writes that re-persist `entries` one by one, in order. */
  function RepersistWrites(entries: seq<Entry>): (r: seq<Write>)
    ensures |r| == |entries|
    ensures forall j :: 0 <= j < |entries| ==> r[j] == Write(ValidKey, Registry([entries[j]]))
  {
    if |entries| == 0 then [] else [Write(ValidKey, Registry([entries[0]]))] + RepersistWrites(entries[1..])
  }

  /** `i` is the first entry that names no buildable class. */
  ghost predicate FirstUnknown(entries: seq<Entry>, i: int) {
    && 0 <= i < |entries|
    && !KnownName(entries[i].name)
    && AllKnown(entries[..i])
  }

  /**
   The reconstruction loop: for each entry in order, build the validator and
   route it through the overridden `attach` as `[$validator, 'isValid']`.
   */
  function Reattach(c: Chain, entries: seq<Entry>): (r: Result<Chain, ConstructError>)
    ensures r.Success? <==> AllKnown(entries)
    ensures r.Failure? ==> exists i ::
      && FirstUnknown(entries, i)
      && r.error == UnknownValidator(entries[i].name, c.writes + RepersistWrites(entries[..i]))
    ensures r.Success? ==>
      && r.value.storage == c.storage
      && |r.value.listeners| == |c.listeners| + |entries|
      && |r.value.writes| == |c.writes| + |entries|
      && r.value.listeners[..|c.listeners|] == c.listeners
      && r.value.writes[..|c.writes|] == c.writes
      && Rebuilt(entries, r.value.listeners[|c.listeners|..], r.value.writes[|c.writes|..])
    decreases |entries|
  {
    if |entries| == 0 then Success(c)
    else
      match Build(entries[0].name, entries[0].data)
      case None => Failure(UnknownValidator(entries[0].name, c.writes))
      case Some(v) =>
        var (c', _) := Attach(c, ValidateEvent, Arr([ValidatorElem(v), StrElem(IsValidMethod)]), DefaultPriority);
        var r := Reattach(c', entries[1..]);
        ReattachStep(c, c', entries, v, r);
        r
  }

  /** One step of the reconstruction loop extends the guarantees of the remaining steps to the whole registry. */
  lemma ReattachStep(c: Chain, c': Chain, entries: seq<Entry>, v: Validator, r: Result<Chain, ConstructError>)
    requires |entries| > 0 && Build(entries[0].name, entries[0].data) == Some(v)
    requires c' == Attach(c, ValidateEvent, Arr([ValidatorElem(v), StrElem(IsValidMethod)]), DefaultPriority).0
    requires r.Success? <==> AllKnown(entries[1..])
    requires r.Failure? ==> exists i ::
      && FirstUnknown(entries[1..], i)
      && r.error == UnknownValidator(entries[1..][i].name, c'.writes + RepersistWrites(entries[1..][..i]))
    requires r.Success? ==>
      && r.value.storage == c'.storage
      && |r.value.listeners| == |c'.listeners| + |entries[1..]|
      && |r.value.writes| == |c'.writes| + |entries[1..]|
      && r.value.listeners[..|c'.listeners|] == c'.listeners
      && r.value.writes[..|c'.writes|] == c'.writes
      && Rebuilt(entries[1..], r.value.listeners[|c'.listeners|..], r.value.writes[|c'.writes|..])
    ensures r.Success? <==> AllKnown(entries)
    ensures r.Failure? ==> exists i ::
      && FirstUnknown(entries, i)
      && r.error == UnknownValidator(entries[i].name, c.writes + RepersistWrites(entries[..i]))
    ensures r.Success? ==>
      && r.value.storage == c.storage
      && |r.value.listeners| == |c.listeners| + |entries|
      && |r.value.writes| == |c.writes| + |entries|
      && r.value.listeners[..|c.listeners|] == c.listeners
      && r.value.writes[..|c.writes|] == c.writes
      && Rebuilt(entries, r.value.listeners[|c.listeners|..], r.value.writes[|c.writes|..])
  {
    assert KnownName(entries[0].name);
    assert AllKnown(entries) <==> AllKnown(entries[1..]) by {
      if AllKnown(entries[1..]) {
        forall i | 0 <= i < |entries| ensures KnownName(entries[i].name) {
          if i > 0 { assert entries[i] == entries[1..][i - 1]; }
        }
      }
      if AllKnown(entries) {
        forall i | 0 <= i < |entries[1..]| ensures KnownName(entries[1..][i].name) {
          assert entries[1..][i] == entries[i + 1];
        }
      }
    }
    if r.Failure? {
      var i :| FirstUnknown(entries[1..], i)
        && r.error == UnknownValidator(entries[1..][i].name, c'.writes + RepersistWrites(entries[1..][..i]));
      assert c'.writes == c.writes + [Write(ValidKey, Registry([entries[0]]))];
      FailureStep(c.writes, entries, i);
    } else {
      var e := entries[0];
      var l := RebuiltListener(v);
      var w := Write(ValidKey, Registry([e]));
      assert Attach(c, ValidateEvent, Arr([ValidatorElem(v), StrElem(IsValidMethod)]), DefaultPriority).1 == l;
      assert c'.listeners == c.listeners + [l];
      assert c'.writes == c.writes + [w];
      var L := r.value.listeners[|c'.listeners|..];
      var W := r.value.writes[|c'.writes|..];
      assert r.value.listeners == c'.listeners + L;
      assert r.value.writes == c'.writes + W;
      assert r.value.listeners[|c.listeners|..] == [l] + L;
      assert r.value.writes[|c.writes|..] == [w] + W;
      RebuiltCons(entries, v, L, W);
    }
  }

  /**
   An unknown name at position `i` of the remainder is the first unknown name
   of the whole registry, at `i + 1`, once the first entry has been re-persisted.
   */
  lemma FailureStep(prior: seq<Write>, entries: seq<Entry>, i: int)
    requires |entries| > 0 && KnownName(entries[0].name)
    requires FirstUnknown(entries[1..], i)
    ensures FirstUnknown(entries, i + 1)
    ensures entries[i + 1].name == entries[1..][i].name
    ensures prior + [Write(ValidKey, Registry([entries[0]]))] + RepersistWrites(entries[1..][..i])
         == prior + RepersistWrites(entries[..i + 1])
  {
  }

  /** Re-attaching a first entry in front of a rebuilt remainder rebuilds the whole registry. */
  lemma RebuiltCons(entries: seq<Entry>, v: Validator, L: seq<Listener>, W: seq<Write>)
    requires |entries| > 0 && Build(entries[0].name, entries[0].data) == Some(v)
    requires Rebuilt(entries[1..], L, W)
    ensures Rebuilt(entries, [RebuiltListener(v)] + L, [Write(ValidKey, Registry([entries[0]]))] + W)
  {
  }

  /**
   The constructor: keep the storage, read `_VALID` and, when it is truthy,
   re-attach every persisted validator in registry order. A truthy `_VALID`
   that is not an array gives a `foreach` with nothing to visit.
   */
  function Construct(s: Storage): (r: Result<Chain, ConstructError>)
    ensures r.Success? ==> r.value.storage == s
    ensures (GetMetadata(s, ValidKey).None? || !Truthy(GetMetadata(s, ValidKey).value)) ==>
      r == Success(Chain(s, [], []))
    ensures GetMetadata(s, ValidKey).Some? && GetMetadata(s, ValidKey).value.Scalar? ==>
      r == Success(Chain(s, [], []))
    ensures GetMetadata(s, ValidKey).Some? && GetMetadata(s, ValidKey).value.Registry? ==>
      var entries := GetMetadata(s, ValidKey).value.entries;
      && (r.Success? <==> AllKnown(entries))
      && (r.Failure? ==> exists i ::
            && FirstUnknown(entries, i)
            && r.error == UnknownValidator(entries[i].name, RepersistWrites(entries[..i])))
      && (r.Success? ==> Rebuilt(entries, r.value.listeners, r.value.writes))
  {
    var empty := Chain(s, [], []);
    var validators := GetMetadata(s, ValidKey);
    if validators.Some? && Truthy(validators.value) then
      match validators.value
      case Registry(entries) => Reattach(empty, entries)
      case Scalar(_) => Success(empty)
    else Success(empty)
  }

  /**
   `getStorage()`: the storage object the chain was built on. This is the
   object's identity; its contents after the chain's writes depend on how the
   storage applies them.
   */
  function GetStorage(c: Chain): Storage {
    c.storage
  }

  /** A caller's sequence of `attach(event, callback, priority)` calls. */
  datatype Call = Call(event: string, callback: Callback, priority: int)

  /** The chain after the calls `calls`, made one after another. */
  function AttachAll(c: Chain, calls: seq<Call>): Chain
    decreases |calls|
  {
    if |calls| == 0 then c
    else AttachAll(Attach(c, calls[0].event, calls[0].callback, calls[0].priority).0, calls[1..])
  }

  /** The `_VALID` writes a run of calls should issue: one per validator-backed call, in order. */
  function PersistedWrites(calls: seq<Call>): seq<Write> {
    if |calls| == 0 then []
    else
      (if IsValidatorBacked(calls[0].callback) then [PersistWrite(BackingValidator(calls[0].callback))] else [])
      + PersistedWrites(calls[1..])
  }

  /**
   `getStorage()` on a constructed chain returns the storage it was built on,
   however many `attach` calls came after.
   */
  lemma {:induction false} GetStorageIsConstructorArgument(s: Storage, calls: seq<Call>)
    requires Construct(s).Success?
    ensures GetStorage(AttachAll(Construct(s).value, calls)) == s
  {
    AttachAllKeepsStorage(Construct(s).value, calls);
  }

  lemma {:induction false} AttachAllKeepsStorage(c: Chain, calls: seq<Call>)
    ensures AttachAll(c, calls).storage == c.storage
    decreases |calls|
  {
    if |calls| > 0 {
      AttachAllKeepsStorage(Attach(c, calls[0].event, calls[0].callback, calls[0].priority).0, calls[1..]);
    }
  }

  /**
   A run of `attach` calls adds one listener per call, in call order and with
   each call's event and priority, and exactly the `_VALID` writes persisting
   the validator of each validator-backed call, in order; earlier listeners and
   writes are untouched.
   */
  lemma {:induction false} AttachAllEffect(c: Chain, calls: seq<Call>)
    ensures |AttachAll(c, calls).listeners| == |c.listeners| + |calls|
    ensures AttachAll(c, calls).listeners[..|c.listeners|] == c.listeners
    ensures forall i :: 0 <= i < |calls| ==>
      && AttachAll(c, calls).listeners[|c.listeners| + i].event == calls[i].event
      && AttachAll(c, calls).listeners[|c.listeners| + i].priority == calls[i].priority
      && AttachAll(c, calls).listeners[|c.listeners| + i].callback == Inspected(calls[i].callback)
    ensures AttachAll(c, calls).writes == c.writes + PersistedWrites(calls)
    decreases |calls|
  {
    if |calls| > 0 {
      var c' := Attach(c, calls[0].event, calls[0].callback, calls[0].priority).0;
      AttachAllEffect(c', calls[1..]);
      var r := AttachAll(c, calls);
      assert r == AttachAll(c', calls[1..]);
      assert r.listeners[..|c'.listeners|] == c'.listeners;
      assert r.listeners[..|c.listeners|] == c'.listeners[..|c.listeners|];
      assert c'.writes + PersistedWrites(calls[1..]) == c.writes + PersistedWrites(calls);
      forall i | 0 <= i < |calls|
        ensures r.listeners[|c.listeners| + i].event == calls[i].event
        ensures r.listeners[|c.listeners| + i].priority == calls[i].priority
        ensures r.listeners[|c.listeners| + i].callback == Inspected(calls[i].callback)
      {
        if i == 0 {
          assert r.listeners[|c.listeners|] == c'.listeners[|c.listeners|];
        } else {
          assert calls[i] == calls[1..][i - 1];
          assert |c'.listeners| + (i - 1) == |c.listeners| + i;
        }
      }
    }
  }

  /**
   Round trip: the registry value `attach` writes for a validator, read back
   by a new chain, yields one `isValid` listener wrapping that very validator,
   and that chain re-persists the same value.
   */
  lemma PersistThenReconstruct(c: Chain, event: string, v: Validator, priority: int)
    ensures
      var w := Attach(c, event, Val(v), priority).0.writes[|c.writes|];
      var s' := Storage(map[ValidKey := w.value]);
      Construct(s') == Success(Chain(s', [RebuiltListener(v)], [w]))
  {
    var w := Attach(c, event, Val(v), priority).0.writes[|c.writes|];
    assert w == PersistWrite(v);
    BuildInverse(v);
    var s' := Storage(map[ValidKey := w.value]);
    var entries := [Entry(v.Name(), v.Data())];
    assert entries[1..] == [];
    assert Reattach(Chain(s', [], []), entries) == Success(Chain(s', [RebuiltListener(v)], [w]));
  }
}
