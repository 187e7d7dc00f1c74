/**
 An explicit assumption about the session storage, which the chain only ever
 calls through `setMetadata(key, value)`: when both the stored value and the
 new value are arrays they are merged key by key (an existing key keeps its
 place and takes the new data, a new key is appended); otherwise the new value
 replaces the old. Under this assumption the chain's writes keep every
 other validator's entry, and a later write for the same name wins.
 */
module MergeStore {
  import opened Results
  import opened PhpValues
  import opened Validators
  import opened Callbacks
  import opened ValidatorChain

  /** The data stored under `name` in a registry, if any. */
  function Find(entries: seq<Entry>, name: string): Option<Value> {
    if |entries| == 0 then None
    else if entries[0].name == name then Some(entries[0].data)
    else Find(entries[1..], name)
  }

  /** Merges one entry into a registry: replace in place, or append. */
  function Put(entries: seq<Entry>, e: Entry): (r: seq<Entry>)
    ensures Find(r, e.name) == Some(e.data)
    ensures forall n :: n != e.name ==> Find(r, n) == Find(entries, n)
    ensures forall x :: x in r ==> x == e || x in entries
    decreases |entries|
  {
    if |entries| == 0 then [e]
    else if entries[0].name == e.name then [e] + entries[1..]
    else [entries[0]] + Put(entries[1..], e)
  }

  /** Merging keeps a registry free of duplicate names. */
  lemma {:induction false} PutKeepsDistinct(entries: seq<Entry>, e: Entry)
    requires DistinctNames(entries)
    ensures DistinctNames(Put(entries, e))
    decreases |entries|
  {
    if |entries| > 0 && entries[0].name != e.name {
      var rest := Put(entries[1..], e);
      PutKeepsDistinct(entries[1..], e);
      forall x | x in rest ensures x.name != entries[0].name {
        if x != e {
          var j :| 0 <= j < |entries[1..]| && entries[1..][j] == x;
          assert entries[j + 1] == x;
        }
      }
      var r := [entries[0]] + rest;
      forall i, j | 0 <= i < j < |r| ensures r[i].name != r[j].name {
        if i == 0 {
          assert r[j] == rest[j - 1];
          assert r[j] in rest;
        } else {
          assert r[i] == rest[i - 1] && r[j] == rest[j - 1];
        }
      }
    }
  }

  /** Merges every entry of `update` into `entries`, in order. */
  function Merge(entries: seq<Entry>, update: seq<Entry>): seq<Entry>
    decreases |update|
  {
    if |update| == 0 then entries else Merge(Put(entries, update[0]), update[1..])
  }

  /** The storage's assumed `setMetadata(key, value)`. */
  function ApplyWrite(meta: map<string, MetaValue>, w: Write): (r: map<string, MetaValue>)
    ensures r.Keys == meta.Keys + {w.key}
    ensures forall k :: k in meta && k != w.key ==> r[k] == meta[k]
  {
    if w.key in meta && meta[w.key].Registry? && w.value.Registry? then
      meta[w.key := Registry(Merge(meta[w.key].entries, w.value.entries))]
    else
      meta[w.key := w.value]
  }

  /** The storage after a log of writes, applied in order. */
  function ApplyWrites(meta: map<string, MetaValue>, ws: seq<Write>): map<string, MetaValue>
    decreases |ws|
  {
    if |ws| == 0 then meta else ApplyWrites(ApplyWrite(meta, ws[0]), ws[1..])
  }

  /** The validator registry held by the storage; a missing or scalar `_VALID` holds none. */
  function StoredRegistry(meta: map<string, MetaValue>): seq<Entry> {
    if ValidKey in meta && meta[ValidKey].Registry? then meta[ValidKey].entries else []
  }

  /**
   Persisting a validator sets its own entry and keeps every other validator's
   entry and every other metadata key.
   */
  lemma PersistKeepsOthers(meta: map<string, MetaValue>, v: Validator)
    ensures Find(StoredRegistry(ApplyWrite(meta, PersistWrite(v))), v.Name()) == Some(v.Data())
    ensures forall n :: n != v.Name() ==>
      Find(StoredRegistry(ApplyWrite(meta, PersistWrite(v))), n) == Find(StoredRegistry(meta), n)
    ensures forall k :: k in meta && k != ValidKey ==> ApplyWrite(meta, PersistWrite(v))[k] == meta[k]
  {
    var e := Entry(v.Name(), v.Data());
    assert Merge(StoredRegistry(meta), [e]) == Put(StoredRegistry(meta), e);
    assert Find([e], v.Name()) == Some(v.Data());
    forall n | n != v.Name()
      ensures Find(StoredRegistry(ApplyWrite(meta, PersistWrite(v))), n) == Find(StoredRegistry(meta), n)
    {
      if !(ValidKey in meta && meta[ValidKey].Registry?) {
        assert Find([e], n) == Find([e][1..], n);
      }
    }
  }

  /** Applying two writes one after the other. */
  lemma ApplyTwo(meta: map<string, MetaValue>, w1: Write, w2: Write)
    ensures ApplyWrites(meta, [w1, w2]) == ApplyWrite(ApplyWrite(meta, w1), w2)
  {
    var m1 := ApplyWrite(meta, w1);
    assert [w1, w2][1..] == [w2];
    assert ApplyWrites(meta, [w1, w2]) == ApplyWrites(m1, [w2]);
    assert [w2][1..] == [];
    assert ApplyWrites(m1, [w2]) == ApplyWrites(ApplyWrite(m1, w2), []);
  }

  /**
   Attaching two validator-backed callbacks (a validator, or an array led by
   one) whose validators have different names leaves both persisted with
   their own data; the chain gains two listeners.
   */
  lemma DistinctNamesBothSurvive(c: Chain, meta: map<string, MetaValue>,
                                 e1: string, cb1: Callback, p1: int,
                                 e2: string, cb2: Callback, p2: int)
    requires IsValidatorBacked(cb1) && IsValidatorBacked(cb2)
    requires BackingValidator(cb1).Name() != BackingValidator(cb2).Name()
    ensures
      var v1 := BackingValidator(cb1);
      var v2 := BackingValidator(cb2);
      var c1 := Attach(c, e1, cb1, p1).0;
      var c2 := Attach(c1, e2, cb2, p2).0;
      var stored := StoredRegistry(ApplyWrites(meta, c2.writes[|c.writes|..]));
      && |c2.listeners| == |c.listeners| + 2
      && Find(stored, v1.Name()) == Some(v1.Data())
      && Find(stored, v2.Name()) == Some(v2.Data())
  {
    var v1 := BackingValidator(cb1);
    var v2 := BackingValidator(cb2);
    var c1 := Attach(c, e1, cb1, p1).0;
    var c2 := Attach(c1, e2, cb2, p2).0;
    assert c2.writes[|c.writes|..] == [PersistWrite(v1), PersistWrite(v2)];
    ApplyTwo(meta, PersistWrite(v1), PersistWrite(v2));
    PersistKeepsOthers(meta, v1);
    PersistKeepsOthers(ApplyWrite(meta, PersistWrite(v1)), v2);
  }

  /**
   Attaching two validator-backed callbacks whose validators share a name
   persists only the later one's data, while both remain attached as listeners.
   */
  lemma LastWriteWins(c: Chain, meta: map<string, MetaValue>,
                      e1: string, cb1: Callback, p1: int,
                      e2: string, cb2: Callback, p2: int)
    requires IsValidatorBacked(cb1) && IsValidatorBacked(cb2)
    requires BackingValidator(cb1).Name() == BackingValidator(cb2).Name()
    ensures
      var v2 := BackingValidator(cb2);
      var c1 := Attach(c, e1, cb1, p1).0;
      var c2 := Attach(c1, e2, cb2, p2).0;
      var stored := StoredRegistry(ApplyWrites(meta, c2.writes[|c.writes|..]));
      && c2.listeners == c.listeners + [Listener(e1, cb1, p1), Listener(e2, cb2, p2)]
      && Find(stored, v2.Name()) == Some(v2.Data())
  {
    var v1 := BackingValidator(cb1);
    var v2 := BackingValidator(cb2);
    var c1 := Attach(c, e1, cb1, p1).0;
    var c2 := Attach(c1, e2, cb2, p2).0;
    assert c2.writes[|c.writes|..] == [PersistWrite(v1), PersistWrite(v2)];
    ApplyTwo(meta, PersistWrite(v1), PersistWrite(v2));
    PersistKeepsOthers(ApplyWrite(meta, PersistWrite(v1)), v2);
  }

  /** Merging back an entry already in a registry with distinct names changes nothing. */
  lemma {:induction false} PutPresent(entries: seq<Entry>, e: Entry)
    requires DistinctNames(entries) && e in entries
    ensures Put(entries, e) == entries
    decreases |entries|
  {
    if entries[0].name == e.name {
      var k :| 0 <= k < |entries| && entries[k] == e;
      assert k == 0;
      assert [e] + entries[1..] == entries;
    } else {
      var k :| 0 <= k < |entries| && entries[k] == e;
      assert entries[1..][k - 1] == e;
      PutPresent(entries[1..], e);
      assert [entries[0]] + entries[1..] == entries;
    }
  }

  /** Writes that each re-persist one entry of the stored registry leave the storage as it was. */
  lemma {:induction false} RepersistLeavesStore(meta: map<string, MetaValue>, ws: seq<Write>)
    requires ValidKey in meta && meta[ValidKey].Registry? && DistinctNames(meta[ValidKey].entries)
    requires forall j :: 0 <= j < |ws| ==>
      && ws[j].key == ValidKey && ws[j].value.Registry? && |ws[j].value.entries| == 1
      && ws[j].value.entries[0] in meta[ValidKey].entries
    ensures ApplyWrites(meta, ws) == meta
    decreases |ws|
  {
    if |ws| > 0 {
      var entries := meta[ValidKey].entries;
      var e := ws[0].value.entries[0];
      assert ws[0].value.entries == [e];
      assert Merge(entries, [e]) == Put(entries, e) by {
        assert [e][1..] == [];
      }
      PutPresent(entries, e);
      assert ApplyWrite(meta, ws[0]) == meta;
      RepersistLeavesStore(meta, ws[1..]);
    }
  }

  /**
   Constructing a chain re-persists every stored validator; with a registry
   of distinct names those writes leave the storage exactly as it was.
   */
  lemma ReconstructionIsIdempotent(s: Storage)
    requires ValidKey in s.metadata && s.metadata[ValidKey].Registry?
    requires DistinctNames(s.metadata[ValidKey].entries)
    requires Construct(s).Success?
    ensures ApplyWrites(s.metadata, Construct(s).value.writes) == s.metadata
  {
    var entries := s.metadata[ValidKey].entries;
    var ws := Construct(s).value.writes;
    if |entries| > 0 {
      assert Rebuilt(entries, Construct(s).value.listeners, ws);
      forall j | 0 <= j < |ws|
        ensures ws[j].key == ValidKey && ws[j].value.Registry? && |ws[j].value.entries| == 1
        ensures ws[j].value.entries[0] in entries
      {
        assert ws[j] == Write(ValidKey, Registry([entries[j]]));
      }
    }
    RepersistLeavesStore(s.metadata, ws);
  }

  /**
   A construction that fails at an unknown name has already re-persisted the
   entries before it; with a registry of distinct names those writes leave the
   storage exactly as it was.
   */
  lemma FailedReconstructionIsIdempotent(s: Storage)
    requires ValidKey in s.metadata && s.metadata[ValidKey].Registry?
    requires DistinctNames(s.metadata[ValidKey].entries)
    ensures Construct(s).Failure? ==> ApplyWrites(s.metadata, Construct(s).error.issued) == s.metadata
  {
    if Construct(s).Success? {
      return;
    }
    var entries := s.metadata[ValidKey].entries;
    var ws := Construct(s).error.issued;
    var i :| FirstUnknown(entries, i)
      && Construct(s).error == UnknownValidator(entries[i].name, RepersistWrites(entries[..i]));
    forall j | 0 <= j < |ws|
      ensures ws[j].key == ValidKey && ws[j].value.Registry? && |ws[j].value.entries| == 1
      ensures ws[j].value.entries[0] in entries
    {
      assert ws[j] == Write(ValidKey, Registry([entries[..i][j]]));
      assert entries[..i][j] == entries[j];
    }
    RepersistLeavesStore(s.metadata, ws);
  }
}
