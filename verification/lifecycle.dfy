/** `IndexDocument`, `IndexManager` and `Generation.IndexBuilder`: keeping each search
    index in step with its document type's schema.

    The store holds, per index name, the hash recorded in the index's `IndexDocument`,
    the live index definition and the `LastUpdated` stamp. `now` stands for
    `DateTime.UtcNow`. Every write is also listed as an effect, in order. */
module Lifecycle {
  import opened Wrappers
  import opened Text
  import Documents
  import IndexDefinitions

  /** `IndexDocument.IndexName()`. */
  const RecordIndexName: string := "index"

  /** The key of the record kept for an index: `index:<indexName>`. */
  function RecordKey(indexName: string): (k: string)
    ensures k == "index:" + indexName
  {
    Documents.GetKey(Documents.Document(RecordIndexName, Some(indexName)))
  }

  /** Distinct indexes keep distinct records. */
  lemma RecordKeysDistinct(a: string, b: string)
    requires RecordKey(a) == RecordKey(b)
    ensures a == b
  {
    assert a == RecordKey(a)[6..];
    assert b == RecordKey(b)[6..];
  }

  datatype Store = Store(
    hashes: map<string, string>,
    indexes: map<string, IndexDefinitions.Definition>,
    stamps: map<string, int>)

  datatype Effect =
    | Drop(name: string)
    | CreateIndex(name: string, definition: IndexDefinitions.Definition)
    | SetHash(name: string, hash: string)
    | Stamp(name: string, time: int)

  /** `IndexHash.GetAsync()`: a missing value reads as null. */
  function StoredHash(s: Store, name: string): Option<string> {
    if name in s.hashes then Some(s.hashes[name]) else None
  }

  /** `RequiresUpdate(newHash)`: `string.Equals` is ordinal and null-safe, and two nulls
      are equal. */
  predicate RequiresUpdate(stored: Option<string>, newHash: Option<string>) {
    !(stored == newHash)
  }

  /** The hash half of a build result; the sentinel carries a null hash. */
  function HashOf(o: IndexDefinitions.Outcome): Option<string> {
    if o.Built? then Some(o.hash) else None
  }

  /** Nothing changes for any index but `name`. */
  predicate OnlyTouches(s: Store, s2: Store, name: string) {
    s2.hashes - {name} == s.hashes - {name}
    && s2.indexes - {name} == s.indexes - {name}
    && s2.stamps - {name} == s.stamps - {name}
  }

  /** `CreateNewIndexAsync`: create the index and record its hash when there is a
      definition and a non-empty hash; stamp the record in every case. */
  function CreateNew(s: Store, name: string, o: IndexDefinitions.Outcome, now: int): (r: (Store, seq<Effect>))
    ensures OnlyTouches(s, r.0, name)
    ensures name in r.0.stamps && r.0.stamps[name] == now
    ensures o.Built? && o.hash != "" ==>
      r.1 == [CreateIndex(name, o.definition), SetHash(name, o.hash), Stamp(name, now)]
      && StoredHash(r.0, name) == Some(o.hash) && name in r.0.indexes && r.0.indexes[name] == o.definition
    ensures !(o.Built? && o.hash != "") ==>
      r.1 == [Stamp(name, now)] && r.0.hashes == s.hashes && r.0.indexes == s.indexes
  {
    var s1 :=
      if o.Built? && o.hash != "" then
        s.(indexes := s.indexes[name := o.definition], hashes := s.hashes[name := o.hash])
      else s;
    var created := if o.Built? && o.hash != "" then [CreateIndex(name, o.definition), SetHash(name, o.hash)] else [];
    (s1.(stamps := s1.stamps[name := now]), created + [Stamp(name, now)])
  }

  /** `UpdateIndexAsync`: drop the index (a failure, such as a missing index, is
      ignored), then create it anew. */
  function Update(s: Store, name: string, o: IndexDefinitions.Outcome, now: int): (r: (Store, seq<Effect>))
    ensures OnlyTouches(s, r.0, name)
    ensures |r.1| > 0 && r.1[0] == Drop(name)
    ensures r.1[1..] == CreateNew(s.(indexes := s.indexes - {name}), name, o, now).1
    ensures r.0 == CreateNew(s.(indexes := s.indexes - {name}), name, o, now).0
  {
    var dropped := s.(indexes := s.indexes - {name});
    var created := CreateNew(dropped, name, o, now);
    (created.0, [Drop(name)] + created.1)
  }

  /** The effects of one `EnsureIndexAsync`: nothing, a drop and a stamp, or a drop, a
      create, a hash and a stamp. */
  predicate EnsureShape(e: seq<Effect>, name: string, o: IndexDefinitions.Outcome, now: int) {
    e == []
    || e == [Drop(name), Stamp(name, now)]
    || (o.Built? && e == [Drop(name), CreateIndex(name, o.definition), SetHash(name, o.hash), Stamp(name, now)])
  }

  /** `EnsureIndexAsync(document)`: build the type's definition (its errors propagate),
      then rebuild the index exactly when the recorded hash differs from the new one. */
  function Ensure(s: Store, t: Documents.DocType, now: int): (r: Result<(Store, seq<Effect>)>)
    ensures r.Ok? <==> IndexDefinitions.Build(t).Ok?
    ensures r.Err? ==> r.error == IndexDefinitions.Build(t).error
  {
    var o :- IndexDefinitions.Build(t);
    if !RequiresUpdate(StoredHash(s, t.indexName), HashOf(o)) then Ok((s, []))
    else Ok(Update(s, t.indexName, o, now))
  }

  /** What ensuring an index does to the store and which effects it issues: only the
      type's index name is touched, nothing happens exactly when the recorded hash
      matches, and a rebuild from a definition records the definition and its hash. */
  lemma EnsureEffects(s: Store, t: Documents.DocType, now: int)
    requires Ensure(s, t, now).Ok?
    ensures var r := Ensure(s, t, now);
      var o := IndexDefinitions.Build(t).value;
      var name := t.indexName;
      OnlyTouches(s, r.value.0, name)
      && EnsureShape(r.value.1, name, o, now)
      && (r.value.1 == [] <==> StoredHash(s, name) == HashOf(o))
      && (r.value.1 == [] ==> r.value.0 == s)
      && (o.Built? && r.value.1 != [] ==>
            StoredHash(r.value.0, name) == Some(o.hash)
            && name in r.value.0.indexes && r.value.0.indexes[name] == o.definition)
      && (o.NoIndex? ==> r.value.0.hashes == s.hashes && (r.value.1 != [] ==> name !in r.value.0.indexes))
  {
  }

  /** After an update from a definition, ensuring the same type again changes nothing. */
  lemma EnsureIdempotent(s: Store, t: Documents.DocType, now: int, later: int)
    requires IndexDefinitions.Build(t).Ok? && IndexDefinitions.Build(t).value.Built?
    ensures var first := Ensure(s, t, now).value;
      Ensure(first.0, t, later) == Ok((first.0, []))
  {
  }

  /** The sentinel never clears a recorded hash, so once a type loses its last indexed
      property every later ensure drops the index again. */
  lemma SentinelKeepsDropping(s: Store, t: Documents.DocType, now: int)
    requires IndexDefinitions.Build(t) == Ok(IndexDefinitions.NoIndex)
    requires t.indexName in s.hashes
    ensures var r := Ensure(s, t, now).value;
      r.1 == [Drop(t.indexName), Stamp(t.indexName, now)]
      && t.indexName in r.0.hashes && t.indexName !in r.0.indexes
  {
  }

  // ------------------------------------------------------------------ initialisation

  /** A run over several types; the store's changes stand even when a later step throws. */
  datatype Run = Run(store: Store, effects: seq<Effect>, failure: Option<Error>)

  /** `GetAllAsyncDocumentTypes`' filter: concrete classes implementing `IAsyncDocument`. */
  predicate Discoverable(t: Documents.DocType) {
    t.isDocument && t.isClass && !t.isAbstract
  }

  /** `GetPropertiesImplementingIIndexable(type).Any()`. */
  predicate HasIndexable(t: Documents.DocType) {
    exists i :: 0 <= i < |t.properties| && t.properties[i].indexable
  }

  /** The types `IndexManager.InitializeIndexes` ensures. */
  predicate Selected(t: Documents.DocType) {
    Discoverable(t) && HasIndexable(t)
  }

  /** Every effect of ensuring a type's index is on that type's index name. */
  lemma EnsureNames(s: Store, t: Documents.DocType, now: int)
    requires Ensure(s, t, now).Ok?
    ensures forall j :: 0 <= j < |Ensure(s, t, now).value.1| ==> Ensure(s, t, now).value.1[j].name == t.indexName
  {
    EnsureEffects(s, t, now);
  }

  /** `IndexManager.InitializeIndexes()`: for each discovered type with an indexable
      property, in order, make an instance and ensure its index; the first exception
      ends the run. */
  function ManagerInit(s: Store, types: seq<Documents.DocType>, now: int): (r: Run)
    ensures (forall i :: 0 <= i < |types| ==> !Selected(types[i])) ==> r == Run(s, [], None)
    ensures forall j :: 0 <= j < |r.effects| ==>
      exists i :: 0 <= i < |types| && Selected(types[i]) && r.effects[j].name == types[i].indexName
    decreases |types|
  {
    if |types| == 0 then Run(s, [], None)
    else
      var t := types[0];
      var rest := types[1..];
      assert forall i :: 0 <= i < |rest| ==> rest[i] == types[i + 1];
      if !Selected(t) then ManagerInit(s, rest, now)
      else if !IndexDefinitions.CanActivate(t) then Run(s, [], Some(MissingConstructor))
      else
        match Ensure(s, t, now)
        case Err(e) => Run(s, [], Some(e))
        case Ok(step) =>
          var more := ManagerInit(step.0, rest, now);
          var effects := step.1 + more.effects;
          EnsureNames(s, t, now);
          assert forall j | 0 <= j < |effects| ::
            exists i :: 0 <= i < |types| && Selected(types[i]) && effects[j].name == types[i].indexName
          by {
            forall j | 0 <= j < |effects|
              ensures exists i :: 0 <= i < |types| && Selected(types[i]) && effects[j].name == types[i].indexName
            {
              if j < |step.1| {
                assert effects[j] == step.1[j];
                assert Selected(types[0]) && effects[j].name == types[0].indexName;
              } else {
                assert effects[j] == more.effects[j - |step.1|];
                var i :| 0 <= i < |rest| && Selected(rest[i]) && more.effects[j - |step.1|].name == rest[i].indexName;
                assert rest[i] == types[i + 1];
              }
            }
          }
          Run(more.store, effects, more.failure)
  }

  /** Once a type fails, the types after it are never reconciled: appending more types
      to a failing run changes nothing. */
  lemma {:induction false} ManagerInitStopsAtFailure(s: Store, a: seq<Documents.DocType>,
                                                      b: seq<Documents.DocType>, now: int)
    requires ManagerInit(s, a, now).failure.Some?
    ensures ManagerInit(s, a + b, now) == ManagerInit(s, a, now)
    decreases |a|
  {
    var t := a[0];
    var ab := a + b;
    assert ab[0] == t && ab[1..] == a[1..] + b;
    if !Selected(t) {
      ManagerInitStopsAtFailure(s, a[1..], b, now);
      assert ManagerInit(s, ab, now) == ManagerInit(s, ab[1..], now);
    } else if IndexDefinitions.CanActivate(t) && Ensure(s, t, now).Ok? {
      var step := Ensure(s, t, now).value;
      ManagerInitStopsAtFailure(step.0, a[1..], b, now);
      var more := ManagerInit(step.0, a[1..], now);
      assert ManagerInit(s, a, now) == Run(more.store, step.1 + more.effects, more.failure);
      assert ManagerInit(s, ab, now) == Run(more.store, step.1 + more.effects, more.failure);
    }
  }

  // -------------------------------------------------------------- Generation.IndexBuilder

  /** The position of the first type with the given full name, if any. */
  function FirstNamed(ts: seq<Documents.DocType>, fullName: string): (r: Option<nat>)
    ensures r.Some? ==> r.value < |ts| && ts[r.value].fullName == fullName
    ensures r.Some? ==> forall j :: 0 <= j < r.value ==> ts[j].fullName != fullName
    ensures r.None? <==> forall j :: 0 <= j < |ts| ==> ts[j].fullName != fullName
    decreases |ts|
  {
    if |ts| == 0 then None
    else if ts[0].fullName == fullName then Some(0)
    else
      var k :- FirstNamed(ts[1..], fullName);
      Some(k + 1)
  }

  /** `GroupBy(type => type.FullName).Select(group => group.First())`, skipping the
      names in `seen`: one type per full name, the first of its group, groups in order
      of first appearance. */
  function DedupFrom(ts: seq<Documents.DocType>, seen: set<string>): (r: seq<Documents.DocType>)
    ensures forall j :: 0 <= j < |r| ==> r[j].fullName !in seen && r[j] in ts
    ensures forall i, j :: 0 <= i < j < |r| ==> r[i].fullName != r[j].fullName
    decreases |ts|
  {
    if |ts| == 0 then []
    else if ts[0].fullName in seen then DedupFrom(ts[1..], seen)
    else [ts[0]] + DedupFrom(ts[1..], seen + {ts[0].fullName})
  }

  function DedupByFullName(ts: seq<Documents.DocType>): (r: seq<Documents.DocType>)
    ensures forall i, j :: 0 <= i < j < |r| ==> r[i].fullName != r[j].fullName
    ensures forall j :: 0 <= j < |r| ==> r[j] in ts
  {
    DedupFrom(ts, {})
  }

  /** Every full name appears once the names already seen are counted. */
  lemma {:induction false} DedupFromCovers(ts: seq<Documents.DocType>, seen: set<string>, i: nat)
    requires i < |ts| && ts[i].fullName !in seen
    ensures FirstNamed(DedupFrom(ts, seen), ts[i].fullName).Some?
    decreases |ts|
  {
    var r := DedupFrom(ts, seen);
    if ts[0].fullName in seen {
      DedupFromCovers(ts[1..], seen, i - 1);
    } else if ts[0].fullName == ts[i].fullName {
      assert r[0] == ts[0];
    } else {
      DedupFromCovers(ts[1..], seen + {ts[0].fullName}, i - 1);
      var rest := DedupFrom(ts[1..], seen + {ts[0].fullName});
      var k := FirstNamed(rest, ts[i].fullName).value;
      assert r[k + 1] == rest[k];
    }
  }

  /** Each type kept is the first of its full name. */
  lemma {:induction false} DedupFromFirst(ts: seq<Documents.DocType>, seen: set<string>, j: nat)
    requires j < |DedupFrom(ts, seen)|
    ensures var name := DedupFrom(ts, seen)[j].fullName;
      FirstNamed(ts, name).Some? && DedupFrom(ts, seen)[j] == ts[FirstNamed(ts, name).value]
    decreases |ts|
  {
    var r := DedupFrom(ts, seen);
    var name := r[j].fullName;
    if ts[0].fullName in seen {
      DedupFromFirst(ts[1..], seen, j);
      assert ts[0].fullName != name;
    } else if j == 0 {
      assert r[0] == ts[0];
    } else {
      var rest := DedupFrom(ts[1..], seen + {ts[0].fullName});
      assert r[j] == rest[j - 1];
      DedupFromFirst(ts[1..], seen + {ts[0].fullName}, j - 1);
      assert ts[0].fullName != name;
    }
  }

  /** Deduplication covers every full name, and each type kept is the first of its name. */
  lemma DedupByFullNameFirst(ts: seq<Documents.DocType>)
    ensures forall i :: 0 <= i < |ts| ==> FirstNamed(DedupByFullName(ts), ts[i].fullName).Some?
    ensures forall j :: 0 <= j < |DedupByFullName(ts)| ==>
      var name := DedupByFullName(ts)[j].fullName;
      FirstNamed(ts, name).Some? && DedupByFullName(ts)[j] == ts[FirstNamed(ts, name).value]
  {
    forall i | 0 <= i < |ts|
      ensures FirstNamed(DedupByFullName(ts), ts[i].fullName).Some?
    {
      DedupFromCovers(ts, {}, i);
    }
    forall j | 0 <= j < |DedupByFullName(ts)|
      ensures var name := DedupByFullName(ts)[j].fullName;
        FirstNamed(ts, name).Some? && DedupByFullName(ts)[j] == ts[FirstNamed(ts, name).value]
    {
      DedupFromFirst(ts, {}, j);
    }
  }

  /** `IndexBuilder.InitializeIndexes()` over the deduplicated types: a type not yet
      recorded is recorded first, then instantiated with `CreateEmpty` and ensured; the
      first exception ends the run, leaving the type recorded. */
  function BuilderFrom(recorded: seq<Documents.DocType>, s: Store, ts: seq<Documents.DocType>, now: int): (r: (seq<Documents.DocType>, Run))
    ensures (forall i :: 0 <= i < |ts| ==> ts[i] in recorded) ==> r == (recorded, Run(s, [], None))
    decreases |ts|
  {
    if |ts| == 0 then (recorded, Run(s, [], None))
    else
      var t := ts[0];
      var rest := ts[1..];
      assert forall i :: 0 <= i < |rest| ==> rest[i] == ts[i + 1];
      if t in recorded then BuilderFrom(recorded, s, rest, now)
      else
        var recorded1 := recorded + [t];
        if Documents.CreateEmpty(Some(t)).Err? then
          (recorded1, Run(s, [], Some(Documents.CreateEmpty(Some(t)).error)))
        else
          match Ensure(s, t, now)
          case Err(e) => (recorded1, Run(s, [], Some(e)))
          case Ok(step) =>
            var more := BuilderFrom(recorded1, step.0, rest, now);
            (more.0, Run(more.1.store, step.1 + more.1.effects, more.1.failure))
  }

  /** A type not yet recorded is ensured, whatever its properties: its effects come first,
      and the run goes on from the store `Ensure` leaves; if `Ensure` throws, the run ends
      with that error. */
  lemma BuilderEnsuresNew(recorded: seq<Documents.DocType>, s: Store, t: Documents.DocType,
                          rest: seq<Documents.DocType>, now: int)
    requires t !in recorded && Documents.CreateEmpty(Some(t)).Ok?
    ensures Ensure(s, t, now).Err? ==>
      BuilderFrom(recorded, s, [t] + rest, now) == (recorded + [t], Run(s, [], Some(Ensure(s, t, now).error)))
    ensures Ensure(s, t, now).Ok? ==>
      var step := Ensure(s, t, now).value;
      var more := BuilderFrom(recorded + [t], step.0, rest, now);
      BuilderFrom(recorded, s, [t] + rest, now) == (more.0, Run(more.1.store, step.1 + more.1.effects, more.1.failure))
  {
    assert ([t] + rest)[0] == t;
    assert ([t] + rest)[1..] == rest;
  }

  /** The recorded list only grows, by types of the run not recorded before. */
  lemma {:induction false} BuilderGrows(recorded: seq<Documents.DocType>, s: Store, ts: seq<Documents.DocType>, now: int)
    ensures var r := BuilderFrom(recorded, s, ts, now);
      |r.0| >= |recorded| && r.0[..|recorded|] == recorded
      && forall i :: |recorded| <= i < |r.0| ==> r.0[i] in ts && r.0[i] !in recorded
    decreases |ts|
  {
    if |ts| > 0 {
      var t := ts[0];
      var rest := ts[1..];
      assert forall i :: 0 <= i < |rest| ==> rest[i] == ts[i + 1];
      if t in recorded {
        BuilderGrows(recorded, s, rest, now);
      } else if Documents.CreateEmpty(Some(t)).Ok? && Ensure(s, t, now).Ok? {
        var recorded1 := recorded + [t];
        var step := Ensure(s, t, now).value;
        BuilderGrows(recorded1, step.0, rest, now);
        var more := BuilderFrom(recorded1, step.0, rest, now);
        assert BuilderFrom(recorded, s, ts, now).0 == more.0;
        assert more.0[..|recorded|] == recorded by {
          assert more.0[..|recorded1|][..|recorded|] == more.0[..|recorded|];
        }
        forall i | |recorded| <= i < |more.0|
          ensures more.0[i] in ts && more.0[i] !in recorded
        {
          if i == |recorded| {
            assert more.0[..|recorded1|][i] == t;
          } else {
            assert more.0[i] in rest && more.0[i] !in recorded1;
          }
        }
      } else {
        var r := BuilderFrom(recorded, s, ts, now);
        assert r.0 == recorded + [t];
        assert r.0[..|recorded|] == recorded;
      }
    }
  }

  /** A run that ends normally has recorded every one of its types. */
  lemma {:induction false} BuilderCovers(recorded: seq<Documents.DocType>, s: Store, ts: seq<Documents.DocType>, now: int)
    requires BuilderFrom(recorded, s, ts, now).1.failure.None?
    ensures forall i :: 0 <= i < |ts| ==> ts[i] in BuilderFrom(recorded, s, ts, now).0
    decreases |ts|
  {
    if |ts| > 0 {
      var t := ts[0];
      var rest := ts[1..];
      assert forall i :: 0 <= i < |rest| ==> rest[i] == ts[i + 1];
      if t in recorded {
        var more := BuilderFrom(recorded, s, rest, now);
        assert BuilderFrom(recorded, s, ts, now) == more;
        BuilderCovers(recorded, s, rest, now);
        BuilderGrows(recorded, s, rest, now);
        var k :| 0 <= k < |recorded| && recorded[k] == t;
        assert more.0[k] == more.0[..|recorded|][k] == t;
        forall i | 0 <= i < |ts|
          ensures ts[i] in more.0
        {
          if i == 0 {
            assert ts[i] == more.0[k];
          } else {
            assert ts[i] == rest[i - 1];
          }
        }
      } else {
        var recorded1 := recorded + [t];
        assert Documents.CreateEmpty(Some(t)).Ok? && Ensure(s, t, now).Ok?;
        var step := Ensure(s, t, now).value;
        var more := BuilderFrom(recorded1, step.0, rest, now);
        assert BuilderFrom(recorded, s, ts, now) == (more.0, Run(more.1.store, step.1 + more.1.effects, more.1.failure));
        BuilderCovers(recorded1, step.0, rest, now);
        BuilderGrows(recorded1, step.0, rest, now);
        assert more.0[|recorded|] == more.0[..|recorded1|][|recorded|] == t;
        forall i | 0 <= i < |ts|
          ensures ts[i] in more.0
        {
          if i == 0 {
            assert ts[i] == more.0[|recorded|];
          } else {
            assert ts[i] == rest[i - 1];
          }
        }
      }
    }
  }

  /** `IndexBuilder.InitializeIndexes()`: every discovered type, deduplicated by full
      name, is taken up whether or not it has indexed properties. */
  function BuilderInit(recorded: seq<Documents.DocType>, s: Store, types: seq<Documents.DocType>, now: int): (seq<Documents.DocType>, Run) {
    BuilderFrom(recorded, s, DedupByFullName(Filter(types)), now)
  }

  /** The discoverable types, in order. */
  function Filter(types: seq<Documents.DocType>): (r: seq<Documents.DocType>)
    ensures forall i :: 0 <= i < |r| ==> Discoverable(r[i]) && r[i] in types
    ensures forall i :: 0 <= i < |types| && Discoverable(types[i]) ==> types[i] in r
    decreases |types|
  {
    if |types| == 0 then []
    else
      assert forall i :: 1 <= i < |types| ==> types[i] == types[1..][i - 1];
      (if Discoverable(types[0]) then [types[0]] else []) + Filter(types[1..])
  }

  /** `HasIndexableProperties(type)`: some property carries `[Indexed]`. */
  predicate HasIndexedProperties(t: Documents.DocType) {
    exists i :: 0 <= i < |t.properties| && t.properties[i].indexed.Some?
  }

  /** A type not yet recorded is recorded before anything can fail, whether or not it has
      indexed or indexable properties: the builder never asks. */
  lemma BuilderRecordsFirst(recorded: seq<Documents.DocType>, s: Store, t: Documents.DocType,
                            rest: seq<Documents.DocType>, now: int)
    requires t !in recorded
    ensures var r := BuilderFrom(recorded, s, [t] + rest, now);
      |r.0| > |recorded| && r.0[..|recorded| + 1] == recorded + [t]
  {
    var ts := [t] + rest;
    assert ts[0] == t && ts[1..] == rest;
    var recorded1 := recorded + [t];
    if Documents.CreateEmpty(Some(t)).Ok? && Ensure(s, t, now).Ok? {
      var step := Ensure(s, t, now).value;
      BuilderGrows(recorded1, step.0, rest, now);
    }
  }

  /** Each type is taken up at most once per process: after a run that ended normally,
      running again with the recorded list does nothing. */
  lemma BuilderAtMostOnce(recorded: seq<Documents.DocType>, s: Store, types: seq<Documents.DocType>,
                          now: int, later: int)
    requires BuilderInit(recorded, s, types, now).1.failure.None?
    ensures var first := BuilderInit(recorded, s, types, now);
      BuilderInit(first.0, first.1.store, types, later) == (first.0, Run(first.1.store, [], None))
  {
    BuilderCovers(recorded, s, DedupByFullName(Filter(types)), now);
  }
}
