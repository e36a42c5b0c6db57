/** `DocumentAnalyzer`: the `[Indexed]` members of a document, with `Auto` resolved, and
    a process-wide cache keyed by index name. */
module Analysis {
  import opened Kinds
  import IndexTypeHelper
  import Documents
  import Visitor

  datatype IndexEntry = IndexEntry(memberName: string, indexType: IndexType)

  datatype AnalysisResult = AnalysisResult(indexName: string, entries: seq<IndexEntry>)

  /** `_cachedDocumentResults`. */
  type Cache = map<string, AnalysisResult>

  /** The kind of an `[Indexed]` property: `Auto` resolves from the first generic argument,
      or from the property type itself when that is not generic; an explicit kind stays. */
  function Resolve(declared: IndexType, propertyType: ClrType): (k: IndexType)
    ensures k != Auto
    ensures declared != Auto ==> k == declared
    ensures propertyType.IsGenericType() ==> k == Visitor.ResolvedKind(declared, propertyType)
    ensures declared == Auto && !propertyType.IsGenericType() ==> k == IndexTypeHelper.GetIndexType(propertyType)
  {
    if declared != Auto then declared
    else
      IndexTypeHelper.GetIndexType(if propertyType.IsGenericType() then propertyType.genericArgs[0] else propertyType)
  }

  function Entry(p: Documents.Property): IndexEntry
    requires p.indexed.Some?
  {
    IndexEntry(p.name, Resolve(p.indexed.value, p.propertyType))
  }

  /** The analyzer asks for public instance properties only, so a static property is
      never analysed. */
  predicate Analyzed(p: Documents.Property) {
    !p.isStatic && p.indexed.Some?
  }

  /** `Traverse(document, ...)`: one entry per public instance property carrying
      `[Indexed]`, in property order; property values are not visited. */
  function Traverse(ps: seq<Documents.Property>): (r: seq<IndexEntry>)
    ensures |r| <= |ps|
    ensures forall i :: 0 <= i < |r| ==> r[i].indexType != Auto
    decreases |ps|
  {
    if |ps| == 0 then []
    else (if Analyzed(ps[0]) then [Entry(ps[0])] else []) + Traverse(ps[1..])
  }

  /** Traversal keeps property order: the entries of a split list are the entries of
      its parts, in order. */
  lemma {:induction false} TraverseConcat(a: seq<Documents.Property>, b: seq<Documents.Property>)
    ensures Traverse(a + b) == Traverse(a) + Traverse(b)
    decreases |a|
  {
    if |a| == 0 {
      assert a + b == b;
    } else {
      assert (a + b)[0] == a[0];
      assert (a + b)[1..] == a[1..] + b;
      TraverseConcat(a[1..], b);
    }
  }

  /** The entries are exactly the entries of the `[Indexed]` instance properties. */
  lemma {:induction false} TraverseMembers(ps: seq<Documents.Property>)
    ensures forall i :: 0 <= i < |ps| && Analyzed(ps[i]) ==> Entry(ps[i]) in Traverse(ps)
    ensures forall e :: e in Traverse(ps) ==>
      exists i :: 0 <= i < |ps| && Analyzed(ps[i]) && Entry(ps[i]) == e
    decreases |ps|
  {
    if |ps| > 0 {
      TraverseMembers(ps[1..]);
      forall i | 0 < i < |ps| && Analyzed(ps[i])
        ensures Entry(ps[i]) in Traverse(ps)
      {
        assert ps[1..][i - 1] == ps[i];
      }
      forall e | e in Traverse(ps)
        ensures exists i :: 0 <= i < |ps| && Analyzed(ps[i]) && Entry(ps[i]) == e
      {
        if e !in Traverse(ps[1..]) {
          assert Analyzed(ps[0]) && Entry(ps[0]) == e;
        } else {
          var j :| 0 <= j < |ps[1..]| && Analyzed(ps[1..][j]) && Entry(ps[1..][j]) == e;
          assert ps[j + 1] == ps[1..][j];
        }
      }
    }
  }

  /** Every cached analysis is filed under its own index name. */
  predicate Consistent(cache: Cache) {
    forall k :: k in cache ==> cache[k].indexName == k
  }

  /** `Analyze(document)`: a cached analysis for the document's index name is returned as
      it is; otherwise the document is traversed and the result cached under that name. */
  function Analyze(cache: Cache, t: Documents.DocType): (r: (AnalysisResult, Cache))
    ensures t.indexName in cache ==> r == (cache[t.indexName], cache)
    ensures t.indexName !in cache ==>
      r.0 == AnalysisResult(t.indexName, Traverse(t.properties)) && r.1 == cache[t.indexName := r.0]
    ensures Consistent(cache) ==> Consistent(r.1) && r.0.indexName == t.indexName
    ensures r.1.Keys == cache.Keys + {t.indexName}
    ensures forall k :: k in cache ==> r.1[k] == cache[k]
  {
    if t.indexName in cache then (cache[t.indexName], cache)
    else
      var analysis := AnalysisResult(t.indexName, Traverse(t.properties));
      (analysis, cache[t.indexName := analysis])
  }

  /** A second analysis of the same document returns the first result and leaves the
      cache as it was. */
  lemma AnalyzeIdempotent(cache: Cache, t: Documents.DocType)
    ensures var first := Analyze(cache, t);
      Analyze(first.1, t) == first
  {
  }

  /** The cache is keyed by index name only: a second type sharing the name gets the
      first type's analysis, whatever its own properties. */
  lemma AnalyzeSharesByName(cache: Cache, t: Documents.DocType, u: Documents.DocType)
    requires t.indexName == u.indexName && t.indexName !in cache
    ensures Analyze(Analyze(cache, t).1, u).0 == AnalysisResult(t.indexName, Traverse(t.properties))
  {
  }
}

/** `IndexDefinitionBuilder.Build(Type)`: the RediSearch schema of a document type and the
    fingerprint that decides whether its index must be rebuilt. */
module IndexDefinitions {
  import opened Wrappers
  import opened Text
  import opened Kinds
  import Documents

  /** The generic type definition `IndexedProperty<>`. */
  const IndexedPropertyDefinition: string := "AsyncRedisDocuments.IndexedProperty`1"

  /** The types `IsSubclassOfRawGeneric` looks at: the type and its base types, ending
      before `object` or where there is no base type. */
  function Chain(t: ClrType): (r: seq<ClrType>)
    decreases t
  {
    if t.fullName == ObjectTypeName then []
    else [t] + match t.baseType
               case None => []
               case Some(b) => Chain(b)
  }

  /** A generic type as its generic definition, any other type as itself. */
  function RawName(t: ClrType): string {
    if t.IsGenericType() then t.genericDefinition else t.fullName
  }

  /** `IsSubclassOfRawGeneric(generic, type)`: some type of the chain is `generic`. */
  function IsSubclassOfRawGeneric(generic: string, t: ClrType): (r: bool)
    ensures r <==> exists i :: 0 <= i < |Chain(t)| && RawName(Chain(t)[i]) == generic
    decreases t
  {
    if t.fullName == ObjectTypeName then false
    else if RawName(t) == generic then
      assert |Chain(t)| > 0 && Chain(t)[0] == t;
      assert RawName(Chain(t)[0]) == generic;
      true
    else
      match t.baseType
      case None =>
        assert Chain(t) == [t];
        false
      case Some(b) =>
        var c := Chain(t);
        assert c == [t] + Chain(b);
        assert forall i :: 0 < i < |c| ==> c[i] == Chain(b)[i - 1];
        assert forall i :: 0 <= i < |Chain(b)| ==> Chain(b)[i] == c[i + 1];
        IsSubclassOfRawGeneric(generic, b)
  }

  /** `PropertyData`: the component's kind and its runtime class name. */
  datatype PropertyData = PropertyData(indexType: IndexType, classType: string)

  datatype Pair = Pair(name: string, data: PropertyData)

  predicate DistinctNames(ps: seq<Pair>) {
    forall i, j :: 0 <= i < j < |ps| ==> ps[i].name != ps[j].name
  }

  /** The position of the pair with the given name, if any. */
  function Find(ps: seq<Pair>, name: string): (r: Option<nat>)
    ensures r.Some? ==> r.value < |ps| && ps[r.value].name == name
    ensures r.Some? ==> forall j :: 0 <= j < r.value ==> ps[j].name != name
    ensures r.None? <==> forall i :: 0 <= i < |ps| ==> ps[i].name != name
    decreases |ps|
  {
    if |ps| == 0 then None
    else if ps[0].name == name then Some(0)
    else
      var k :- Find(ps[1..], name);
      Some(k + 1)
  }

  /** `pairs[name] = data` on a dictionary that never loses a key: an existing key keeps
      its place and takes the new data, a new key goes last. */
  function Put(ps: seq<Pair>, name: string, data: PropertyData): (r: seq<Pair>)
    requires DistinctNames(ps)
    ensures DistinctNames(r)
    ensures Find(r, name).Some? && r[Find(r, name).value].data == data
    ensures |r| == (if Find(ps, name).Some? then |ps| else |ps| + 1)
    ensures forall i :: 0 <= i < |ps| ==> r[i].name == ps[i].name
    ensures forall i :: 0 <= i < |ps| && ps[i].name != name ==> r[i] == ps[i]
  {
    var i := Find(ps, name);
    if i.Some? then
      var r := ps[i.value := Pair(name, data)];
      assert Find(r, name) == Some(i.value) by {
        assert r[i.value].name == name;
        assert forall j :: 0 <= j < i.value ==> r[j] == ps[j] && r[j].name != name;
        assert Find(r, name).Some?;
        assert Find(r, name).value <= i.value;
      }
      r
    else
      var r := ps + [Pair(name, data)];
      assert Find(r, name) == Some(|ps|) by {
        assert r[|ps|].name == name;
        assert forall j :: 0 <= j < |ps| ==> r[j] == ps[j];
        assert Find(r, name).Some?;
        assert Find(r, name).value >= |ps|;
      }
      r
  }

  /** The property's type is or derives from `IndexedProperty<>`. */
  predicate Qualifies(p: Documents.Property) {
    IsSubclassOfRawGeneric(IndexedPropertyDefinition, p.propertyType)
  }

  /** A qualifying property whose value on a fresh instance can be read and is not null. */
  predicate Included(p: Documents.Property) {
    Qualifies(p) && ReadError(p).None? && p.value.Some?
  }

  function DataOf(p: Documents.Property): PropertyData
    requires p.value.Some?
  {
    PropertyData(p.value.value.indexType, p.value.value.className)
  }

  /** What reading a property's value throws: `ArgumentException` without a getter,
      `TargetParameterCountException` for an indexer, which is read without an index. */
  function ReadError(p: Documents.Property): Option<Error> {
    if !p.canRead then Some(ArgumentError)
    else if p.isIndexer then Some(TargetParameterCount)
    else None
  }

  /** A qualifying property whose value cannot be read. */
  predicate Unreadable(p: Documents.Property) {
    Qualifies(p) && ReadError(p).Some?
  }

  /** `GetProperties(type)`: for each qualifying property, in order, its value on a fresh
      instance is read, which throws for a property without a getter and for an indexer;
      a null value is skipped, otherwise the name is mapped to the component's kind and
      class name. */
  function GetProperties(ps: seq<Documents.Property>): (r: Result<seq<Pair>>)
    ensures r.Ok? <==> forall i :: 0 <= i < |ps| ==> !Unreadable(ps[i])
    ensures r.Err? ==> exists i :: 0 <= i < |ps| && Unreadable(ps[i]) && r.error == ReadError(ps[i]).value
                                   && forall j :: 0 <= j < i ==> !Unreadable(ps[j])
    ensures r.Ok? ==> DistinctNames(r.value)
    decreases |ps|
  {
    if |ps| == 0 then Ok([])
    else
      var init := ps[..|ps| - 1];
      var p := ps[|ps| - 1];
      assert forall i :: 0 <= i < |init| ==> init[i] == ps[i];
      var pairs :- GetProperties(init);
      if !Qualifies(p) then Ok(pairs)
      else if ReadError(p).Some? then
        assert Unreadable(ps[|ps| - 1]);
        Err(ReadError(p).value)
      else if p.value.None? then Ok(pairs)
      else Ok(Put(pairs, p.name, DataOf(p)))
  }

  /** Whatever `Put` adds past the old pairs carries the name it was given. */
  lemma PutTail(ps: seq<Pair>, name: string, data: PropertyData)
    requires DistinctNames(ps)
    ensures var r := Put(ps, name, data);
      forall j :: |ps| <= j < |r| ==> r[j].name == name
  {
    var r := Put(ps, name, data);
    if |r| > |ps| {
      assert Find(ps, name).None?;
      assert Find(r, name).value == |ps|;
    }
  }

  /** The last property's step of `GetProperties`. */
  lemma GetPropertiesStep(ps: seq<Documents.Property>)
    requires |ps| > 0 && GetProperties(ps).Ok?
    ensures var p := ps[|ps| - 1];
      GetProperties(ps[..|ps| - 1]).Ok?
      && GetProperties(ps).value
         == if Included(p) then Put(GetProperties(ps[..|ps| - 1]).value, p.name, DataOf(p))
            else GetProperties(ps[..|ps| - 1]).value
  {
    var init := ps[..|ps| - 1];
    var p := ps[|ps| - 1];
    assert forall i :: 0 <= i < |init| ==> init[i] == ps[i];
    var pairs := GetProperties(init).value;
    if Included(p) {
      assert GetProperties(ps) == Ok(Put(pairs, p.name, DataOf(p)));
    } else {
      assert GetProperties(ps) == Ok(pairs);
    }
  }

  /** Every included property's name is collected. */
  lemma {:induction false} GetPropertiesCollects(ps: seq<Documents.Property>)
    requires GetProperties(ps).Ok?
    ensures var r := GetProperties(ps).value;
      forall i :: 0 <= i < |ps| && Included(ps[i]) ==> Find(r, ps[i].name).Some?
    decreases |ps|
  {
    if |ps| > 0 {
      var init := ps[..|ps| - 1];
      GetPropertiesStep(ps);
      GetPropertiesCollects(init);
      var pairs := GetProperties(init).value;
      var r := GetProperties(ps).value;
      assert forall j :: 0 <= j < |pairs| ==> r[j].name == pairs[j].name;
      forall i | 0 <= i < |ps| - 1 && Included(ps[i])
        ensures Find(r, ps[i].name).Some?
      {
        assert init[i] == ps[i];
        var k := Find(pairs, ps[i].name).value;
        assert r[k].name == ps[i].name;
      }
    }
  }

  /** The name at position `j` of the result is an included property's name. */
  lemma {:induction false} GetPropertiesNameFrom(ps: seq<Documents.Property>, j: nat)
    requires GetProperties(ps).Ok? && j < |GetProperties(ps).value|
    ensures exists i :: 0 <= i < |ps| && Included(ps[i]) && ps[i].name == GetProperties(ps).value[j].name
    decreases |ps|
  {
    var init := ps[..|ps| - 1];
    var last := |ps| - 1;
    GetPropertiesStep(ps);
    var pairs := GetProperties(init).value;
    var r := GetProperties(ps).value;
    if j < |pairs| {
      GetPropertiesNameFrom(init, j);
      var i :| 0 <= i < |init| && Included(init[i]) && init[i].name == pairs[j].name;
      assert ps[i] == init[i];
      assert r[j].name == pairs[j].name;
    } else {
      assert Included(ps[last]);
      PutTail(pairs, ps[last].name, DataOf(ps[last]));
      assert r[j].name == ps[last].name;
    }
  }

  /** Only included properties' names are collected. */
  lemma GetPropertiesOnlyIncluded(ps: seq<Documents.Property>)
    requires GetProperties(ps).Ok?
    ensures var r := GetProperties(ps).value;
      forall j :: 0 <= j < |r| ==> exists i :: 0 <= i < |ps| && Included(ps[i]) && ps[i].name == r[j].name
  {
    var r := GetProperties(ps).value;
    forall j | 0 <= j < |r|
      ensures exists i :: 0 <= i < |ps| && Included(ps[i]) && ps[i].name == r[j].name
    {
      GetPropertiesNameFrom(ps, j);
    }
  }

  /** A later property of the same name overwrites an earlier one: the last included
      property's data stands under its name. */
  lemma LastWriteWins(ps: seq<Documents.Property>)
    requires |ps| > 0 && Included(ps[|ps| - 1])
    requires GetProperties(ps).Ok?
    ensures var r := GetProperties(ps).value; var p := ps[|ps| - 1];
      Find(r, p.name).Some? && r[Find(r, p.name).value].data == DataOf(p)
  {
    GetPropertiesStep(ps);
  }

  datatype SchemaField = TagField(name: string) | TextField(name: string) | NumericField(name: string) | NullField

  /** The built `RediSearchIndexDefinition`: an index on hashes under a key prefix. */
  datatype Definition = Definition(prefix: string, fields: seq<SchemaField>)

  /** A definition with its fingerprint, or the `(null, null)` sentinel. */
  datatype Outcome = Built(definition: Definition, hash: string) | NoIndex

  /** The `switch` on the kind: a kind outside Tag/Text/Numeric leaves the field null,
      and the null field is still added. */
  function Field(p: Pair): (f: SchemaField)
    ensures f.NullField? <==> p.data.indexType == Auto
    ensures !f.NullField? ==> f.name == p.name
  {
    match p.data.indexType
    case Tag => TagField(p.name)
    case Text => TextField(p.name)
    case Numeric => NumericField(p.name)
    case Auto => NullField
  }

  /** One property's part of the fingerprint: `name:ClassTypeKind;`. */
  function Detail(p: Pair): string {
    p.name + ":" + p.data.classType + IndexTypeName(p.data.indexType) + ";"
  }

  /** The schema details in dictionary order; this raw text is the index hash. */
  function Fingerprint(ps: seq<Pair>): (r: string)
    ensures |r| == 0 <==> |ps| == 0
    decreases |ps|
  {
    if |ps| == 0 then "" else Detail(ps[0]) + Fingerprint(ps[1..])
  }

  /** `Activator.CreateInstance(type)` succeeds. */
  predicate CanActivate(t: Documents.DocType) {
    !t.isAbstract && Documents.HasParameterlessConstructor(t)
  }

  /** `GetIndexNameFromType`: a type that is not a document is rejected; otherwise the
      index name of a fresh instance. */
  function GetIndexNameFromType(t: Documents.DocType): (r: Result<string>)
    ensures !t.isDocument ==> r == Err(InvalidOperation)
    ensures t.isDocument && !CanActivate(t) ==> r == Err(MissingConstructor)
    ensures r.Ok? <==> t.isDocument && CanActivate(t)
    ensures r.Ok? ==> r.value == t.indexName
  {
    if !t.isDocument then Err(InvalidOperation)
    else if !CanActivate(t) then Err(MissingConstructor)
    else Ok(t.indexName)
  }

  /** `Build(type)`: no included property gives the sentinel; otherwise one schema field
      per included name in dictionary order, the prefix `indexName:` and the raw
      fingerprint as the hash. */
  function Build(t: Documents.DocType): (r: Result<Outcome>)
    ensures r.Ok? <==> t.isDocument && CanActivate(t) && GetProperties(t.properties).Ok?
    ensures r.Ok? ==> (r.value.NoIndex? <==> |GetProperties(t.properties).value| == 0)
    ensures r.Ok? && r.value.Built? ==>
      var pairs := GetProperties(t.properties).value;
      var d := r.value.definition;
      d.prefix == Documents.KeyPrefix(t.indexName)
      && |d.fields| == |pairs| && (forall i :: 0 <= i < |pairs| ==> d.fields[i] == Field(pairs[i]))
      && r.value.hash == Fingerprint(pairs) && |r.value.hash| > 0
  {
    var indexName :- GetIndexNameFromType(t);
    var pairs :- GetProperties(t.properties);
    var fields := seq(|pairs|, i requires 0 <= i < |pairs| => Field(pairs[i]));
    if |fields| == 0 then Ok(NoIndex)
    else Ok(Built(Definition(indexName + ":", fields), Fingerprint(pairs)))
  }

  /** A single included property of kind `Auto` still yields a definition, with a null
      field, and a hash naming the kind. */
  lemma AutoStillCounts(t: Documents.DocType)
    requires t.isDocument && CanActivate(t)
    requires |t.properties| == 1 && Included(t.properties[0]) && t.properties[0].value.value.indexType == Auto
    ensures Build(t).Ok? && Build(t).value.Built?
    ensures Build(t).value.definition.fields == [NullField]
    ensures Build(t).value.hash == t.properties[0].name + ":" + t.properties[0].value.value.className + "Auto;"
  {
    var p := t.properties[0];
    var pair := Pair(p.name, DataOf(p));
    SingleProperty(t.properties);
    var d := Build(t).value.definition;
    assert |d.fields| == 1 && d.fields[0] == Field(pair) == NullField;
    assert Fingerprint([pair]) == Detail(pair) + Fingerprint([]);
  }

  /** A lone included property yields a single pair. */
  lemma SingleProperty(ps: seq<Documents.Property>)
    requires |ps| == 1 && Included(ps[0])
    ensures GetProperties(ps) == Ok([Pair(ps[0].name, DataOf(ps[0]))])
  {
    assert ps[..0] == [];
    GetPropertiesStep(ps);
    assert Put([], ps[0].name, DataOf(ps[0])) == [Pair(ps[0].name, DataOf(ps[0]))];
  }



  // ----------------------------------------------------------- fingerprint injectivity

  /** Names without `:` or `;` and class names without `;`. */
  predicate Separable(ps: seq<Pair>) {
    forall i :: 0 <= i < |ps| ==>
      ':' !in ps[i].name && ';' !in ps[i].name && ';' !in ps[i].data.classType
  }

  /** The position of the first `c` in `s` (`|s|` when there is none). */
  function FirstIndex(s: string, c: char): (r: nat)
    ensures r <= |s|
    decreases |s|
  {
    if |s| == 0 then 0 else if s[0] == c then 0 else 1 + FirstIndex(s[1..], c)
  }

  lemma {:induction false} FirstIndexAfter(x: string, c: char, rest: string)
    requires c !in x
    ensures FirstIndex(x + [c] + rest, c) == |x|
    decreases |x|
  {
    if |x| > 0 {
      assert (x + [c] + rest)[1..] == x[1..] + [c] + rest;
      FirstIndexAfter(x[1..], c, rest);
    }
  }

  /** A text `x c rest` with `c` absent from `x` splits uniquely at its first `c`. */
  lemma SplitAtFirst(x1: string, r1: string, x2: string, r2: string, c: char)
    requires c !in x1 && c !in x2
    requires x1 + [c] + r1 == x2 + [c] + r2
    ensures x1 == x2 && r1 == r2
  {
    var s := x1 + [c] + r1;
    FirstIndexAfter(x1, c, r1);
    FirstIndexAfter(x2, c, r2);
    assert x1 == s[..|x1|];
    assert x2 == s[..|x2|];
    assert r1 == s[|x1| + 1..];
    assert r2 == s[|x2| + 1..];
  }

  /** The kind names end in distinct letters, so the kind is read off the last letter. */
  lemma KindFromLastLetter(a: IndexType, b: IndexType)
    requires IndexTypeName(a)[|IndexTypeName(a)| - 1] == IndexTypeName(b)[|IndexTypeName(b)| - 1]
    ensures a == b
  {
  }

  lemma ClassAndKind(c1: string, k1: IndexType, c2: string, k2: IndexType)
    requires c1 + IndexTypeName(k1) == c2 + IndexTypeName(k2)
    ensures c1 == c2 && k1 == k2
  {
    var s := c1 + IndexTypeName(k1);
    assert s[|s| - 1] == IndexTypeName(k1)[|IndexTypeName(k1)| - 1];
    assert s[|s| - 1] == IndexTypeName(k2)[|IndexTypeName(k2)| - 1];
    KindFromLastLetter(k1, k2);
    assert c1 == s[..|c1|] && c2 == s[..|c2|];
  }

  lemma DetailInjective(p: Pair, q: Pair, rp: string, rq: string)
    requires ':' !in p.name && ';' !in p.name && ';' !in p.data.classType
    requires ':' !in q.name && ';' !in q.name && ';' !in q.data.classType
    requires Detail(p) + rp == Detail(q) + rq
    ensures p == q && rp == rq
  {
    var tp := p.data.classType + IndexTypeName(p.data.indexType);
    var tq := q.data.classType + IndexTypeName(q.data.indexType);
    var xp := p.name + [':'] + tp;
    var xq := q.name + [':'] + tq;
    assert Detail(p) + rp == xp + [';'] + rp;
    assert Detail(q) + rq == xq + [';'] + rq;
    assert ';' !in IndexTypeName(p.data.indexType) && ';' !in IndexTypeName(q.data.indexType);
    assert ';' !in tp && ';' !in tq;
    SplitAtFirst(xp, rp, xq, rq, ';');
    assert p.name + [':'] + tp + [] == q.name + [':'] + tq + [];
    SplitAtFirst(p.name, tp, q.name, tq, ':');
    ClassAndKind(p.data.classType, p.data.indexType, q.data.classType, q.data.indexType);
  }

  /** For separable names the fingerprint determines the property list: two lists with
      the same fingerprint are the same list. */
  lemma {:induction false} FingerprintInjective(a: seq<Pair>, b: seq<Pair>)
    requires Separable(a) && Separable(b)
    requires Fingerprint(a) == Fingerprint(b)
    ensures a == b
    decreases |a|
  {
    if |a| > 0 && |b| > 0 {
      DetailInjective(a[0], b[0], Fingerprint(a[1..]), Fingerprint(b[1..]));
      FingerprintInjective(a[1..], b[1..]);
      assert a == [a[0]] + a[1..] && b == [b[0]] + b[1..];
    }
  }
}
