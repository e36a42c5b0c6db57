/** The cursor loop over `SCAN` replies that both `GetAllAsync` and `DeleteAsync` run.

    The backend is an oracle: the model receives the sequence of replies the loop would
    read, in order. A loop reads replies until one carries cursor 0 (or, where the loop
    catches errors, until a reply is a failure). */
module Scanning {
  import opened Text

  datatype Reply =
    | Batch(cursor: int, keys: seq<string>)
    | Failure

  /** The replies a `do { ... } while (cursor != 0)` loop reads: up to and including the
      first one with cursor 0 or the first failure; all of them if neither occurs. */
  function Consumed(replies: seq<Reply>): (r: seq<Reply>)
    ensures |r| <= |replies| && r == replies[..|r|]
    ensures forall i :: 0 <= i < |r| - 1 ==> r[i].Batch? && r[i].cursor != 0
    ensures |r| < |replies| ==> |r| > 0 && (r[|r| - 1].Failure? || r[|r| - 1].cursor == 0)
    decreases |replies|
  {
    if |replies| == 0 then []
    else if replies[0].Failure? || replies[0].cursor == 0 then [replies[0]]
    else [replies[0]] + Consumed(replies[1..])
  }

  /** The loop ends within the given replies. */
  predicate Ends(replies: seq<Reply>) {
    exists i :: 0 <= i < |replies| && (replies[i].Failure? || replies[i].cursor == 0)
  }

  /** A `MATCH` pattern of the form `prefix*`, for a prefix without glob characters. */
  predicate MatchesPrefixPattern(key: string, prefix: string) {
    StartsWith(key, prefix)
  }
}

/** `DocumentFactory`, `AsyncDocumentExtensions.GetKey` / `DeleteAsync` and the key
    derivation of `BaseComponent`, over explicit descriptors of .NET types. */
module Documents {
  import opened Wrappers
  import opened Text
  import opened Kinds
  import opened Scanning

  /** A constructor parameter: its type and whether that type is a value type. */
  datatype Parameter = Parameter(paramType: ClrType, isValueType: bool)

  datatype Constructor = Constructor(parameters: seq<Parameter>)

  /** The component a property holds on a freshly created instance: its runtime class
      name, the index kind it carries (meaningful for indexed properties) and whether it
      can delete itself. */
  datatype Component = Component(className: string, indexType: IndexType, deletable: bool)

  /** A public property as `GetProperties()` lists it, static ones included: name,
      declared type, the kind of its `[Indexed]` attribute if any, whether its type
      implements `IIndexable`, whether it is readable, whether it is static, whether it
      is an indexer (which takes an index, so reading it without one throws), and its
      value on a fresh instance. */
  datatype Property = Property(
    name: string,
    propertyType: ClrType,
    indexed: Option<IndexType>,
    indexable: bool,
    canRead: bool,
    isStatic: bool,
    isIndexer: bool,
    value: Option<Component>)

  /** A document type as reflection sees it. `indexName` is what `IndexName()` returns on
      its instances; `listener` says whether it implements `IDeletionListener`. */
  datatype DocType = DocType(
    fullName: string,
    isDocument: bool,
    isClass: bool,
    isAbstract: bool,
    listener: bool,
    constructors: seq<Constructor>,
    indexName: string,
    properties: seq<Property>)

  /** `Activator.CreateInstance(type)` needs a public parameterless constructor. */
  predicate HasParameterlessConstructor(t: DocType) {
    exists i :: 0 <= i < |t.constructors| && |t.constructors[i].parameters| == 0
  }

  /** A document instance: its index name and its `Id` (null until set). */
  datatype Document = Document(indexName: string, id: Option<string>)

  /** An argument `CreateEmpty` passes: the default of a value type, or null. */
  datatype Argument = DefaultOf(argType: ClrType) | NullArgument

  datatype Instance = Instance(chosen: Constructor, arguments: seq<Argument>, document: Document)

  /** The position of the first constructor with the fewest parameters (the head of a
      stable ascending sort). */
  function Fewest(cs: seq<Constructor>): (i: nat)
    requires |cs| > 0
    ensures i < |cs|
    ensures forall j :: 0 <= j < |cs| ==> |cs[i].parameters| <= |cs[j].parameters|
    ensures forall j :: 0 <= j < i ==> |cs[j].parameters| > |cs[i].parameters|
    decreases |cs|
  {
    if |cs| == 1 then 0
    else
      var k := Fewest(cs[1..]) + 1;
      if |cs[0].parameters| <= |cs[k].parameters| then 0 else k
  }

  function DefaultArgument(p: Parameter): Argument {
    if p.isValueType then DefaultOf(p.paramType) else NullArgument
  }

  /** `CreateEmpty`: a null type, a type that is not a document, and a type without
      public constructors are rejected; otherwise the constructor with the fewest
      parameters is invoked with default arguments, which fails for an abstract class.
      The new instance has no `Id`. */
  function CreateEmpty(t: Option<DocType>): (r: Result<Instance>)
    ensures t.None? ==> r == Err(ArgumentNull)
    ensures t.Some? && !t.value.isDocument ==> r == Err(InvalidOperation)
    ensures t.Some? && t.value.isDocument && |t.value.constructors| == 0 ==> r == Err(InvalidOperation)
    ensures t.Some? && t.value.isDocument && |t.value.constructors| > 0 && t.value.isAbstract ==>
      r == Err(MemberAccess)
    ensures r.Ok? <==> t.Some? && t.value.isDocument && |t.value.constructors| > 0 && !t.value.isAbstract
    ensures r.Ok? ==>
      var cs := t.value.constructors;
      var c := r.value.chosen;
      (exists i :: 0 <= i < |cs| && cs[i] == c
         && (forall j :: 0 <= j < i ==> |cs[j].parameters| > |c.parameters|))
      && (forall j :: 0 <= j < |cs| ==> |c.parameters| <= |cs[j].parameters|)
      && |r.value.arguments| == |c.parameters|
      && (forall j :: 0 <= j < |c.parameters| ==>
            r.value.arguments[j] == (if c.parameters[j].isValueType then DefaultOf(c.parameters[j].paramType)
                                     else NullArgument))
      && r.value.document == Document(t.value.indexName, None)
  {
    if t.None? then Err(ArgumentNull)
    else if !t.value.isDocument then Err(InvalidOperation)
    else if |t.value.constructors| == 0 then Err(InvalidOperation)
    else if t.value.isAbstract then Err(MemberAccess)
    else
      var c := t.value.constructors[Fewest(t.value.constructors)];
      var args := seq(|c.parameters|, j requires 0 <= j < |c.parameters| => DefaultArgument(c.parameters[j]));
      Ok(Instance(c, args, Document(t.value.indexName, None)))
  }

  /** The prefix a search reply puts in front of a document's id. */
  function KeyPrefix(indexName: string): (p: string)
    ensures |p| == |indexName| + 1 && p[|indexName|] == ':'
  {
    indexName + ":"
  }

  /** `Create`: an empty instance whose `Id` is the given id with every occurrence of
      `{IndexName}:` removed; a null id fails when it is dereferenced. */
  function Create(t: DocType, id: Option<string>): (r: Result<Document>)
    ensures CreateEmpty(Some(t)).Err? ==> r == Err(CreateEmpty(Some(t)).error)
    ensures CreateEmpty(Some(t)).Ok? && id.None? ==> r == Err(NullReference)
    ensures r.Ok? <==> CreateEmpty(Some(t)).Ok? && id.Some?
    ensures r.Ok? ==> r.value.indexName == t.indexName && r.value.id.Some?
    ensures r.Ok? && !Occurs(id.value, KeyPrefix(t.indexName)) ==> r.value.id == id
  {
    var _ :- CreateEmpty(Some(t));
    if id.None? then Err(NullReference)
    else
      var stripped := Replace(id.value, KeyPrefix(t.indexName), "");
      StripAbsent(id.value, KeyPrefix(t.indexName));
      Ok(Document(t.indexName, Some(stripped)))
  }

  lemma StripAbsent(s: string, p: string)
    requires |p| > 0
    ensures !Occurs(s, p) ==> Replace(s, p, "") == s
  {
    if !Occurs(s, p) {
      ReplaceAbsent(s, p, "");
    }
  }

  /** `GetKey`: `{IndexName}:{Id}`; a null id contributes nothing. */
  function GetKey(d: Document): (k: string)
    ensures StartsWith(k, KeyPrefix(d.indexName))
    ensures k[|d.indexName| + 1..] == Interp(d.id)
  {
    KeyPrefix(d.indexName) + Interp(d.id)
  }

  /** Creating a document from its own key gives back its id. */
  lemma CreateFromKey(t: DocType, id: string)
    requires CreateEmpty(Some(t)).Ok?
    requires !Occurs(id, KeyPrefix(t.indexName))
    ensures Create(t, Some(GetKey(Document(t.indexName, Some(id))))) == Ok(Document(t.indexName, Some(id)))
  {
    var p := KeyPrefix(t.indexName);
    var key := p + id;
    assert key[..|p|] == p;
    assert key[|p|..] == id;
    ReplaceAbsent(id, p, "");
    assert GetKey(Document(t.indexName, Some(id))) == key;
    assert Replace(key, p, "") == "" + Replace(id, p, "");
    assert "" + id == id;
    assert Create(t, Some(key)) == Ok(Document(t.indexName, Some(Replace(key, p, ""))));
  }

  // ------------------------------------------------------------------ BaseComponent

  datatype ComponentKeys = ComponentKeys(documentKey: string, fullKey: string)

  const GlobalSettingsKey: string := "global_settings"

  /** The keys a component derives: the owner's key (or `global_settings` without an
      owner), then that key, a colon and the property name. */
  function KeysFor(owner: Option<Document>, propertyName: string): (r: ComponentKeys)
    ensures owner.None? ==> r.documentKey == GlobalSettingsKey
    ensures owner.Some? ==> r.documentKey == GetKey(owner.value)
    ensures r.fullKey == r.documentKey + ":" + propertyName
  {
    var documentKey := if owner.None? then GlobalSettingsKey else GetKey(owner.value);
    ComponentKeys(documentKey, documentKey + ":" + propertyName)
  }

  /** Components of one owner with different property names get different keys. */
  lemma KeysForDistinct(owner: Option<Document>, p1: string, p2: string)
    requires p1 != p2
    ensures KeysFor(owner, p1).fullKey != KeysFor(owner, p2).fullKey
  {
    var k := KeysFor(owner, p1).documentKey + ":";
    assert KeysFor(owner, p1).fullKey[|k|..] == p1;
    assert KeysFor(owner, p2).fullKey[|k|..] == p2;
  }

  // ------------------------------------------------------------------ DeleteAsync

  /** What `DeleteAsync` does to the outside world, in order. */
  datatype Effect =
    | Notified
    | ComponentDeleted(property: string)
    | KeysDeleted(keys: seq<string>)

  /** A readable property, other than an indexer, holding a deletable component. */
  predicate Deletes(p: Property) {
    p.canRead && !p.isIndexer && p.value.Some? && p.value.value.deletable
  }

  /** The properties whose value is deleted: readable ones holding a deletable component. */
  function DeletedComponents(ps: seq<Property>): (r: seq<Effect>)
    ensures |r| <= |ps|
    ensures forall i :: 0 <= i < |r| ==> r[i].ComponentDeleted?
    ensures forall i :: 0 <= i < |ps| && Deletes(ps[i]) ==> ComponentDeleted(ps[i].name) in r
    ensures forall e :: e in r ==> exists i :: 0 <= i < |ps| && Deletes(ps[i]) && e == ComponentDeleted(ps[i].name)
    decreases |ps|
  {
    if |ps| == 0 then []
    else
      var p := ps[0];
      var rest := DeletedComponents(ps[1..]);
      assert forall i :: 1 <= i < |ps| ==> ps[i] == ps[1..][i - 1];
      assert forall e :: e in rest ==> exists i :: 0 <= i < |ps| && Deletes(ps[i]) && e == ComponentDeleted(ps[i].name) by {
        forall e | e in rest
          ensures exists i :: 0 <= i < |ps| && Deletes(ps[i]) && e == ComponentDeleted(ps[i].name)
        {
          var j :| 0 <= j < |ps[1..]| && Deletes(ps[1..][j]) && e == ComponentDeleted(ps[1..][j].name);
          assert ps[j + 1] == ps[1..][j];
        }
      }
      (if Deletes(p) then [ComponentDeleted(p.name)] else []) + rest
  }

  /** The cleanup loop: each batch with keys is deleted; a failure ends the loop quietly. */
  function Cleanup(replies: seq<Reply>): (r: seq<Effect>)
    ensures forall i :: 0 <= i < |r| ==> r[i].KeysDeleted? && |r[i].keys| > 0
    ensures forall e :: e in r ==>
      exists i :: 0 <= i < |replies| && replies[i].Batch? && e == KeysDeleted(replies[i].keys)
    decreases |replies|
  {
    if |replies| == 0 then []
    else
      var head := replies[0];
      var rest := if head.Batch? && head.cursor != 0 then Cleanup(replies[1..]) else [];
      assert forall e :: e in rest ==>
        exists i :: 0 <= i < |replies| && replies[i].Batch? && e == KeysDeleted(replies[i].keys) by {
        forall e | e in rest
          ensures exists i :: 0 <= i < |replies| && replies[i].Batch? && e == KeysDeleted(replies[i].keys)
        {
          var j :| 0 <= j < |replies[1..]| && replies[1..][j].Batch? && e == KeysDeleted(replies[1..][j].keys);
          assert replies[j + 1] == replies[1..][j];
        }
      }
      (if head.Batch? && |head.keys| > 0 then [KeysDeleted(head.keys)] else []) + rest
  }

  /** The pattern of the cleanup scan: the document key followed by `*`. */
  function CleanupPattern(d: Document): string {
    GetKey(d) + "*"
  }

  /** One step of `DeleteAsync` before its cleanup scan: a call into the listener or a
      component, or the read of an indexer's value, which throws for want of an index. */
  datatype Step = Call(effect: Effect) | IndexerRead

  /** The steps for the properties, in order: a readable indexer is read, and a readable
      property holding a deletable component has it delete itself. */
  function PropertySteps(ps: seq<Property>): (r: seq<Step>)
    ensures |r| <= |ps|
    decreases |ps|
  {
    if |ps| == 0 then []
    else
      var p := ps[0];
      (if p.canRead && p.isIndexer then [IndexerRead]
       else if Deletes(p) then [Call(ComponentDeleted(p.name))]
       else [])
      + PropertySteps(ps[1..])
  }

  /** The steps of `DeleteAsync` before the scan: the listener first, then the properties. */
  function Steps(t: DocType): seq<Step> {
    (if t.listener then [Call(Notified)] else []) + PropertySteps(t.properties)
  }

  /** What a step throws, given what each call into the listener or a component throws. */
  function StepError(s: Step, throws: Effect -> Option<Error>): Option<Error> {
    match s
    case IndexerRead => Some(TargetParameterCount)
    case Call(e) => throws(e)
  }

  /** The position of the first step that throws; the number of steps when none does. */
  function FirstThrow(steps: seq<Step>, throws: Effect -> Option<Error>): (k: nat)
    ensures k <= |steps|
    ensures forall i :: 0 <= i < k ==> StepError(steps[i], throws).None?
    ensures k < |steps| ==> StepError(steps[k], throws).Some?
    decreases |steps|
  {
    if |steps| == 0 || StepError(steps[0], throws).Some? then 0
    else 1 + FirstThrow(steps[1..], throws)
  }

  /** The calls among the steps, in order. */
  function Calls(steps: seq<Step>): (r: seq<Effect>)
    decreases |steps|
  {
    if |steps| == 0 then []
    else (if steps[0].Call? then [steps[0].effect] else []) + Calls(steps[1..])
  }

  lemma {:induction false} CallsConcat(a: seq<Step>, b: seq<Step>)
    ensures Calls(a + b) == Calls(a) + Calls(b)
    decreases |a|
  {
    if |a| == 0 {
      assert a + b == b;
    } else {
      assert (a + b)[0] == a[0];
      assert (a + b)[1..] == a[1..] + b;
      CallsConcat(a[1..], b);
    }
  }

  /** The calls of the property steps are exactly the component deletions. */
  lemma {:induction false} PropertyStepsCalls(ps: seq<Property>)
    ensures Calls(PropertySteps(ps)) == DeletedComponents(ps)
    decreases |ps|
  {
    if |ps| > 0 {
      var p := ps[0];
      var head: seq<Step> := if p.canRead && p.isIndexer then [IndexerRead]
                             else if Deletes(p) then [Call(ComponentDeleted(p.name))] else [];
      PropertyStepsCalls(ps[1..]);
      CallsConcat(head, PropertySteps(ps[1..]));
    }
  }

  /** No step throws. */
  predicate AllSucceed(steps: seq<Step>, throws: Effect -> Option<Error>) {
    forall i :: 0 <= i < |steps| ==> StepError(steps[i], throws).None?
  }

  lemma AllSucceedConcat(a: seq<Step>, b: seq<Step>, throws: Effect -> Option<Error>)
    ensures AllSucceed(a + b, throws) <==> AllSucceed(a, throws) && AllSucceed(b, throws)
  {
    assert forall i :: 0 <= i < |a| ==> (a + b)[i] == a[i];
    assert forall i :: 0 <= i < |b| ==> (a + b)[|a| + i] == b[i];
  }

  /** A property `DeleteAsync` gets past: it is not a readable indexer, and if it holds a
      deletable component, that component's deletion does not throw. */
  predicate Harmless(p: Property, throws: Effect -> Option<Error>) {
    (p.canRead ==> !p.isIndexer) && (Deletes(p) ==> throws(ComponentDeleted(p.name)).None?)
  }

  /** No property step throws exactly when every property is harmless. */
  lemma {:induction false} PropertyStepsSucceed(ps: seq<Property>, throws: Effect -> Option<Error>)
    ensures AllSucceed(PropertySteps(ps), throws) <==> forall i :: 0 <= i < |ps| ==> Harmless(ps[i], throws)
    decreases |ps|
  {
    if |ps| > 0 {
      var p := ps[0];
      var head: seq<Step> := if p.canRead && p.isIndexer then [IndexerRead]
                             else if Deletes(p) then [Call(ComponentDeleted(p.name))] else [];
      assert AllSucceed(head, throws) <==> Harmless(p, throws);
      PropertyStepsSucceed(ps[1..], throws);
      AllSucceedConcat(head, PropertySteps(ps[1..]), throws);
      assert forall i :: 0 <= i < |ps[1..]| ==> ps[1..][i] == ps[i + 1];
      assert (forall i :: 0 <= i < |ps| ==> Harmless(ps[i], throws))
        <==> Harmless(p, throws) && forall i :: 0 <= i < |ps[1..]| ==> Harmless(ps[1..][i], throws);
    }
  }

  /** Every call `DeleteAsync` makes when nothing throws: the listener, then the components. */
  function AllCalls(t: DocType): seq<Effect> {
    (if t.listener then [Notified] else []) + DeletedComponents(t.properties)
  }

  /** Nothing before the cleanup scan throws. */
  predicate DeleteSucceeds(t: DocType, throws: Effect -> Option<Error>) {
    (t.listener ==> throws(Notified).None?)
    && forall i :: 0 <= i < |t.properties| ==> Harmless(t.properties[i], throws)
  }

  /** The steps make exactly the calls of an uneventful deletion, and none of them throws
      exactly when the deletion succeeds. */
  lemma StepsMeaning(t: DocType, throws: Effect -> Option<Error>)
    ensures Calls(Steps(t)) == AllCalls(t)
    ensures AllSucceed(Steps(t), throws) <==> DeleteSucceeds(t, throws)
  {
    var head: seq<Step> := if t.listener then [Call(Notified)] else [];
    PropertyStepsCalls(t.properties);
    PropertyStepsSucceed(t.properties, throws);
    CallsConcat(head, PropertySteps(t.properties));
    AllSucceedConcat(head, PropertySteps(t.properties), throws);
  }

  /** The calls before a step are a prefix of all calls, and a throwing call is the next
      one. */
  lemma CallsUpTo(steps: seq<Step>, k: nat)
    requires k < |steps|
    ensures |Calls(steps[..k])| <= |Calls(steps)|
    ensures Calls(steps[..k]) == Calls(steps)[..|Calls(steps[..k])|]
    ensures steps[k].Call? ==>
      |Calls(steps[..k])| < |Calls(steps)| && Calls(steps)[|Calls(steps[..k])|] == steps[k].effect
  {
    assert steps == steps[..k] + steps[k..];
    CallsConcat(steps[..k], steps[k..]);
    assert steps[k..] == [steps[k]] + steps[k + 1..];
    CallsConcat([steps[k]], steps[k + 1..]);
  }

  /** Only the first call can be the listener's, and no call deletes keys. */
  lemma AllCallsShape(t: DocType)
    ensures t.listener <==> |AllCalls(t)| > 0 && AllCalls(t)[0] == Notified
    ensures forall i :: 0 <= i < |AllCalls(t)| && (i > 0 || !t.listener) ==> AllCalls(t)[i].ComponentDeleted?
  {
    var cs := DeletedComponents(t.properties);
    if t.listener {
      assert forall i :: 0 < i < |AllCalls(t)| ==> AllCalls(t)[i] == cs[i - 1];
    } else {
      assert AllCalls(t) == cs;
    }
  }

  /** What `DeleteAsync` does: the `MATCH` pattern of its cleanup scan, the effects of the
      calls that returned, in order, and the exception that ended it early, if any. */
  datatype Deletion = Deletion(pattern: string, effects: seq<Effect>, error: Option<Error>)

  /** `DeleteAsync`: the listener is told first, then each component deletes itself, then
      the keys the scan of `GetKey()*` finds (the replies to that scan) are deleted batch
      by batch. `throws` gives the exception, if any, of each call into the listener or a
      component; such an exception, or reading an indexer, ends the deletion before the
      scan and reaches the caller, while the scan's own failures are swallowed. */
  function Delete(t: DocType, d: Document, replies: seq<Reply>, throws: Effect -> Option<Error>): (r: Deletion)
    ensures StartsWith(r.pattern, GetKey(d)) && r.pattern[|GetKey(d)|..] == "*"
    ensures r.error.None? <==> DeleteSucceeds(t, throws)
    ensures r.error.None? ==> r.effects == AllCalls(t) + Cleanup(replies)
    ensures r.error.Some? ==> |r.effects| <= |AllCalls(t)| && r.effects == AllCalls(t)[..|r.effects|]
    ensures r.error.Some? ==> |r.effects| < |AllCalls(t)| || r.error == Some(TargetParameterCount)
    ensures r.error.Some? && r.error != Some(TargetParameterCount) ==> r.error == throws(AllCalls(t)[|r.effects|])
  {
    var steps := Steps(t);
    var k := FirstThrow(steps, throws);
    StepsMeaning(t, throws);
    if k < |steps| then
      CallsUpTo(steps, k);
      Deletion(CleanupPattern(d), Calls(steps[..k]), StepError(steps[k], throws))
    else
      Deletion(CleanupPattern(d), AllCalls(t) + Cleanup(replies), None)
  }

  /** A listener that throws ends the deletion at once: nothing is deleted and its
      exception reaches the caller. */
  lemma DeleteListenerThrows(t: DocType, d: Document, replies: seq<Reply>, throws: Effect -> Option<Error>)
    requires t.listener && throws(Notified).Some?
    ensures Delete(t, d, replies, throws) == Deletion(GetKey(d) + "*", [], throws(Notified))
  {
    assert Steps(t)[0] == Call(Notified);
    assert Steps(t)[..0] == [];
  }

  /** The listener is told first and only there. */
  lemma DeleteListenerFirst(t: DocType, d: Document, replies: seq<Reply>, throws: Effect -> Option<Error>)
    ensures var r := Delete(t, d, replies, throws);
      (r.error.None? ==> (t.listener <==> |r.effects| > 0 && r.effects[0] == Notified))
      && forall i :: 0 < i < |r.effects| ==> r.effects[i] != Notified
  {
    var r := Delete(t, d, replies, throws);
    var all := AllCalls(t);
    AllCallsShape(t);
    if r.error.None? {
      assert forall i :: 0 <= i < |all| ==> r.effects[i] == all[i];
      assert forall i :: |all| <= i < |r.effects| ==> r.effects[i] == Cleanup(replies)[i - |all|];
    } else {
      assert forall i :: 0 <= i < |r.effects| ==> r.effects[i] == all[i];
    }
  }

  /** When nothing throws, every deletable component is deleted. */
  lemma DeleteCoversComponents(t: DocType, d: Document, replies: seq<Reply>, throws: Effect -> Option<Error>)
    ensures var r := Delete(t, d, replies, throws);
      r.error.None? ==> forall p :: p in t.properties && Deletes(p) ==> ComponentDeleted(p.name) in r.effects
  {
    var r := Delete(t, d, replies, throws);
    var cs := DeletedComponents(t.properties);
    if r.error.None? {
      var off := if t.listener then 1 else 0;
      assert forall j :: 0 <= j < |cs| ==> r.effects[off + j] == cs[j];
      forall p | p in t.properties && Deletes(p)
        ensures ComponentDeleted(p.name) in r.effects
      {
        var i :| 0 <= i < |t.properties| && t.properties[i] == p;
        var j :| 0 <= j < |cs| && cs[j] == ComponentDeleted(p.name);
        assert r.effects[off + j] == ComponentDeleted(p.name);
      }
    }
  }

  /** The scan's key deletions come last, after everything else returned; a deletion
      ended by an exception deletes no keys. */
  lemma DeleteScansLast(t: DocType, d: Document, replies: seq<Reply>, throws: Effect -> Option<Error>)
    ensures var r := Delete(t, d, replies, throws);
      (r.error.None? ==> |r.effects| == |AllCalls(t)| + |Cleanup(replies)|
                         && r.effects[|AllCalls(t)|..] == Cleanup(replies))
      && (forall i :: 0 <= i < |r.effects| && i < |AllCalls(t)| ==> !r.effects[i].KeysDeleted?)
      && (r.error.Some? ==> forall i :: 0 <= i < |r.effects| ==> !r.effects[i].KeysDeleted?)
  {
    var r := Delete(t, d, replies, throws);
    var all := AllCalls(t);
    AllCallsShape(t);
    assert forall i :: 0 <= i < |r.effects| && i < |all| ==> r.effects[i] == all[i];
  }

  /** The deletions of a sequence of replies taken one by one: every batch with keys. */
  function BatchDeletions(batches: seq<Reply>): (r: seq<Effect>)
    ensures |r| <= |batches|
    decreases |batches|
  {
    if |batches| == 0 then []
    else
      (if batches[0].Batch? && |batches[0].keys| > 0 then [KeysDeleted(batches[0].keys)] else [])
      + BatchDeletions(batches[1..])
  }

  /** The cleanup deletes every non-empty batch the loop reads, in order, and nothing else. */
  lemma {:induction false} CleanupDeletesEveryBatch(replies: seq<Reply>)
    ensures Cleanup(replies) == BatchDeletions(Consumed(replies))
    decreases |replies|
  {
    if |replies| > 0 {
      if replies[0].Batch? && replies[0].cursor != 0 {
        CleanupDeletesEveryBatch(replies[1..]);
        assert Consumed(replies)[1..] == Consumed(replies[1..]);
      } else {
        assert Consumed(replies)[1..] == [];
      }
    }
  }

  /** The cleanup only covers the replies the loop reads. */
  lemma {:induction false} CleanupReadsConsumed(replies: seq<Reply>)
    ensures Cleanup(replies) == Cleanup(Consumed(replies))
    decreases |replies|
  {
    if |replies| > 0 && replies[0].Batch? && replies[0].cursor != 0 {
      CleanupReadsConsumed(replies[1..]);
      assert Consumed(replies)[1..] == Consumed(replies[1..]);
    }
  }

  /** The cleanup pattern also matches the keys of other documents of the same index
      whose id extends this one's: deleting `cars:1` scans `cars:1*`, which matches
      `cars:10`. */
  lemma CleanupPatternOverreaches(indexName: string, id: string, longer: string)
    requires StartsWith(longer, id)
    ensures MatchesPrefixPattern(GetKey(Document(indexName, Some(longer))),
                                 GetKey(Document(indexName, Some(id))))
  {
    var p := KeyPrefix(indexName);
    assert (p + longer)[..|p + id|] == p + longer[..|id|];
  }

  lemma CleanupPatternExample()
    ensures MatchesPrefixPattern("cars:10", GetKey(Document("cars", Some("1"))))
    ensures "cars:10" != GetKey(Document("cars", Some("1")))
  {
    CleanupPatternOverreaches("cars", "1", "10");
  }
}
