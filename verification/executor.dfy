/** `Index/QueryExecutor.GetAllAsync`: scan the keys matching `indexName:*` batch by batch
    until the cursor comes back as 0, keeping the keys with exactly one colon.

    The server's `SCAN` replies are the sequence `replies`, read in order; a `Failure`
    reply is an exception from the client or from the cast of its reply, which ends
    the call. `AsyncDocumentFactory`, which turns each kept key into a document, is not
    part of this model: the outcome lists the keys themselves, and `ListedDocumentIds`
    states what `DocumentFactory.Create` makes of them. */
module QueryExecutor {
  import opened Wrappers
  import opened Text
  import opened Scanning
  import Documents
  import Search

  datatype Outcome =
    | Listed(keys: seq<string>)   // the loop reached cursor 0
    | Aborted                     // an exception ended the call
    | Unfinished                  // the given replies ran out first

  /** The loop's filter: skip a key without a colon or with more than one. */
  predicate Kept(key: string) {
    !(':' !in key || Count(key, ':') > 1)
  }

  /** The filter keeps exactly the keys with one colon. */
  lemma KeptIffOneColon(key: string)
    ensures Kept(key) <==> Count(key, ':') == 1
  {
    CountZero(key, ':');
  }

  /** The kept keys of one batch, in batch order. */
  function KeptKeys(keys: seq<string>): (r: seq<string>)
    ensures forall k :: k in r ==> k in keys && Count(k, ':') == 1
    ensures forall k :: k in keys && Count(k, ':') == 1 ==> k in r
    ensures |r| <= |keys|
    decreases |keys|
  {
    if |keys| == 0 then []
    else
      var last := keys[|keys| - 1];
      KeptIffOneColon(last);
      assert keys == keys[..|keys| - 1] + [last];
      KeptKeys(keys[..|keys| - 1]) + (if Kept(last) then [last] else [])
  }

  /** The kept keys of every batch in `batches`, batch after batch: what a completed
      scan should list. */
  function AllKept(batches: seq<Reply>): (r: seq<string>)
    ensures forall k :: k in r ==> Count(k, ':') == 1
    decreases |batches|
  {
    if |batches| == 0 then []
    else (if batches[0].Batch? then KeptKeys(batches[0].keys) else []) + AllKept(batches[1..])
  }

  /** What the whole `do ... while (cursor != 0)` loop produces from the replies. */
  function Scan(replies: seq<Reply>): (r: Outcome)
    ensures r.Unfinished? <==> !Ends(replies)
    ensures r.Aborted? <==> Ends(replies) && Consumed(replies)[|Consumed(replies)| - 1].Failure?
    ensures r.Listed? ==> forall k :: k in r.keys ==> Count(k, ':') == 1
    decreases |replies|
  {
    if |replies| == 0 then Unfinished
    else if replies[0].Failure? then Aborted
    else
      var here := KeptKeys(replies[0].keys);
      if replies[0].cursor == 0 then Listed(here)
      else
        assert Ends(replies) <==> Ends(replies[1..]) by {
          if Ends(replies) {
            var i :| 0 <= i < |replies| && (replies[i].Failure? || replies[i].cursor == 0);
            assert replies[1..][i - 1] == replies[i];
          }
          if Ends(replies[1..]) {
            var i :| 0 <= i < |replies[1..]| && (replies[1..][i].Failure? || replies[1..][i].cursor == 0);
            assert replies[i + 1] == replies[1..][i];
          }
        }
        Prepend(here, Scan(replies[1..]))
  }

  /** Keys found in earlier batches come before an outcome's own. */
  function Prepend(keys: seq<string>, o: Outcome): (r: Outcome)
    ensures r.Listed? <==> o.Listed?
    ensures r.Aborted? <==> o.Aborted?
  {
    match o
    case Listed(rest) => Listed(keys + rest)
    case _ => o
  }

  /** A completed scan lists the kept keys of every batch it read, batch after batch. */
  lemma {:induction false} ScanListsAllKept(replies: seq<Reply>)
    ensures Scan(replies).Listed? ==> Scan(replies).keys == AllKept(Consumed(replies))
    decreases |replies|
  {
    if |replies| > 0 && replies[0].Batch? {
      if replies[0].cursor == 0 {
        assert Consumed(replies)[1..] == [];
      } else {
        ScanListsAllKept(replies[1..]);
        assert Consumed(replies)[1..] == Consumed(replies[1..]);
      }
    }
  }

  /** Prepending twice is prepending the concatenation. */
  lemma PrependPrepend(a: seq<string>, b: seq<string>, o: Outcome)
    ensures Prepend(a, Prepend(b, o)) == Prepend(a + b, o)
  {
    if o.Listed? {
      assert (a + b) + o.keys == a + (b + o.keys);
    }
  }

  /** One reply of the scan, given the keys it keeps. */
  lemma ScanStep(replies: seq<Reply>, i: nat)
    requires i < |replies| && replies[i].Batch?
    ensures Scan(replies[i..]) ==
      if replies[i].cursor == 0 then Listed(KeptKeys(replies[i].keys))
      else Prepend(KeptKeys(replies[i].keys), Scan(replies[i + 1..]))
  {
    assert replies[i..][0] == replies[i];
    assert replies[i..][1..] == replies[i + 1..];
  }

  /** The inner `foreach` over one batch. */
  method KeepOneColon(keys: seq<string>) returns (found: seq<string>)
    ensures found == KeptKeys(keys)
  {
    found := [];
    var j := 0;
    while j < |keys|
      invariant 0 <= j <= |keys|
      invariant found == KeptKeys(keys[..j])
    {
      var key := keys[j];
      assert keys[..j + 1][..j] == keys[..j];
      if !(':' !in key || Count(key, ':') > 1) {
        found := found + [key];
      }
      j := j + 1;
    }
    assert keys[..j] == keys;
  }

  /** `GetAllAsync<TDocument>()`: the `MATCH` pattern sent and the outcome of the scan. */
  method GetAll(indexName: string, replies: seq<Reply>) returns (pattern: string, r: Outcome)
    ensures pattern == indexName + ":*"
    ensures r == Scan(replies)
  {
    pattern := indexName + ":*";
    var results: seq<string> := [];
    var i := 0;
    assert replies[0..] == replies;
    while true
      invariant 0 <= i <= |replies|
      invariant Scan(replies) == Prepend(results, Scan(replies[i..]))
      decreases |replies| - i
    {
      if i == |replies| {
        return pattern, Unfinished;
      }
      var reply := replies[i];
      if reply.Failure? {
        assert replies[i..][0] == reply;
        return pattern, Aborted;
      }
      var found := KeepOneColon(reply.keys);
      ScanStep(replies, i);
      if reply.cursor == 0 {
        assert Scan(replies) == Prepend(results, Listed(found));
        return pattern, Listed(results + found);
      }
      PrependPrepend(results, found, Scan(replies[i + 1..]));
      results := results + found;
      i := i + 1;
    }
  }

  /** A kept key under the `indexName:*` pattern is `indexName:id` with a colon-free id,
      and only a colon-free index name can have such keys. */
  lemma KeptKeyShape(indexName: string, key: string)
    requires MatchesPrefixPattern(key, indexName + ":") && Count(key, ':') == 1
    ensures ':' !in indexName
    ensures key == indexName + ":" + key[|indexName| + 1..] && ':' !in key[|indexName| + 1..]
  {
    var id := key[|indexName| + 1..];
    assert key == indexName + ":" + id;
    CountConcat(indexName + ":", id, ':');
    CountConcat(indexName, ":", ':');
    assert Count(":", ':') == 1;
    CountZero(indexName, ':');
    CountZero(id, ':');
  }

  /** Every key the scan lists under the `indexName:*` pattern is `indexName:id` with a
      colon-free id, and the index name has no colon: an index name with a colon lists
      none of the keys its pattern matches. */
  lemma ListedKeyShape(indexName: string, replies: seq<Reply>, k: string)
    requires Scan(replies).Listed? && k in Scan(replies).keys
    requires MatchesPrefixPattern(k, indexName + ":")
    ensures ':' !in indexName
    ensures k == indexName + ":" + k[|indexName| + 1..] && ':' !in k[|indexName| + 1..]
  {
    KeptKeyShape(indexName, k);
  }

  /** Made into documents by `DocumentFactory.Create`, every key listed under the
      `indexName:*` pattern of a creatable type gives the document whose id is the text
      after the colon. */
  lemma ListedDocumentIds(t: Documents.DocType, replies: seq<Reply>, i: nat)
    requires Documents.CreateEmpty(Some(t)).Ok?
    requires Scan(replies).Listed? && i < |Scan(replies).keys|
    requires MatchesPrefixPattern(Scan(replies).keys[i], t.indexName + ":")
    ensures Search.CreateAll(t, Scan(replies).keys).Ok?
    ensures var key := Scan(replies).keys[i];
      Search.CreateAll(t, Scan(replies).keys).value[i]
      == Documents.Document(t.indexName, Some(key[|t.indexName| + 1..]))
  {
    var key := Scan(replies).keys[i];
    assert key in Scan(replies).keys;
    KeptKeyShape(t.indexName, key);
    var id := key[|t.indexName| + 1..];
    Search.NoColonNoPrefix(id, t.indexName);
    Documents.CreateFromKey(t, id);
    assert Documents.GetKey(Documents.Document(t.indexName, Some(id))) == key;
  }
}
