/** `RedisSearchFunctions` (paging, the `FT.SEARCH` request, reply parsing, the fail-soft
    policy and the usage counter) and the id extraction of `Index/QueryExtensions`.

    The backend is a parameter: a function from the request's argument list to the reply
    it gives, or to the exception it raises. The per-index `TotalQueries` counters are a
    map passed in and returned. */
module Search {
  import opened Wrappers
  import opened Text
  import opened Ints
  import opened RedisQueries
  import Expressions
  import IndexQuery
  import Documents

  // ------------------------------------------------------------------------ replies

  /** A reply element. `Nil` is an element that is a null reference. */
  datatype Reply = Nil | Bulk(s: string) | Integer(n: int) | Array(items: seq<Reply>)

  /** `element.ToString()`: throws on a null element; an array shows its element count. */
  function ReplyText(r: Reply): (t: Result<string>)
    ensures t.Err? <==> r.Nil?
  {
    match r
    case Nil => Err(NullReference)
    case Bulk(s) => Ok(s)
    case Integer(n) => Ok(IntToString(n))
    case Array(items) => Ok(IntToString(|items|) + " element(s)")
  }

  /** `(int)element`: an integer reply, or numeric text, that fits 32 bits. */
  function ReplyInt(r: Reply): (n: Result<int>)
    ensures n.Ok? ==> InRange(n.value, 32)
  {
    match r
    case Nil => Err(NullReference)
    case Integer(n) => if InRange(n, 32) then Ok(n) else Err(Overflow)
    case Bulk(s) =>
      var v := ParseInteger(s);
      if v.None? then Err(Format) else if InRange(v.value, 32) then Ok(v.value) else Err(Overflow)
    case Array(_) => Err(InvalidCast)
  }

  /** The texts of a run of elements, failing at the first null one. */
  function Texts(rs: seq<Reply>): (r: Result<seq<string>>)
    ensures r.Ok? <==> forall i :: 0 <= i < |rs| ==> !rs[i].Nil?
    ensures r.Ok? ==>
      (|r.value| == |rs| && forall i :: 0 <= i < |rs| ==> r.value[i] == ReplyText(rs[i]).value)
    decreases |rs|
  {
    if |rs| == 0 then Ok([])
    else
      var t :- ReplyText(rs[0]);
      var rest :- Texts(rs[1..]);
      Ok([t] + rest)
  }

  // ------------------------------------------------------------------------ request

  datatype Arg = Word(w: string) | Number(n: int)

  /** A null or blank query searches everything. */
  function SearchText(query: string, isSpace: char -> bool): string {
    if IsNullOrWhiteSpace(Some(query), isSpace) then "*" else query
  }

  /** `(pageNumber - 1) * pageSize` in unchecked 32-bit arithmetic. */
  function Offset(page: int, size: int): (r: int)
    ensures InRange(r, 32)
    ensures InRange((page - 1) * size, 32) ==> r == (page - 1) * size
  {
    Wrap((page - 1) * size, 32)
  }

  function ExecuteRequest(q: RedisQuery, page: int, size: int, isSpace: char -> bool): seq<Arg> {
    [Word(q.indexName), Word(SearchText(q.query, isSpace)), Word("NOCONTENT"),
     Word("LIMIT"), Number(Offset(page, size)), Number(size)]
  }

  function Words(fields: seq<string>): (r: seq<Arg>)
    ensures |r| == |fields| && forall i :: 0 <= i < |fields| ==> r[i] == Word(fields[i])
  {
    seq(|fields|, i requires 0 <= i < |fields| => Word(fields[i]))
  }

  function SelectRequest(q: RedisQuery, fields: seq<string>, page: int, size: int,
                         isSpace: char -> bool): seq<Arg> {
    [Word(q.indexName), Word(SearchText(q.query, isSpace)),
     Word("LIMIT"), Number(Offset(page, size)), Number(size),
     Word("RETURN"), Number(|fields|)] + Words(fields)
  }

  /** Both requests skip `(page - 1) * size` results and take `size`, searching `*` for a
      blank query; a select names the count of returned fields and then the fields. */
  lemma RequestPaging(q: RedisQuery, fields: seq<string>, page: int, size: int, isSpace: char -> bool)
    requires InRange((page - 1) * size, 32)
    ensures var e := ExecuteRequest(q, page, size, isSpace);
      e[1] == Word(if IsNullOrWhiteSpace(Some(q.query), isSpace) then "*" else q.query)
      && e[3..] == [Word("LIMIT"), Number((page - 1) * size), Number(size)]
    ensures var s := SelectRequest(q, fields, page, size, isSpace);
      s[1] == ExecuteRequest(q, page, size, isSpace)[1]
      && s[2..5] == ExecuteRequest(q, page, size, isSpace)[3..]
      && s[5..7] == [Word("RETURN"), Number(|fields|)] && s[7..] == Words(fields)
  {
  }

  // -------------------------------------------------------------------------- paging

  /** The ceiling of `a / b` for a positive divisor. */
  function CeilDiv(a: int, b: int): (r: int)
    requires b > 0
    ensures (r - 1) * b < a <= r * b
  {
    var q := (-a) / b;
    assert -a == q * b + (-a) % b;
    -q
  }

  /** The ceiling lies between 0 and the dividend, so it fits wherever the dividend does. */
  lemma CeilDivBetween(a: int, b: int)
    requires b > 0
    ensures a >= 0 ==> 0 <= CeilDiv(a, b) <= a
    ensures a < 0 ==> a <= CeilDiv(a, b) <= 0
  {
    var r := CeilDiv(a, b);
    ScaleAway(r, b);
    ScaleAway(r - 1, b);
  }

  /** Multiplying by a positive integer moves a number away from zero. */
  lemma ScaleAway(x: int, b: int)
    requires b >= 1
    ensures x >= 0 ==> x * b >= x
    ensures x <= 0 ==> x * b <= x
  {
    assert x * b == x * (b - 1) + x;
    if x >= 0 {
      assert x * (b - 1) >= 0;
    } else {
      assert (-x) * (b - 1) >= 0;
    }
  }

  /** `(int)Math.Ceiling((double)total / size)`. For 32-bit operands the `double` quotient
      never rounds across an integer, so this is the exact ceiling. `None` where the cast
      is platform-defined: an infinite or NaN quotient (size 0) or one outside 32 bits. */
  function Pages(total: int, size: int): (r: Option<int>)
    requires InRange(total, 32)
    ensures size == 0 ==> r.None?
    ensures size > 0 ==> r.Some? && (r.value - 1) * size < total <= r.value * size
    ensures r.Some? ==> InRange(r.value, 32)
  {
    if size == 0 then None
    else
      var c := if size > 0 then CeilDiv(total, size) else CeilDiv(-total, -size);
      CeilDivBetween(total, if size > 0 then size else 1);
      if InRange(c, 32) then Some(c) else None
  }

  lemma PagesExample()
    ensures Pages(45, 20) == Some(3)
    ensures Pages(40, 20) == Some(2)
    ensures Pages(0, 20) == Some(0)
  {
  }

  // -------------------------------------------------------------------------- counter

  /** `TotalQueries` per index name, where an index without a record reads `default(int)`,
      and whether the counter's own round trip to Redis (`GetAsync`, then `SetAsync`)
      succeeds. That round trip runs inside the search's `try`, so when it fails the
      search's `catch` discards what was read. */
  datatype Counters = Counters(counts: map<string, int>, reachable: bool)

  function QueryCount(c: Counters, indexName: string): int {
    if indexName in c.counts then c.counts[indexName] else 0
  }

  /** `totalQueries++` then stored: an unchecked 32-bit increment of one index's count. */
  function Bump(c: Counters, indexName: string): (r: Counters)
    ensures QueryCount(r, indexName) == Wrap(QueryCount(c, indexName) + 1, 32)
    ensures forall k :: k != indexName ==> QueryCount(r, k) == QueryCount(c, k)
    ensures r.reachable == c.reachable
  {
    c.(counts := c.counts[indexName := Wrap(QueryCount(c, indexName) + 1, 32)])
  }

  /** Bumping always changes the count, so a run that bumps is told apart from one that
      does not. */
  lemma BumpChanges(c: Counters, indexName: string)
    ensures QueryCount(Bump(c, indexName), indexName) != QueryCount(c, indexName)
    ensures Bump(c, indexName) != c
  {
    var x := QueryCount(c, indexName);
    if InRange(x, 32) {
      WrapIncrement(x, 32);
    }
  }

  // -------------------------------------------------------------------------- Execute

  datatype Page = Page(ids: seq<string>, totalCount: int, totalPages: Option<int>)

  /** `(new List<string>(), 0, 0)`. */
  const EmptyPage: Page := Page([], 0, Some(0))

  /** The reply handling of `Execute`: `None` for an empty array; otherwise the total from
      element 0 and the ids from the rest; an error where the code throws. */
  function ReadPage(reply: Reply, size: int): (r: Result<Option<Page>>)
    ensures r.Ok? && r.value.None? <==> reply.Array? && |reply.items| == 0
    ensures r.Ok? && r.value.Some? ==>
      (reply.Array? && |reply.items| > 0
       && var p := r.value.value;
          ReplyInt(reply.items[0]) == Ok(p.totalCount)
          && p.totalPages == Pages(p.totalCount, size)
          && |p.ids| == |reply.items| - 1
          && (forall i :: 1 <= i < |reply.items| ==> !reply.items[i].Nil?)
          && forall i :: 0 <= i < |p.ids| ==> p.ids[i] == ReplyText(reply.items[i + 1]).value)
    ensures (reply.Array? && |reply.items| > 0 && ReplyInt(reply.items[0]).Ok?
             && forall i :: 1 <= i < |reply.items| ==> !reply.items[i].Nil?) ==> r.Ok?
  {
    if !reply.Array? then Err(InvalidCast)
    else if |reply.items| == 0 then Ok(None)
    else
      var total :- ReplyInt(reply.items[0]);
      var ids :- Texts(reply.items[1..]);
      Ok(Some(Page(ids, total, Pages(total, size))))
  }

  /** The search produced a page, so the counter is updated. */
  predicate Found(outcome: Result<Reply>, size: int) {
    outcome.Ok? && ReadPage(outcome.value, size).Ok? && ReadPage(outcome.value, size).value.Some?
  }

  /** `Execute(query, page, size)`: ids in reply order after the total; the index's counter
      rises by one exactly when a page was read and the counter's round trip succeeds;
      every exception, including one from that round trip, and the empty reply give the
      empty page with the counters untouched. */
  function Execute(q: RedisQuery, page: int, size: int, backend: seq<Arg> -> Result<Reply>,
                   counters: Counters, isSpace: char -> bool): (r: (Page, Counters))
    ensures var o := backend(ExecuteRequest(q, page, size, isSpace));
      Found(o, size) && counters.reachable ==> r == (ReadPage(o.value, size).value.value, Bump(counters, q.indexName))
    ensures var o := backend(ExecuteRequest(q, page, size, isSpace));
      !Found(o, size) || !counters.reachable ==> r == (EmptyPage, counters)
  {
    var o := backend(ExecuteRequest(q, page, size, isSpace));
    if o.Err? then (EmptyPage, counters)
    else
      match ReadPage(o.value, size)
      case Ok(Some(p)) => if counters.reachable then (p, Bump(counters, q.indexName)) else (EmptyPage, counters)
      case _ => (EmptyPage, counters)
  }

  /** The counter of the searched index changes iff the search and the counter's round trip
      succeeded, and then by one (wrapping); no other index's counter changes. */
  lemma ExecuteCountsOnce(q: RedisQuery, page: int, size: int, backend: seq<Arg> -> Result<Reply>,
                          counters: Counters, isSpace: char -> bool)
    ensures var r := Execute(q, page, size, backend, counters, isSpace);
      (QueryCount(r.1, q.indexName) != QueryCount(counters, q.indexName) <==>
         Found(backend(ExecuteRequest(q, page, size, isSpace)), size) && counters.reachable)
      && (r.1 != counters ==> QueryCount(r.1, q.indexName) == Wrap(QueryCount(counters, q.indexName) + 1, 32))
      && forall k :: k != q.indexName ==> QueryCount(r.1, k) == QueryCount(counters, k)
  {
    BumpChanges(counters, q.indexName);
  }

  /** A reply of the expected shape: the total, then one id per later element; it is lost
      when the counter's round trip fails. */
  lemma ExecuteReadsIds(q: RedisQuery, page: int, size: int, backend: seq<Arg> -> Result<Reply>,
                        counters: Counters, isSpace: char -> bool, total: int, items: seq<Reply>, ids: seq<string>)
    requires InRange(total, 32)
    requires backend(ExecuteRequest(q, page, size, isSpace)) == Ok(Array(items))
    requires |items| == |ids| + 1 && items[0] == Integer(total)
    requires forall i :: 1 <= i < |items| ==> items[i] == Bulk(ids[i - 1])
    ensures Execute(q, page, size, backend, counters, isSpace)
      == if counters.reachable then (Page(ids, total, Pages(total, size)), Bump(counters, q.indexName))
         else (EmptyPage, counters)
  {
    var rest := items[1..];
    assert forall j :: 0 <= j < |rest| ==> rest[j] == Bulk(ids[j]);
    var ts := Texts(rest);
    assert ts.Ok?;
    assert ts.value == ids;
    assert ReadPage(Array(items), size) == Ok(Some(Page(ids, total, Pages(total, size))));
  }

  // ------------------------------------------------------------------- ParseResults

  datatype SelectResult = SelectResult(document: Documents.Document, properties: map<string, string>)

  /** Field `fields[j / 2]` is set to the text at `j + 1` for j = 2k, 2k + 2, ... below the
      length; a later write to the same field wins. */
  predicate LastWrite(fields: seq<string>, m: nat, n: nat)
    requires m < n <= |fields|
  {
    forall m' :: m < m' < n ==> fields[m'] != fields[m]
  }

  /** The inner loop of `ParseResults` from pair `k` on. The names at even positions of
      the reply are never read: values are labelled by position in `fields`. */
  function Properties(values: seq<Reply>, fields: seq<string>, k: nat): (r: Result<map<string, string>>)
    ensures r.Ok? <==>
      (2 * k >= |values|
       || (|values| <= 2 * |fields|
           && forall m :: k <= m && 2 * m < |values| ==> 2 * m + 1 < |values| && !values[2 * m + 1].Nil?))
    decreases |values| - 2 * k
  {
    if 2 * k >= |values| then Ok(map[])
    else if k >= |fields| then Err(ArgumentOutOfRange)
    else if 2 * k + 1 >= |values| then Err(ArgumentOutOfRange)
    else
      var v :- ReplyText(values[2 * k + 1]);
      var rest :- Properties(values, fields, k + 1);
      Ok(map[fields[k] := v] + rest)
  }

  /** One step of `Properties`: the pair at `k` is written under `fields[k]`, and the later
      pairs override it. */
  lemma PropertiesStep(values: seq<Reply>, fields: seq<string>, k: nat)
    requires Properties(values, fields, k).Ok? && 2 * k < |values|
    ensures k < |fields| && 2 * k + 1 < |values| && 2 * (k + 1) <= |values|
    ensures ReplyText(values[2 * k + 1]).Ok? && Properties(values, fields, k + 1).Ok?
    ensures Properties(values, fields, k).value
      == map[fields[k] := ReplyText(values[2 * k + 1]).value] + Properties(values, fields, k + 1).value
  {
  }

  /** The keys are exactly the fields paired with a value. */
  lemma {:induction false} PropertiesKeys(values: seq<Reply>, fields: seq<string>, k: nat)
    requires Properties(values, fields, k).Ok?
    ensures Properties(values, fields, k).value.Keys
      == set m | k <= m < |values| / 2 && m < |fields| :: fields[m]
    decreases |values| - 2 * k
  {
    if 2 * k < |values| {
      var n := |values| / 2;
      PropertiesStep(values, fields, k);
      PropertiesKeys(values, fields, k + 1);
      var rest := Properties(values, fields, k + 1).value;
      var here := set m | k <= m < n && m < |fields| :: fields[m];
      var later := set m | k + 1 <= m < n && m < |fields| :: fields[m];
      assert rest.Keys == later;
      forall f | f in here ensures f == fields[k] || f in later {
        var m :| k <= m < n && m < |fields| && f == fields[m];
        if m > k { assert f in later; }
      }
      assert fields[k] in here;
      forall f | f in later ensures f in here {
        var m :| k + 1 <= m < n && m < |fields| && f == fields[m];
        assert f in here;
      }
    }
  }

  /** Field `fields[m]` holds the value of pair `m` when no later pair names it again. */
  lemma {:induction false} PropertiesLastWrite(values: seq<Reply>, fields: seq<string>, k: nat, m: nat)
    requires Properties(values, fields, k).Ok?
    requires k <= m < |values| / 2 && m < |fields| && LastWrite(fields, m, |values| / 2)
    ensures var r := Properties(values, fields, k).value;
      fields[m] in r && r[fields[m]] == ReplyText(values[2 * m + 1]).value
    decreases |values| - 2 * k
  {
    PropertiesStep(values, fields, k);
    if m == k {
      var n := |values| / 2;
      PropertiesKeys(values, fields, k + 1);
      var rest := Properties(values, fields, k + 1).value;
      forall f | f in rest.Keys ensures f != fields[k] {
        var m' :| k + 1 <= m' < n && m' < |fields| && f == fields[m'];
      }
    } else {
      PropertiesLastWrite(values, fields, k + 1, m);
    }
  }

  /** Each field holds the value of its last pair. */
  lemma PropertiesContents(values: seq<Reply>, fields: seq<string>, k: nat)
    requires Properties(values, fields, k).Ok?
    ensures var r := Properties(values, fields, k).value;
      forall m | k <= m < |values| / 2 && m < |fields| && LastWrite(fields, m, |values| / 2) ::
        fields[m] in r && r[fields[m]] == ReplyText(values[2 * m + 1]).value
  {
    forall m | k <= m < |values| / 2 && m < |fields| && LastWrite(fields, m, |values| / 2)
      ensures var r := Properties(values, fields, k).value;
        fields[m] in r && r[fields[m]] == ReplyText(values[2 * m + 1]).value
    {
      PropertiesLastWrite(values, fields, k, m);
    }
  }

  /** Two replies that differ only in the field names they send parse alike. */
  lemma {:induction false} PropertiesIgnoreNames(values: seq<Reply>, other: seq<Reply>, fields: seq<string>, k: nat)
    requires |values| == |other|
    requires forall m :: k <= m && 2 * m + 1 < |values| ==> values[2 * m + 1] == other[2 * m + 1]
    ensures Properties(values, fields, k) == Properties(other, fields, k)
    decreases |values| - 2 * k
  {
    if 2 * k < |values| {
      PropertiesIgnoreNames(values, other, fields, k + 1);
    }
  }

  /** The id at `j` makes a document and the element after it is a field array that
      parses. */
  predicate Parses(items: seq<Reply>, fields: seq<string>, t: Documents.DocType, j: nat) {
    j + 1 < |items| && !items[j].Nil? && items[j + 1].Array?
    && Documents.Create(t, Some(ReplyText(items[j]).value)).Ok?
    && Properties(items[j + 1].items, fields, 0).Ok?
  }

  /** `res` is the result made from the id at `j` and the field array after it. */
  predicate ResultAt(items: seq<Reply>, fields: seq<string>, t: Documents.DocType, j: nat, res: SelectResult) {
    Parses(items, fields, t, j)
    && res == SelectResult(Documents.Create(t, Some(ReplyText(items[j]).value)).value,
                           Properties(items[j + 1].items, fields, 0).value)
  }

  /** One pass of the loop of `ParseResults`: the id at `i` names the document, the
      element after it must be a field array. */
  function ParseOne(items: seq<Reply>, fields: seq<string>, t: Documents.DocType, i: nat): (r: Result<SelectResult>)
    ensures r.Ok? <==> Parses(items, fields, t, i)
    ensures r.Ok? ==> ResultAt(items, fields, t, i, r.value)
  {
    if i >= |items| then Err(ArgumentOutOfRange)
    else
      var id :- ReplyText(items[i]);
      var document :- Documents.Create(t, Some(id));
      if i + 1 >= |items| then Err(ArgumentOutOfRange)
      else if items[i + 1].Nil? then Err(NullReference)
      else if !items[i + 1].Array? then Err(InvalidCast)
      else
        var properties :- Properties(items[i + 1].items, fields, 0);
        Ok(SelectResult(document, properties))
  }

  /** The loop body of `ParseResults` for one reply, as a function of the position. */
  function Parser(items: seq<Reply>, fields: seq<string>, t: Documents.DocType): nat -> Result<SelectResult> {
    (i: nat) => ParseOne(items, fields, t, i)
  }

  /** The loop of `ParseResults` from position `i` below `n`, two elements per pass; the
      first failing pass ends it. */
  function ParsePairs(n: nat, one: nat -> Result<SelectResult>, i: nat): (r: Result<seq<SelectResult>>)
    ensures i >= n ==> r == Ok([])
    ensures r.Ok? && i < n ==> n - i <= 2 * |r.value| < n - i + 2
    decreases n - i
  {
    if i >= n then Ok([])
    else
      var x :- one(i);
      var rest :- ParsePairs(n, one, i + 2);
      Ok([x] + rest)
  }

  /** Parsing from `i + 2k` gives the results from `i` without the first `k`. */
  lemma {:induction false} ParsePairsDrop(n: nat, one: nat -> Result<SelectResult>, i: nat, k: nat)
    requires ParsePairs(n, one, i).Ok? && k <= |ParsePairs(n, one, i).value|
    ensures ParsePairs(n, one, i + 2 * k).Ok?
    ensures ParsePairs(n, one, i + 2 * k).value == ParsePairs(n, one, i).value[k..]
    decreases k
  {
    if k > 0 {
      var r := ParsePairs(n, one, i).value;
      var rest := ParsePairs(n, one, i + 2).value;
      assert r == [one(i).value] + rest;
      assert r[k..] == rest[k - 1..];
      ParsePairsDrop(n, one, i + 2, k - 1);
      assert (i + 2) + 2 * (k - 1) == i + 2 * k;
    }
  }

  /** Result `k` is what the pass at `i + 2k` produced. */
  lemma ParsePairsAt(n: nat, one: nat -> Result<SelectResult>, i: nat, k: nat)
    requires ParsePairs(n, one, i).Ok? && k < |ParsePairs(n, one, i).value|
    ensures i + 2 * k < n && one(i + 2 * k) == Ok(ParsePairs(n, one, i).value[k])
  {
    var j := i + 2 * k;
    ParsePairsDrop(n, one, i, k);
    assert |ParsePairs(n, one, j).value| > 0;
    assert ParsePairs(n, one, i).value[k] == ParsePairs(n, one, j).value[0];
  }

  /** Every result after the total comes from an id and the field array after it. */
  lemma ParseResultsAt(items: seq<Reply>, fields: seq<string>, t: Documents.DocType)
    requires ParsePairs(|items|, Parser(items, fields, t), 1).Ok?
    ensures var rs := ParsePairs(|items|, Parser(items, fields, t), 1).value;
      forall k :: 0 <= k < |rs| ==> ResultAt(items, fields, t, 2 * k + 1, rs[k])
    ensures var rs := ParsePairs(|items|, Parser(items, fields, t), 1).value;
      |items| == 2 * |rs| + 1 || (|items| == 0 && rs == [])
  {
    var rs := ParsePairs(|items|, Parser(items, fields, t), 1).value;
    forall k | 0 <= k < |rs|
      ensures ResultAt(items, fields, t, 2 * k + 1, rs[k])
    {
      ParsePairsAt(|items|, Parser(items, fields, t), 1, k);
      assert ParseOne(items, fields, t, 2 * k + 1) == Ok(rs[k]);
    }
    if |rs| > 0 {
      assert ResultAt(items, fields, t, 2 * (|rs| - 1) + 1, rs[|rs| - 1]);
    }
  }

  /** `ParseResults`: one result per (id, field array) pair after the total. */
  function ParseResults(items: seq<Reply>, fields: seq<string>, t: Documents.DocType): (r: Result<seq<SelectResult>>)
    ensures r.Ok? ==> |items| == 2 * |r.value| + 1 || (|items| == 0 && r.value == [])
    ensures r.Ok? ==> forall k :: 0 <= k < |r.value| ==> ResultAt(items, fields, t, 2 * k + 1, r.value[k])
  {
    var r := ParsePairs(|items|, Parser(items, fields, t), 1);
    if r.Ok? then ParseResultsAt(items, fields, t); r else r
  }

  // ------------------------------------------------------------------------- Select

  datatype Selection = Selection(results: seq<SelectResult>, totalCount: int, totalPages: Option<int>)

  const NoSelection: Selection := Selection([], 0, Some(0))

  /** The reply handling of `SelectAsync`. */
  function ReadSelection(reply: Reply, fields: seq<string>, size: int, t: Documents.DocType): (r: Result<Option<Selection>>)
    ensures r.Ok? && r.value.None? <==> reply.Array? && |reply.items| == 0
    ensures r.Ok? && r.value.Some? ==>
      (reply.Array? && |reply.items| > 0
       && var s := r.value.value;
          ReplyInt(reply.items[0]) == Ok(s.totalCount)
          && s.totalPages == Pages(s.totalCount, size)
          && ParseResults(reply.items, fields, t) == Ok(s.results))
  {
    if !reply.Array? then Err(InvalidCast)
    else if |reply.items| == 0 then Ok(None)
    else
      var total :- ReplyInt(reply.items[0]);
      var results :- ParseResults(reply.items, fields, t);
      Ok(Some(Selection(results, total, Pages(total, size))))
  }

  /** `SelectAsync(query, fields, page, size)`: as `Execute`, but returning the requested
      fields of each hit and never touching the counters; every failure, including one
      in parsing, gives the empty selection. */
  function Select(q: RedisQuery, fields: seq<string>, page: int, size: int, t: Documents.DocType,
                  backend: seq<Arg> -> Result<Reply>, isSpace: char -> bool): (r: Selection)
    ensures var o := backend(SelectRequest(q, fields, page, size, isSpace));
      o.Ok? && ReadSelection(o.value, fields, size, t).Ok? && ReadSelection(o.value, fields, size, t).value.Some?
      ==> r == ReadSelection(o.value, fields, size, t).value.value
    ensures var o := backend(SelectRequest(q, fields, page, size, isSpace));
      o.Err? || ReadSelection(o.value, fields, size, t).Err? || ReadSelection(o.value, fields, size, t).value.None?
      ==> r == NoSelection
  {
    var o := backend(SelectRequest(q, fields, page, size, isSpace));
    if o.Err? then NoSelection
    else
      match ReadSelection(o.value, fields, size, t)
      case Ok(Some(s)) => s
      case _ => NoSelection
  }

  /** `GetSelectedFields`: the members of a `new { ... }`, the name of a member, and
      through a unary wrapper the fields of its operand. A `new` of a named type has no
      member list, and selecting over that null list throws `ArgumentNullException`. The operand is re-wrapped as a
      lambda returning `object`, which is rejected when the operand's static type is a
      value type (`valueTyped`): a boxing conversion cannot be looked through. Anything
      else is rejected. */
  function GetSelectedFields(body: Expressions.Expr, valueTyped: Expressions.Expr -> bool): (r: Result<seq<string>>)
    ensures r.Err? ==> r.error == ArgumentError || r.error == ArgumentNull
    ensures body.New? && body.members.Some? ==> r == Ok(body.members.value)
    ensures body.New? && body.members.None? ==> r == Err(ArgumentNull)
    ensures body.Member? ==> r == Ok([body.name])
    ensures body.Unary? && valueTyped(body.operand) ==> r == Err(ArgumentError)
    ensures !body.New? && !body.Member? && !body.Unary? ==> r == Err(ArgumentError)
    decreases body
  {
    match body
    case New(_, members) => if members.Some? then Ok(members.value) else Err(ArgumentNull)
    case Member(_, name, _) => Ok([name])
    case Unary(_, operand) =>
      if valueTyped(operand) then Err(ArgumentError) else GetSelectedFields(operand, valueTyped)
    case _ => Err(ArgumentError)
  }

  /** Every layer is a unary node whose operand is not value-typed. */
  predicate UnaryOverReference(layers: seq<Expressions.Layer>, m: Expressions.Expr, valueTyped: Expressions.Expr -> bool)
    decreases |layers|
  {
    |layers| == 0
    || (layers[0].InUnary? && !valueTyped(Expressions.Wrap(layers[1..], m))
        && UnaryOverReference(layers[1..], m, valueTyped))
  }

  /** Through unary layers around reference-typed operands, a member selects its name. */
  lemma {:induction false} SelectedThroughUnary(layers: seq<Expressions.Layer>, m: Expressions.Expr,
                                                valueTyped: Expressions.Expr -> bool)
    requires m.Member? && UnaryOverReference(layers, m, valueTyped)
    ensures GetSelectedFields(Expressions.Wrap(layers, m), valueTyped) == Ok([m.name])
    decreases |layers|
  {
    if |layers| > 0 {
      SelectedThroughUnary(layers[1..], m, valueTyped);
      assert Expressions.Wrap(layers, m) == Expressions.Unary(layers[0].op, Expressions.Wrap(layers[1..], m));
    }
  }

  /** Under unary wrappers around reference-typed operands a member selects exactly the
      name `GetMemberName` gives it; a unary wrapper around a value-typed operand, such as
      the boxing of an `int` property, and a lambda wrapper, which `GetMemberName` looks
      through, are rejected here. */
  lemma SelectedFieldsAgreeWithMemberName(layers: seq<Expressions.Layer>, m: Expressions.Expr,
                                          valueTyped: Expressions.Expr -> bool)
    requires m.Member?
    ensures UnaryOverReference(layers, m, valueTyped) ==>
      GetSelectedFields(Expressions.Wrap(layers, m), valueTyped) == Ok([m.name])
      && Expressions.GetMemberName(Expressions.Wrap(layers, m)) == Ok(m.name)
    ensures |layers| > 0 && layers[0].InUnary? && valueTyped(Expressions.Wrap(layers[1..], m)) ==>
      GetSelectedFields(Expressions.Wrap(layers, m), valueTyped) == Err(ArgumentError)
    ensures |layers| > 0 && layers[0].InLambda? ==>
      GetSelectedFields(Expressions.Wrap(layers, m), valueTyped) == Err(ArgumentError)
  {
    Expressions.GetMemberNameWrapped(layers, m);
    if UnaryOverReference(layers, m, valueTyped) {
      SelectedThroughUnary(layers, m, valueTyped);
    }
    if |layers| > 0 {
      var inner := Expressions.Wrap(layers[1..], m);
      if layers[0].InUnary? {
        assert Expressions.Wrap(layers, m) == Expressions.Unary(layers[0].op, inner);
      } else {
        assert Expressions.Wrap(layers, m) == Expressions.Lambda(inner);
      }
    }
  }

  // ------------------------------------------------------- Index/QueryExtensions ids

  /** After the first element: drop null elements, keep texts containing `:`, and keep
      the part after the last `:` of each. */
  function Extract(rs: seq<Reply>): (r: seq<string>)
    ensures |r| <= |rs|
    ensures forall i :: 0 <= i < |r| ==> ':' !in r[i]
    decreases |rs|
  {
    if |rs| == 0 then [] else Kept(rs[0]) + Extract(rs[1..])
  }

  /** What one element contributes. */
  function Kept(r: Reply): (ids: seq<string>)
    ensures |ids| <= 1 && forall i :: 0 <= i < |ids| ==> ':' !in ids[i]
  {
    if !r.Nil? && ':' in ReplyText(r).value then [LastSegment(ReplyText(r).value, ':')] else []
  }

  /** Extraction works element by element, so kept ids keep their relative order. */
  lemma {:induction false} ExtractConcat(a: seq<Reply>, b: seq<Reply>)
    ensures Extract(a + b) == Extract(a) + Extract(b)
    decreases |a|
  {
    if |a| == 0 {
      assert a + b == b;
    } else {
      assert (a + b)[0] == a[0];
      assert (a + b)[1..] == a[1..] + b;
      ExtractConcat(a[1..], b);
      assert Extract(a + b) == Kept(a[0]) + (Extract(a[1..]) + Extract(b));
    }
  }

  /** A `prefix:id` key yields its id. */
  lemma ExtractKey(prefix: string, id: string)
    requires ':' !in id
    ensures Extract([Bulk(prefix + ":" + id)]) == [id]
  {
    var s := prefix + ":" + id;
    assert s == prefix + [':'] + id;
    LastSegmentAfter(prefix, ':', id);
    assert ':' in s by { assert s[|prefix|] == ':'; }
  }

  /** The private `SearchAsync(indexName, query)`. The backend gives the raw reply array,
      `None` for a null result; a null result still counts as a query. A failure of the
      counter's round trip discards the ids. */
  function SearchIds(indexName: string, query: IndexQuery.Query,
                     backend: (string, string) -> Result<Option<seq<Reply>>>, counters: Counters): (r: (seq<string>, Counters))
    ensures var o := backend(indexName, IndexQuery.Render(query));
      (o.Err? || !counters.reachable ==> r == ([], counters))
      && (o.Ok? && counters.reachable ==> r.1 == Bump(counters, indexName))
      && (o.Ok? && counters.reachable && o.value.Some? && |o.value.value| > 0 ==>
            r.0 == Extract(o.value.value[1..]) && |r.0| <= |o.value.value| - 1)
      && (o.Ok? && (o.value.None? || |o.value.value| == 0) ==> r.0 == [])
    ensures forall i :: 0 <= i < |r.0| ==> ':' !in r.0[i]
  {
    var o := backend(indexName, IndexQuery.Render(query));
    if o.Err? || !counters.reachable then ([], counters)
    else
      var ids := if o.value.Some? && |o.value.value| > 0 then Extract(o.value.value[1..]) else [];
      (ids, Bump(counters, indexName))
  }

  /** `ContainsAsync(query, indexName)`. */
  function Contains(indexName: string, query: IndexQuery.Query,
                    backend: (string, string) -> Result<Option<seq<Reply>>>, counters: Counters): (r: (bool, Counters))
    ensures r.0 <==> |SearchIds(indexName, query, backend, counters).0| > 0
    ensures r.1 == SearchIds(indexName, query, backend, counters).1
  {
    var found := SearchIds(indexName, query, backend, counters);
    (|found.0| > 0, found.1)
  }

  /** `ids.Select(id => DocumentFactory.Create(id)).ToList()`: with no ids nothing is
      created; otherwise the first failure (which every id shares) is raised. */
  function CreateAll(t: Documents.DocType, ids: seq<string>): (r: Result<seq<Documents.Document>>)
    ensures r.Ok? <==> |ids| == 0 || Documents.CreateEmpty(Some(t)).Ok?
    ensures r.Ok? ==>
      (|r.value| == |ids| && forall i :: 0 <= i < |ids| ==>
         Documents.Create(t, Some(ids[i])).Ok? && r.value[i] == Documents.Create(t, Some(ids[i])).value)
  {
    if |ids| == 0 then Ok([])
    else
      var _ :- Documents.CreateEmpty(Some(t));
      Ok(seq(|ids|, i requires 0 <= i < |ids| => Documents.Create(t, Some(ids[i])).value))
  }

  /** A document's full key among the ids gives back that document. */
  lemma CreateAllKeys(t: Documents.DocType, ids: seq<string>, i: nat, id: string)
    requires i < |ids| && ids[i] == Documents.GetKey(Documents.Document(t.indexName, Some(id)))
    requires !Occurs(id, Documents.KeyPrefix(t.indexName))
    ensures CreateAll(t, ids).Ok? <==> Documents.CreateEmpty(Some(t)).Ok?
    ensures CreateAll(t, ids).Ok? ==> CreateAll(t, ids).value[i] == Documents.Document(t.indexName, Some(id))
  {
    if CreateAll(t, ids).Ok? {
      Documents.CreateFromKey(t, id);
    }
  }

  /** Ids without a `:` are stored unchanged by `Create`. */
  lemma NoColonNoPrefix(s: string, indexName: string)
    requires ':' !in s
    ensures !Occurs(s, Documents.KeyPrefix(indexName))
  {
    var p := Documents.KeyPrefix(indexName);
    forall i | 0 <= i <= |s| - |p|
      ensures !OccursAt(s, p, i)
    {
      assert s[i..i + |p|][|indexName|] == s[i + |indexName|] != ':';
    }
  }

  /** `SearchAsync<TDocument>(query)` as written: the temporary instance is created from a
      null id, which `Create` dereferences, so the call always fails before searching. */
  function TypedSearch(t: Documents.DocType, query: IndexQuery.Query,
                       backend: (string, string) -> Result<Option<seq<Reply>>>, counters: Counters): (r: Result<(seq<Documents.Document>, Counters)>)
    ensures r.Err?
    ensures r.error == (if Documents.CreateEmpty(Some(t)).Err? then Documents.CreateEmpty(Some(t)).error else NullReference)
  {
    match Documents.Create(t, None)
    case Err(e) => Err(e)
    case Ok(temp) =>
      var found := SearchIds(temp.indexName, query, backend, counters);
      match CreateAll(t, found.0)
      case Err(e) => Err(e)
      case Ok(documents) => Ok((documents, found.1))
  }

  /** `SearchAsync<TDocument>(query)` with the index name taken from an empty instance, as
      evidently intended: one document per extracted id, in order, each with that id. */
  function TypedSearchFixed(t: Documents.DocType, query: IndexQuery.Query,
                            backend: (string, string) -> Result<Option<seq<Reply>>>, counters: Counters): (r: Result<(seq<Documents.Document>, Counters)>)
    ensures Documents.CreateEmpty(Some(t)).Ok? <==> r.Ok?
    ensures r.Ok? ==> var found := SearchIds(t.indexName, query, backend, counters);
      r.value.1 == found.1 && |r.value.0| == |found.0|
      && forall i :: 0 <= i < |found.0| ==> r.value.0[i] == Documents.Document(t.indexName, Some(found.0[i]))
  {
    var temp :- Documents.CreateEmpty(Some(t));
    var found := SearchIds(t.indexName, query, backend, counters);
    var documents := CreateAll(t, found.0).value;
    forall i | 0 <= i < |found.0|
      ensures documents[i] == Documents.Document(t.indexName, Some(found.0[i]))
    {
      NoColonNoPrefix(found.0[i], t.indexName);
    }
    Ok((documents, found.1))
  }

  /** `ContainsAsync<TDocument>(query)` as written: it awaits the typed search, which
      always fails, so the check never answers. */
  function TypedContains(t: Documents.DocType, query: IndexQuery.Query,
                         backend: (string, string) -> Result<Option<seq<Reply>>>, counters: Counters): (r: Result<(bool, Counters)>)
    ensures r.Err?
    ensures r.error == (if Documents.CreateEmpty(Some(t)).Err? then Documents.CreateEmpty(Some(t)).error else NullReference)
  {
    match TypedSearch(t, query, backend, counters)
    case Err(e) => Err(e)
    case Ok(found) => Ok((|found.0| > 0, found.1))
  }

  /** `ContainsAsync<TDocument>(query)` over the corrected typed search: true exactly when
      the search of the type's index finds an id. */
  function TypedContainsFixed(t: Documents.DocType, query: IndexQuery.Query,
                              backend: (string, string) -> Result<Option<seq<Reply>>>, counters: Counters): (r: Result<(bool, Counters)>)
    ensures r.Ok? <==> Documents.CreateEmpty(Some(t)).Ok?
    ensures r.Ok? ==> r.value == Contains(t.indexName, query, backend, counters)
  {
    var found :- TypedSearchFixed(t, query, backend, counters);
    Ok((|found.0| > 0, found.1))
  }
}
