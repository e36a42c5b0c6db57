/** `RedisQuery`: the record a predicate query travels in. */
module RedisQueries {
  /** The index to search, the RediSearch text, and the predicate's own `ToString()`. */
  datatype RedisQuery = RedisQuery(indexName: string, query: string, linqQuery: string)
}

/** `AsyncRedisDocuments.LinqToRedisConverter`: the lowering of compiled predicate text
    (in the `Query/` snapshot of the visitor) to RediSearch syntax.

    The conversion is three `Regex.Replace` passes. The two whole-word passes over `AND`
    and `OR` are modelled exactly, over an abstract `\w` class (`isWord`). The condition
    pass is modelled over its decomposition: the caller supplies the rewritten text cut
    into plain text and regex matches (`Piece`s), each match carrying its four captured
    groups, and the pass is the concatenation with every match replaced by the
    evaluator's output. */
module QueryConverter {
  import opened Text
  import opened Escaping
  import opened RedisQueries

  /** The whole-word rewrites: `AND` becomes a space, then `OR` becomes ` | `. */
  function RewriteLogical(linq: string, isWord: char -> bool): string {
    ReplaceWord(ReplaceWord(linq, "AND", " ", isWord), "OR", " | ", isWord)
  }

  /** Text with no whole-word `AND` or `OR` passes the logical rewrite unchanged. */
  lemma RewriteLogicalAbsent(linq: string, isWord: char -> bool)
    requires forall j :: 0 <= j < |linq| ==> !WholeWordAt(linq, "AND", j, isWord)
    requires forall j :: 0 <= j < |linq| ==> !WholeWordAt(linq, "OR", j, isWord)
    ensures RewriteLogical(linq, isWord) == linq
  {
    ReplaceWordAbsent(linq, "AND", " ", isWord);
    ReplaceWordAbsent(linq, "OR", " | ", isWord);
  }

  // ------------------------------------------------------------------ the evaluator

  /** The operators the condition pattern `[<>!=]=?|==` can capture. */
  const Operators: set<string> := {"<", ">", "!", "=", "<=", ">=", "!=", "=="}

  /** The operators the numeric `switch` handles; the other two captured forms fall out
      of it. */
  const NumericOperators: set<string> := {"==", "!=", ">", ">=", "<", "<="}

  /** The characters the tag escaper prefixes with a backslash, in the order of its
      `Replace` calls. Backslash and `"` are not among them. */
  const TagReserved: seq<char> :=
    ['-', ':', '\'', '.', ',', '(', ')', '[', ']', '{', '}', '|', '&', '~', '!', '*', '?',
     '^', '$', '@']

  lemma TagReservedDistinct()
    ensures Distinct(TagReserved)
  {
    var a := ['-', ':', '\'', '.', ',', '(', ')'];
    var b := ['[', ']', '{', '}', '|', '&', '~'];
    var c := ['!', '*', '?', '^', '$', '@'];
    assert TagReserved == (a + b) + c;
    DistinctConcat(a, b);
    DistinctConcat(a + b, c);
  }

  lemma TagReservedIsWellOrdered()
    ensures Distinct(TagReserved) && BackslashFirst(TagReserved)
    ensures |TagReserved| == 20 && '\\' !in TagReserved && '"' !in TagReserved
  {
    TagReservedDistinct();
  }

  /** `EscapeSpecialCharacters`: the `Replace` chain, which is the per-character escape
      over `TagReserved`. */
  function EscapeTag(input: string): (r: string)
    ensures r == EscapeWith(input, TagReserved)
  {
    if |input| == 0 then input
    else
      TagReservedIsWellOrdered();
      ChainIsMap(input, TagReserved);
      Chain(input, TagReserved)
  }

  /** `EscapeTextSearch`: drop every character that is neither a word nor a white-space
      character, then put a backslash in front of each space. */
  function EscapeTextSearch(input: string, isWord: char -> bool, isSpace: char -> bool): (r: string)
    ensures r == ReplaceChar(Filter(input, c => isWord(c) || isSpace(c)), ' ', "\\ ")
  {
    if |input| == 0 then input
    else
      var kept := Filter(input, c => isWord(c) || isSpace(c));
      ReplaceSingle(kept, ' ', "\\ ");
      Replace(kept, " ", "\\ ")
  }

  /** A value made of word characters only is its own text-search term. */
  lemma EscapeTextSearchWords(input: string, isWord: char -> bool, isSpace: char -> bool)
    requires forall i :: 0 <= i < |input| ==> isWord(input[i]) && input[i] != ' '
    ensures EscapeTextSearch(input, isWord, isSpace) == input
  {
    FilterAllKept(input, c => isWord(c) || isSpace(c));
    ReplaceCharAbsent(input, ' ', "\\ ");
  }

  /** The clause a recognised condition becomes, before any negation. */
  function Clause(field: string, term: string): string {
    "(@" + field + ":" + term + ")"
  }

  function Negated(negate: bool, clause: string): string {
    if negate then "-" + clause else clause
  }

  /** The range the numeric `switch` writes for an operator it handles. */
  function NumericRange(op: string, value: string): (r: string)
    requires op in NumericOperators
    ensures op == "==" || op == "!=" ==> r == "[" + value + " " + value + "]"
    ensures op == ">" || op == ">=" ==> r == "[" + value + " +inf]"
    ensures op == "<" || op == "<=" ==> r == "[-inf " + value + "]"
  {
    if op == "==" || op == "!=" then "[" + value + " " + value + "]"
    else if op == ">" || op == ">=" then "[" + value + " +inf]"
    else "[-inf " + value + "]"
  }

  /** A condition the evaluator turns into a field clause; all others fall through to
      the raw `(field:value)`. */
  predicate Recognised(indicator: string, op: string) {
    (indicator == "Numeric" && op in NumericOperators) || indicator == "Text" || indicator == "Tag"
  }

  /** `ConditionEvaluator`, as a function of the four captured groups: a numeric
      condition becomes a range (negated only for `!=`), a text or tag condition a term
      (negated for every operator but `==`), anything else the raw pair. */
  function Evaluate(field: string, indicator: string, op: string, value: string,
                    isWord: char -> bool, isSpace: char -> bool): (r: string)
    ensures !Recognised(indicator, op) ==> r == "(" + field + ":" + value + ")"
    ensures indicator == "Numeric" && op in NumericOperators ==>
      r == Negated(op == "!=", Clause(field, NumericRange(op, value)))
    ensures indicator == "Text" ==>
      r == Negated(op != "==", Clause(field, EscapeTextSearch(value, isWord, isSpace)))
    ensures indicator == "Tag" ==>
      r == Negated(op != "==", Clause(field, "{" + EscapeWith(value, TagReserved) + "}"))
  {
    if indicator == "Numeric" && op in NumericOperators then
      Negated(op == "!=", Clause(field, NumericRange(op, value)))
    else if indicator == "Text" then
      Negated(op != "==", Clause(field, EscapeTextSearch(value, isWord, isSpace)))
    else if indicator == "Tag" then
      Negated(op != "==", Clause(field, "{" + EscapeTag(value) + "}"))
    else "(" + field + ":" + value + ")"
  }

  /** Strict and inclusive bounds lower to the same range. */
  lemma StrictBoundsIndistinct(field: string, value: string, isWord: char -> bool, isSpace: char -> bool)
    ensures Evaluate(field, "Numeric", ">", value, isWord, isSpace)
         == Evaluate(field, "Numeric", ">=", value, isWord, isSpace)
    ensures Evaluate(field, "Numeric", "<", value, isWord, isSpace)
         == Evaluate(field, "Numeric", "<=", value, isWord, isSpace)
  {
  }

  /** A negated condition is the positive clause with a leading `-`. */
  lemma NegationIsPrefix(field: string, indicator: string, op: string, value: string,
                         isWord: char -> bool, isSpace: char -> bool)
    requires (indicator == "Numeric" && op == "!=") || (indicator in {"Text", "Tag"} && op != "==")
    ensures Evaluate(field, indicator, op, value, isWord, isSpace)
         == "-" + Evaluate(field, indicator, "==", value, isWord, isSpace)
  {
  }

  /** The value of a tag condition can be read back from its clause. */
  lemma TagValueRecoverable(field: string, value: string, isWord: char -> bool, isSpace: char -> bool)
    ensures exists term ::
      Evaluate(field, "Tag", "==", value, isWord, isSpace) == Clause(field, "{" + term + "}")
      && Unescape(term, TagReserved) == value
  {
    var term := EscapeWith(value, TagReserved);
    UnescapeEscape(value, TagReserved);
    assert Evaluate(field, "Tag", "==", value, isWord, isSpace) == Clause(field, "{" + term + "}");
  }

  // --------------------------------------------------------- the condition pass

  /** The rewritten text cut at the condition pattern's matches. */
  datatype Piece =
    | Plain(text: string)
    | Condition(field: string, indicator: string, colon: bool, op: string, gap: string, value: string)

  /** The text a piece covers: for a match, `(@field|indicator|[:]op gap value)`. */
  function PieceText(p: Piece): string {
    match p
    case Plain(t) => t
    case Condition(f, k, colon, op, gap, v) =>
      "(@" + f + "|" + k + "|" + (if colon then ":" else "") + op + gap + v + ")"
  }

  predicate AllOf(s: string, p: char -> bool) {
    forall i :: 0 <= i < |s| ==> p(s[i])
  }

  /** A match of `\(@(\w+)\|(\w+)\|[:]?([<>!=]=?|==)\s*(\S+)\)`. */
  predicate Matches(p: Piece, isWord: char -> bool, isSpace: char -> bool) {
    p.Condition? ==>
      |p.field| > 0 && AllOf(p.field, isWord)
      && |p.indicator| > 0 && AllOf(p.indicator, isWord)
      && p.op in Operators
      && AllOf(p.gap, isSpace)
      && |p.value| > 0 && AllOf(p.value, c => !isSpace(c))
  }

  function Source(ps: seq<Piece>): string
    decreases |ps|
  {
    if |ps| == 0 then "" else PieceText(ps[0]) + Source(ps[1..])
  }

  function LowerPiece(p: Piece, isWord: char -> bool, isSpace: char -> bool): string {
    match p
    case Plain(t) => t
    case Condition(f, k, _, op, _, v) => Evaluate(f, k, op, v, isWord, isSpace)
  }

  /** The condition pass: each match replaced by the evaluator's output, plain text kept. */
  function Lower(ps: seq<Piece>, isWord: char -> bool, isSpace: char -> bool): string
    decreases |ps|
  {
    if |ps| == 0 then "" else LowerPiece(ps[0], isWord, isSpace) + Lower(ps[1..], isWord, isSpace)
  }

  /** Text in which the pattern matched nothing leaves the pass unchanged. */
  lemma {:induction false} LowerPlain(ps: seq<Piece>, isWord: char -> bool, isSpace: char -> bool)
    requires forall i :: 0 <= i < |ps| ==> ps[i].Plain?
    ensures Lower(ps, isWord, isSpace) == Source(ps)
    decreases |ps|
  {
    if |ps| > 0 {
      LowerPlain(ps[1..], isWord, isSpace);
    }
  }

  // ------------------------------------------------------------------- Convert

  /** `Convert(string)`: rewrite the logical words, lower each condition, drop one `(`
      from a leading `((`, and wrap the result in single quotes. `ps` is the rewritten
      text cut at the condition pattern's matches. */
  function Convert(linq: string, ps: seq<Piece>, isWord: char -> bool, isSpace: char -> bool): (r: string)
    requires Source(ps) == RewriteLogical(linq, isWord)
    requires forall i :: 0 <= i < |ps| ==> Matches(ps[i], isWord, isSpace)
    ensures |r| >= 2 && r[0] == '\'' && r[|r| - 1] == '\''
    ensures var lowered := Lower(ps, isWord, isSpace);
      r[1..|r| - 1] == if StartsWith(lowered, "((") then lowered[1..] else lowered
  {
    var result := Lower(ps, isWord, isSpace);
    var result := if StartsWith(result, "((") then result[1..] else result;
    "'" + result + "'"
  }

  /** Predicate text without conditions or logical words comes back quoted, with at most
      one leading parenthesis dropped. */
  lemma ConvertPlain(linq: string, ps: seq<Piece>, isWord: char -> bool, isSpace: char -> bool)
    requires Source(ps) == linq
    requires forall i :: 0 <= i < |ps| ==> ps[i].Plain?
    requires forall j :: 0 <= j < |linq| ==> !WholeWordAt(linq, "AND", j, isWord)
    requires forall j :: 0 <= j < |linq| ==> !WholeWordAt(linq, "OR", j, isWord)
    ensures RewriteLogical(linq, isWord) == linq
    ensures Convert(linq, ps, isWord, isSpace)
         == "'" + (if StartsWith(linq, "((") then linq[1..] else linq) + "'"
  {
    RewriteLogicalAbsent(linq, isWord);
    LowerPlain(ps, isWord, isSpace);
    assert Lower(ps, isWord, isSpace) == linq;
  }

  /** `Convert(RedisQuery)`: the conversion of the query's predicate text. */
  function ConvertQuery(q: RedisQuery, ps: seq<Piece>, isWord: char -> bool, isSpace: char -> bool): string
    requires Source(ps) == RewriteLogical(q.linqQuery, isWord)
    requires forall i :: 0 <= i < |ps| ==> Matches(ps[i], isWord, isSpace)
  {
    Convert(q.linqQuery, ps, isWord, isSpace)
  }
}

/** `AsyncRedisDocuments.QueryBuilder.LinqToRedisConverter`: the second snapshot, whose
    condition pattern expects a one-character kind indicator (`#`, `$` or `~`) while its
    evaluator compares the indicator with `|Numeric|`, `|Text|` and `|Tag|`. */
module BuilderConverter {
  import opened Text
  import opened Escaping
  import opened Kinds
  import IndexQuery
  import QueryConverter

  /** The characters the escaper prefixes with a backslash: backslash first, then the
      reserved set of the clause builder, then `@`. */
  const Reserved: seq<char> := IndexQuery.Reserved + ['@']

  lemma ReservedIsWellOrdered()
    ensures Distinct(Reserved) && BackslashFirst(Reserved)
    ensures |Reserved| == 22 && Reserved[0] == '\\' && '@' in Reserved && '"' in Reserved
  {
    IndexQuery.ReservedIsWellOrdered();
    assert Reserved[|Reserved| - 1] == '@';
  }

  /** `EscapeSpecialCharacters`: the `Replace` chain, which is the per-character escape
      over `Reserved`. */
  function EscapeTag(input: string): (r: string)
    ensures r == EscapeWith(input, Reserved)
  {
    if |input| == 0 then input
    else
      ReservedIsWellOrdered();
      ChainIsMap(input, Reserved);
      Chain(input, Reserved)
  }

  /** The escape is reversible. */
  lemma EscapeTagReversible(s: string)
    ensures Unescape(EscapeTag(s), Reserved) == s
  {
    UnescapeEscape(s, Reserved);
  }

  predicate IsQuote(c: char) {
    c == '"'
  }

  /** `s` is `r`, starting at position `k`, with nothing but `"` before and after it. */
  predicate Enclosed(s: string, k: int, r: string) {
    0 <= k <= |s| - |r| && r == s[k..k + |r|]
    && (forall i :: 0 <= i < k ==> s[i] == '"')
    && (forall i :: k + |r| <= i < |s| ==> s[i] == '"')
  }

  /** `value.Trim('"')`: what is left when every leading and trailing `"` is removed. */
  function TrimQuotes(s: string): (r: string)
    ensures |r| <= |s|
    ensures |r| > 0 ==> r[0] != '"' && r[|r| - 1] != '"'
    ensures exists k :: Enclosed(s, k, r)
  {
    var mid := TrimStart(s, IsQuote);
    var r := TrimEnd(mid, IsQuote);
    var k := |s| - |mid|;
    assert forall i :: k + |r| <= i < |s| ==> s[i] == mid[i - k];
    assert Enclosed(s, k, r);
    r
  }

  /** The class `[a-zA-Z0-9]`. */
  predicate IsAsciiAlphanumeric(c: char) {
    'a' <= c <= 'z' || 'A' <= c <= 'Z' || '0' <= c <= '9'
  }

  /** The text-search term: quotes trimmed, then every character outside `[a-zA-Z0-9]`
      removed. */
  function TextTerm(value: string): (r: string)
    ensures |r| <= |value|
    ensures forall i :: 0 <= i < |r| ==> IsAsciiAlphanumeric(r[i])
    ensures Subsequence(r, TrimQuotes(value))
    ensures forall c :: IsAsciiAlphanumeric(c) ==> Count(r, c) == Count(TrimQuotes(value), c)
  {
    Filter(TrimQuotes(value), IsAsciiAlphanumeric)
  }

  /** A word of letters and digits is its own term. */
  lemma TextTermOfWord(value: string)
    requires forall i :: 0 <= i < |value| ==> IsAsciiAlphanumeric(value[i])
    ensures TextTerm(value) == value
  {
    if |value| > 0 {
      assert !IsQuote(value[0]);
      assert !IsQuote(value[|value| - 1]);
    }
    assert TrimQuotes(value) == value;
    FilterAllKept(value, IsAsciiAlphanumeric);
  }

  function Negated(negate: bool, clause: string): string {
    if negate then "-" + clause else clause
  }

  /** The indicators the evaluator compares with: the kind markers. */
  predicate Recognised(indicator: string, op: string) {
    (indicator == "|Numeric|" && op in QueryConverter.NumericOperators)
    || indicator == "|Text|" || indicator == "|Tag|"
  }

  /** `ConditionEvaluator`, as a function of the four captured groups: as in the other
      snapshot, but without the surrounding parentheses, with the quotes trimmed from text
      and tag values, and with every unrecognised condition written as `field:value`. */
  function Evaluate(field: string, indicator: string, op: string, value: string): (r: string)
    ensures !Recognised(indicator, op) ==> r == field + ":" + value
    ensures indicator == "|Numeric|" && op in QueryConverter.NumericOperators ==>
      r == Negated(op == "!=", "@" + field + ":" + QueryConverter.NumericRange(op, value))
    ensures indicator == "|Text|" ==> r == Negated(op != "==", "@" + field + ":" + TextTerm(value))
    ensures indicator == "|Tag|" ==>
      r == Negated(op != "==", "@" + field + ":{" + EscapeWith(TrimQuotes(value), Reserved) + "}")
  {
    if indicator == "|Numeric|" && op in QueryConverter.NumericOperators then
      Negated(op == "!=", "@" + field + ":" + QueryConverter.NumericRange(op, value))
    else if indicator == "|Text|" then
      Negated(op != "==", "@" + field + ":" + TextTerm(value))
    else if indicator == "|Tag|" then
      Negated(op != "==", "@" + field + ":{" + EscapeTag(TrimQuotes(value)) + "}")
    else field + ":" + value
  }

  /** Strict and inclusive bounds lower to the same range. */
  lemma StrictBoundsIndistinct(field: string, value: string)
    ensures Evaluate(field, "|Numeric|", ">", value) == Evaluate(field, "|Numeric|", ">=", value)
    ensures Evaluate(field, "|Numeric|", "<", value) == Evaluate(field, "|Numeric|", "<=", value)
  {
  }

  /** A one-character indicator is never one of the three kind markers, so every
      condition the pattern matches becomes a bare `field:value`. */
  lemma OneCharIndicator(field: string, indicator: char, op: string, value: string)
    ensures Evaluate(field, [indicator], op, value) == field + ":" + value
  {
  }

  // --------------------------------------------------------- the condition pass

  /** The rewritten text cut at the matches of
      `@(\w+)([#\$~]):(==|!=|>=|<=|>|<)(("[^"]*"|\d+))`. */
  datatype Piece =
    | Plain(text: string)
    | Condition(field: string, indicator: char, op: string, value: string)

  function PieceText(p: Piece): string {
    match p
    case Plain(t) => t
    case Condition(f, k, op, v) => "@" + f + [k] + ":" + op + v
  }

  /** A double-quoted run without inner quotes, or one or more decimal digits. */
  predicate IsConditionValue(v: string) {
    (|v| >= 2 && v[0] == '"' && v[|v| - 1] == '"' && '"' !in v[1..|v| - 1])
    || (|v| > 0 && AllDigits(v))
  }

  predicate Matches(p: Piece, isWord: char -> bool) {
    p.Condition? ==>
      |p.field| > 0 && QueryConverter.AllOf(p.field, isWord)
      && p.indicator in {'#', '$', '~'}
      && p.op in {"==", "!=", ">=", "<=", ">", "<"}
      && IsConditionValue(p.value)
  }

  function Source(ps: seq<Piece>): string
    decreases |ps|
  {
    if |ps| == 0 then "" else PieceText(ps[0]) + Source(ps[1..])
  }

  function LowerPiece(p: Piece): string {
    match p
    case Plain(t) => t
    case Condition(f, k, op, v) => Evaluate(f, [k], op, v)
  }

  function Lower(ps: seq<Piece>): string
    decreases |ps|
  {
    if |ps| == 0 then "" else LowerPiece(ps[0]) + Lower(ps[1..])
  }

  /** Every match loses its indicator and operator and nothing else: the pass is the
      same as writing `field:value` for each condition. */
  function Bare(ps: seq<Piece>): string
    decreases |ps|
  {
    if |ps| == 0 then ""
    else (if ps[0].Plain? then ps[0].text else ps[0].field + ":" + ps[0].value) + Bare(ps[1..])
  }

  lemma {:induction false} LowerIsBare(ps: seq<Piece>)
    ensures Lower(ps) == Bare(ps)
    decreases |ps|
  {
    if |ps| > 0 {
      if ps[0].Condition? {
        OneCharIndicator(ps[0].field, ps[0].indicator, ps[0].op, ps[0].value);
      }
      LowerIsBare(ps[1..]);
    }
  }

  // ------------------------------------------------------------ marker removal

  /** The values of `IndexType` in the order `Enum.GetValues` lists them, which is the
      enum's declaration order. The declaration of `IndexType` is not part of this model;
      the order `Auto, Tag, Text, Numeric` is assumed. */
  const KindOrder: seq<IndexType> := [Auto, Tag, Text, Numeric]

  /** The marker `|Kind|` the visitor writes after an indexed field name. */
  function Marker(k: IndexType): (m: string)
    ensures |m| > 2 && m[0] == '|' && m[|m| - 1] == '|'
    ensures '\'' !in m
  {
    "|" + IndexTypeName(k) + "|"
  }

  /** `result.Replace(marker, "")` for each kind in order. */
  function StripMarkers(s: string, kinds: seq<IndexType>): string
    decreases |kinds|
  {
    if |kinds| == 0 then s
    else StripMarkers(Replace(s, Marker(kinds[0]), ""), kinds[1..])
  }

  /** Removing a marker cannot touch a quote at either end. */
  lemma ReplaceMarkerKeepsQuotes(t: string, k: IndexType)
    ensures Replace("'" + t + "'", Marker(k), "") == "'" + Replace(t, Marker(k), "") + "'"
  {
    var m := Marker(k);
    assert "'" + t + "'" == ['\''] + (t + ['\'']);
    ReplaceKeepsFirst('\'', t + ['\''], m, "");
    ReplaceKeepsLast(t, '\'', m, "");
  }

  lemma {:induction false} StripMarkersKeepsQuotes(t: string, kinds: seq<IndexType>)
    ensures StripMarkers("'" + t + "'", kinds) == "'" + StripMarkers(t, kinds) + "'"
    decreases |kinds|
  {
    if |kinds| > 0 {
      ReplaceMarkerKeepsQuotes(t, kinds[0]);
      StripMarkersKeepsQuotes(Replace(t, Marker(kinds[0]), ""), kinds[1..]);
    }
  }

  /** Text without `|` has no marker to remove. */
  lemma {:induction false} StripMarkersAbsent(t: string, kinds: seq<IndexType>)
    requires '|' !in t
    ensures StripMarkers(t, kinds) == t
    decreases |kinds|
  {
    if |kinds| > 0 {
      var m := Marker(kinds[0]);
      forall i | 0 <= i <= |t| - |m|
        ensures !OccursAt(t, m, i)
      {
        assert t[i..i + |m|][0] == t[i] != m[0];
      }
      ReplaceAbsent(t, m, "");
      StripMarkersAbsent(t, kinds[1..]);
    }
  }

  // ------------------------------------------------------------------- Convert

  /** `Convert`: rewrite the logical words, lower each condition, trim white space from
      both ends, wrap in single quotes, then remove every `|Kind|` marker. `ps` is the
      rewritten text cut at the condition pattern's matches. */
  function Convert(linq: string, ps: seq<Piece>, isWord: char -> bool, isSpace: char -> bool): (r: string)
    requires Source(ps) == QueryConverter.RewriteLogical(linq, isWord)
    requires forall i :: 0 <= i < |ps| ==> Matches(ps[i], isWord)
    ensures |r| >= 2 && r[0] == '\'' && r[|r| - 1] == '\''
    ensures r == "'" + StripMarkers(TrimEnd(TrimStart(Bare(ps), isSpace), isSpace), KindOrder) + "'"
  {
    var linq := Lower(ps);
    var trimmed := TrimEnd(TrimStart(linq, isSpace), isSpace);
    var result := "'" + trimmed + "'";
    LowerIsBare(ps);
    StripMarkersKeepsQuotes(trimmed, KindOrder);
    StripMarkers(result, KindOrder)
  }

  /** Without any `|` in the lowered text, the result is the trimmed text in quotes. */
  lemma ConvertWithoutMarkers(linq: string, ps: seq<Piece>, isWord: char -> bool, isSpace: char -> bool)
    requires Source(ps) == QueryConverter.RewriteLogical(linq, isWord)
    requires forall i :: 0 <= i < |ps| ==> Matches(ps[i], isWord)
    requires '|' !in Bare(ps)
    ensures Convert(linq, ps, isWord, isSpace) == "'" + TrimEnd(TrimStart(Bare(ps), isSpace), isSpace) + "'"
  {
    var trimmed := TrimEnd(TrimStart(Bare(ps), isSpace), isSpace);
    TrimKeepsAbsent(Bare(ps), isSpace, '|');
    StripMarkersAbsent(trimmed, KindOrder);
  }
}
