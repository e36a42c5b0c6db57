/** The fluent clause builder of `AsyncRedisDocuments.Index.Query`.

    A query is its list of clauses; each builder call either appends one clause or, for
    `Not`, rewrites the last one. A call that throws in the library returns `Err` here
    and leaves no new clause behind. */
module IndexQuery {
  import opened Wrappers
  import opened Text
  import opened Escaping
  import opened Expressions

  datatype Query = Query(clauses: seq<string>)

  /** `Query.Create()` and the executor's `Query()` factories: no clauses. */
  function Create(): (q: Query)
    ensures q.clauses == [] && Render(q) == ""
  {
    Query([])
  }

  /** `ToString()`: the clauses separated by single spaces. */
  function Render(q: Query): string {
    Join(q.clauses, " ")
  }

  /** The characters `EscapeSpecialCharacters` escapes, in the order of its `Replace` calls. */
  const Reserved: seq<char> :=
    ['\\', '-', ':', '"', '\'', '.', ',', '(', ')', '[', ']', '{', '}', '|', '&', '~',
     '!', '*', '?', '^', '$']

  lemma ReservedDistinct()
    ensures Distinct(Reserved)
  {
    var a := ['\\', '-', ':', '"', '\'', '.', ','];
    var b := ['(', ')', '[', ']', '{', '}', '|'];
    var c := ['&', '~', '!', '*', '?', '^', '$'];
    assert Reserved == (a + b) + c;
    DistinctConcat(a, b);
    DistinctConcat(a + b, c);
  }

  lemma ReservedIsWellOrdered()
    ensures Distinct(Reserved) && BackslashFirst(Reserved)
    ensures |Reserved| == 21 && '@' !in Reserved
  {
    ReservedDistinct();
  }

  /** `EscapeSpecialCharacters`: null and empty input come back unchanged; otherwise the
      chain of `Replace` calls, which is the per-character escape over `Reserved`. */
  function EscapeSpecialCharacters(input: Option<string>): (r: Option<string>)
    ensures input.None? <==> r.None?
    ensures input.Some? ==> r == Some(EscapeWith(input.value, Reserved))
  {
    if input.None? || input.value == "" then input
    else
      ReservedIsWellOrdered();
      ChainIsMap(input.value, Reserved);
      Some(Chain(input.value, Reserved))
  }

  /** The escape can be undone, so distinct values give distinct clauses. */
  lemma EscapeSpecialCharactersReversible(s: string)
    ensures Unescape(EscapeSpecialCharacters(Some(s)).value, Reserved) == s
  {
    UnescapeEscape(s, Reserved);
  }

  /** Characters outside the reserved set (including `@`) pass through unescaped. */
  lemma EscapeSpecialCharactersPlain(s: string)
    requires forall i :: 0 <= i < |s| ==> s[i] !in Reserved
    ensures EscapeSpecialCharacters(Some(s)) == Some(s)
  {
    EscapeWithPlain(s, Reserved);
  }

  /** The escaped text of a possibly-null value as it lands in an interpolated string. */
  function Escaped(value: Option<string>): string {
    EscapeWith(Interp(value), Reserved)
  }

  function Add(q: Query, clause: string): Query {
    Query(q.clauses + [clause])
  }

  /** `Text`: the fuzzy level must lie in 0..3; the clause pads the escaped value with as
      many `%` on each side as the level. */
  function TextClause(q: Query, propertyName: string, value: Option<string>, fuzzyLevel: int): (r: Result<Query>)
    ensures r.Err? <==> fuzzyLevel < 0 || fuzzyLevel > 3
    ensures r.Err? ==> r.error == ArgumentError
    ensures r.Ok? ==> (r.value.clauses == q.clauses +
      ["@" + propertyName + ":'" + Repeat('%', fuzzyLevel) + Escaped(value) + Repeat('%', fuzzyLevel) + "'"])
  {
    if fuzzyLevel < 0 || fuzzyLevel > 3 then Err(ArgumentError)
    else
      var escaped := EscapeSpecialCharacters(value);
      var pad := Repeat('%', fuzzyLevel);
      Ok(Add(q, "@" + propertyName + ":'" + pad + Interp(escaped) + pad + "'"))
  }

  /** `TextExact`: the escaped value in double quotes inside single quotes. */
  function TextExact(q: Query, propertyName: string, value: Option<string>): (r: Query)
    ensures r.clauses == q.clauses + ["@" + propertyName + ":'\"" + Escaped(value) + "\"'"]
  {
    Add(q, "@" + propertyName + ":'\"" + Interp(EscapeSpecialCharacters(value)) + "\"'")
  }

  /** `Tag`: the value's `ToString()` escaped inside braces; a null value fails when its
      `ToString()` is called. */
  function TagClause(q: Query, propertyName: string, value: Option<string>): (r: Result<Query>)
    ensures value.None? <==> r.Err?
    ensures r.Err? ==> r.error == NullReference
    ensures r.Ok? ==> (r.value.clauses == q.clauses +
      ["@" + propertyName + ":{" + EscapeWith(value.value, Reserved) + "}"])
  {
    if value.None? then Err(NullReference)
    else Ok(Add(q, "@" + propertyName + ":{" + EscapeSpecialCharacters(value).value + "}"))
  }

  /** `Numeric`: an absent bound is open (`-inf` / `+inf`). Each bound is given as the
      text of the `double` it stands for. */
  function NumericClause(q: Query, propertyName: string, min: Option<string>, max: Option<string>): (r: Query)
    ensures |r.clauses| == |q.clauses| + 1 && r.clauses[..|q.clauses|] == q.clauses
    ensures min.None? && max.None? ==> r.clauses[|q.clauses|] == "@" + propertyName + ":[-inf +inf]"
    ensures min.Some? && max.Some? ==>
      r.clauses[|q.clauses|] == "@" + propertyName + ":[" + min.value + " " + max.value + "]"
    ensures min.Some? && max.None? ==>
      r.clauses[|q.clauses|] == "@" + propertyName + ":[" + min.value + " +inf]"
    ensures min.None? && max.Some? ==>
      r.clauses[|q.clauses|] == "@" + propertyName + ":[-inf " + max.value + "]"
  {
    Add(q, "@" + propertyName + ":[" + min.GetOr("-inf") + " " + max.GetOr("+inf") + "]")
  }

  /** `Or`: at least one sub-query; their texts joined by ` | ` in parentheses. */
  function Or(q: Query, queries: seq<Query>): (r: Result<Query>)
    ensures r.Err? <==> |queries| == 0
    ensures r.Err? ==> r.error == ArgumentError
    ensures r.Ok? ==> (r.value.clauses == q.clauses +
      ["(" + Join(seq(|queries|, i requires 0 <= i < |queries| => Render(queries[i])), " | ") + ")"])
  {
    if |queries| == 0 then Err(ArgumentError)
    else
      var texts := seq(|queries|, i requires 0 <= i < |queries| => Render(queries[i]));
      Ok(Add(q, "(" + Join(texts, " | ") + ")"))
  }

  /** `Not`: negates the last clause only; an empty query cannot be negated. */
  function Not(q: Query): (r: Result<Query>)
    ensures r.Err? <==> |q.clauses| == 0
    ensures r.Err? ==> r.error == InvalidOperation
    ensures r.Ok? ==>
      |r.value.clauses| == |q.clauses|
      && r.value.clauses[..|q.clauses| - 1] == q.clauses[..|q.clauses| - 1]
      && r.value.clauses[|q.clauses| - 1] == "-" + q.clauses[|q.clauses| - 1]
  {
    if |q.clauses| == 0 then Err(InvalidOperation)
    else
      var n := |q.clauses| - 1;
      Ok(Query(q.clauses[n := "-" + q.clauses[n]]))
  }

  /** Appending a clause extends the rendered text by a space and the clause. */
  lemma RenderAdd(q: Query, clause: string)
    ensures Render(Add(q, clause)) ==
      if |q.clauses| == 0 then clause else Render(q) + " " + clause
  {
    JoinSnoc(q.clauses, clause, " ");
  }

  /** Any successful builder call keeps the earlier text as a prefix of the new text. */
  lemma RenderKeepsPrefix(q: Query, clause: string)
    requires |q.clauses| > 0
    ensures StartsWith(Render(Add(q, clause)), Render(q) + " ")
  {
    RenderAdd(q, clause);
  }

  // ------------------------------------------------------------------- Query<TDocument>

  /** `Query<TDocument>.GetPropertyName`: a member body, or a unary directly around one. */
  function GetPropertyName(body: Expr): (r: Result<string>)
    ensures r.Ok? ==> r == GetMemberName(body)
    ensures r.Err? ==> r.error == ArgumentError
    ensures body.Member? || (body.Unary? && body.operand.Member?) <==> r.Ok?
  {
    if body.Member? then Ok(body.name)
    else if body.Unary? && body.operand.Member? then Ok(body.operand.name)
    else Err(ArgumentError)
  }

  /** The two member-name helpers differ: two conversions around a member defeat
      `GetPropertyName` but not `ExpressionHelper.GetMemberName`. */
  lemma GetPropertyNameStricter(name: string)
    ensures var e := Unary(Convert, Unary(Convert, Member(None, name, FieldMember)));
      GetPropertyName(e) == Err(ArgumentError) && GetMemberName(e) == Ok(name)
  {
  }

  /** The typed `Text` overload: the property expression is checked before the level. */
  function TypedText(q: Query, property: Expr, value: Option<string>, fuzzyLevel: int): (r: Result<Query>)
    ensures GetPropertyName(property).Err? ==> r == Err(ArgumentError)
    ensures GetPropertyName(property).Ok? ==>
      r == TextClause(q, GetPropertyName(property).value, value, fuzzyLevel)
  {
    var name :- GetPropertyName(property);
    TextClause(q, name, value, fuzzyLevel)
  }

  function TypedTextExact(q: Query, property: Expr, value: Option<string>): (r: Result<Query>)
    ensures r.Err? <==> GetPropertyName(property).Err?
    ensures r.Ok? ==> r.value == TextExact(q, GetPropertyName(property).value, value)
  {
    var name :- GetPropertyName(property);
    Ok(TextExact(q, name, value))
  }

  function TypedTag(q: Query, property: Expr, value: Option<string>): (r: Result<Query>)
    ensures GetPropertyName(property).Err? ==> r == Err(ArgumentError)
    ensures GetPropertyName(property).Ok? ==> r == TagClause(q, GetPropertyName(property).value, value)
  {
    var name :- GetPropertyName(property);
    TagClause(q, name, value)
  }

  function TypedNumeric(q: Query, property: Expr, min: Option<string>, max: Option<string>): (r: Result<Query>)
    ensures r.Err? <==> GetPropertyName(property).Err?
    ensures r.Ok? ==> r.value == NumericClause(q, GetPropertyName(property).value, min, max)
  {
    var name :- GetPropertyName(property);
    Ok(NumericClause(q, name, min, max))
  }
}
