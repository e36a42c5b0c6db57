/** The predicate compiler `RedisQueryVisitor`, in its two snapshots.

    `Query/RedisQueryVisitor.cs` (the `QuerySnapshot`) renders a member read on a captured
    closure variable as that variable's value and copies string constants verbatim.
    `QueryBuilder/RedisQueryVisitor.cs` (the `BuilderSnapshot`) renders every member as a
    field reference and replaces each character of a string constant outside
    `[a-zA-Z0-9_,.!?]` by `*`. Everything else is shared.

    The visitor appends to a `StringBuilder` and aborts on the first exception; here
    `Compile` returns the whole text or the first error. `show` stands for .NET's
    `Expression.ToString()`, which the call case reads. */
module Visitor {
  import opened Wrappers
  import opened Text
  import opened Kinds
  import opened Expressions
  import IndexTypeHelper

  datatype Snapshot = QuerySnapshot | BuilderSnapshot

  /** The operator text `VisitBinary` places between its operands. */
  function OpToken(op: BinaryOp): (r: Result<string>)
    ensures r.Err? <==> op.OtherBinary?
    ensures r.Err? ==> r.error == NotSupported
    ensures r.Ok? ==> '(' !in r.value && ')' !in r.value
    ensures op.Equal? ==> r == Ok("==")
    ensures op.NotEqual? ==> r == Ok("!=")
    ensures op.GreaterThan? ==> r == Ok(">")
    ensures op.GreaterThanOrEqual? ==> r == Ok(">=")
    ensures op.LessThan? ==> r == Ok("<")
    ensures op.LessThanOrEqual? ==> r == Ok("<=")
    ensures op.AndAlso? ==> r == Ok(" AND ")
    ensures op.OrElse? ==> r == Ok(" OR ")
  {
    match op
    case Equal => Ok("==")
    case NotEqual => Ok("!=")
    case GreaterThan => Ok(">")
    case GreaterThanOrEqual => Ok(">=")
    case LessThan => Ok("<")
    case LessThanOrEqual => Ok("<=")
    case AndAlso => Ok(" AND ")
    case OrElse => Ok(" OR ")
    case OtherBinary(_) => Err(NotSupported)
  }

  /** Distinct supported operators are written differently, so the operator can be read
      back from the text between the operands. */
  lemma OpTokenInjective(a: BinaryOp, b: BinaryOp)
    requires OpToken(a).Ok? && OpToken(b).Ok? && a != b
    ensures OpToken(a).value != OpToken(b).value
  {
  }

  /** The kind written into a field reference: `Auto` is resolved from the first generic
      argument, an explicit kind is kept. */
  function ResolvedKind(declared: IndexType, propertyType: ClrType): (k: IndexType)
    requires propertyType.IsGenericType()
    ensures k != Auto
    ensures declared != Auto ==> k == declared
    ensures declared == Auto ==> k == IndexTypeHelper.GetIndexType(propertyType.genericArgs[0])
  {
    if declared == Auto then IndexTypeHelper.GetIndexType(propertyType.genericArgs[0])
    else declared
  }

  /** `|Kind|` for an `[Indexed]` property of generic type, empty otherwise. */
  function Delimiter(info: MemberInfo): (r: string)
    ensures r == "" <==>
      !(info.PropertyMember? && info.indexed.Some? && info.propertyType.IsGenericType())
    ensures info.PropertyMember? && info.indexed.Some? && info.propertyType.IsGenericType() ==>
      r == "|" + IndexTypeName(ResolvedKind(info.indexed.value, info.propertyType)) + "|"
    ensures r != "|Auto|"
  {
    match info
    case FieldMember => ""
    case PropertyMember(indexed, propertyType) =>
      if indexed.Some? && propertyType.IsGenericType() then
        var name := IndexTypeName(ResolvedKind(indexed.value, propertyType));
        assert name != "Auto";
        assert ("|" + name + "|")[1..|name| + 1] == name;
        "|" + name + "|"
      else ""
  }

  /** A field reference `@name|Kind|:` or `@name:`. */
  function FieldRef(name: string, info: MemberInfo): string {
    "@" + name + Delimiter(info) + ":"
  }

  /** The characters the builder snapshot keeps in string constants. */
  predicate CleanChar(c: char) {
    ('a' <= c <= 'z') || ('A' <= c <= 'Z') || ('0' <= c <= '9')
    || c == '_' || c == ',' || c == '.' || c == '!' || c == '?'
  }

  /** `Regex.Replace(value, "[^a-zA-Z0-9_,.!?]", "*")`. */
  function Clean(s: string): (r: string)
    ensures |r| == |s|
    ensures forall i :: 0 <= i < |r| ==> CleanChar(r[i]) || r[i] == '*'
    ensures forall i :: 0 <= i < |s| && CleanChar(s[i]) ==> r[i] == s[i]
    ensures forall i :: 0 <= i < |s| && !CleanChar(s[i]) ==> r[i] == '*'
    decreases |s|
  {
    if |s| == 0 then ""
    else [if CleanChar(s[0]) then s[0] else '*'] + Clean(s[1..])
  }

  lemma CleanIdempotent(s: string)
    ensures Clean(Clean(s)) == Clean(s)
  {
    var c := Clean(s);
    assert forall i :: 0 <= i < |c| ==> Clean(c)[i] == c[i];
  }

  /** Cleaning changes nothing exactly when every character is kept or already `*`. */
  lemma CleanFixedPoint(s: string)
    ensures Clean(s) == s <==> forall i :: 0 <= i < |s| ==> CleanChar(s[i]) || s[i] == '*'
  {
    if forall i :: 0 <= i < |s| ==> CleanChar(s[i]) || s[i] == '*' {
      assert forall i :: 0 <= i < |s| ==> Clean(s)[i] == s[i];
    }
  }

  /** `AppendConstant`: strings (cleaned in the builder snapshot), lower-case booleans,
      dates in round-trip format, anything else by its text; null appends nothing. */
  function RenderConstant(snap: Snapshot, v: Value): (r: string)
    ensures v.Null? ==> r == ""
    ensures v.Bool? ==> r == (if v.b then "true" else "false")
    ensures v.Int? ==> ParseInteger(r) == Some(v.i)
    ensures v.Date? ==> r == v.iso
    ensures v.Str? && snap == QuerySnapshot ==> r == v.s
    ensures v.Str? && snap == BuilderSnapshot ==> r == Clean(v.s) && '(' !in r && ')' !in r
    ensures v.Other? || v.Object? ==> r == v.shown
  {
    match v
    case Null => ""
    case Str(s) => if snap == BuilderSnapshot then Clean(s) else s
    case Bool(b) => if b then "true" else "false"
    case Int(i) => IntToStringRoundTrip(i); IntToString(i)
    case Date(iso) => iso
    case Other(shown) => shown
    case Object(shown, _) => shown
  }

  const Methods: set<string> := {"Contains", "StartsWith", "EndsWith"}

  /** The second argument's text with every `"` removed. */
  function Unquoted(s: string): (r: string)
    ensures '"' !in r
    ensures forall c :: c != '"' ==> (c in r <==> c in s)
    ensures Subsequence(r, s)
    ensures forall c :: c != '"' ==> Count(r, c) == Count(s, c)
  {
    ReplaceCharDrops(s, '"');
    ReplaceChar(s, '"', "")
  }

  /** A member that the snapshot renders as a captured value. */
  predicate RendersCaptured(snap: Snapshot, e: Expr) {
    snap == QuerySnapshot && IsCaptured(e)
  }

  /** The text of an expression: a constant is rendered, a field becomes its reference,
      a captured value is read and rendered, the lambda's parameter leaves no text, and
      the other nodes combine their children's texts. */
  function Compile(snap: Snapshot, e: Expr, show: Expr -> string): (r: Result<string>)
    ensures e.Constant? ==> r == Ok(RenderConstant(snap, e.value))
    ensures e.Parameter? ==> r == Ok("")
    ensures e.Member? && !RendersCaptured(snap, e) ==> r == Ok(FieldRef(e.name, e.info))
    ensures RendersCaptured(snap, e) && GetValue(e).Ok? ==> r == Ok(RenderConstant(snap, GetValue(e).value))
    ensures RendersCaptured(snap, e) && GetValue(e).Err? ==> r == Err(GetValue(e).error)
    ensures e.New? ==> r == CompileAll(snap, e.args, show)
    ensures e.Call? && |e.args| < 2 ==> r == Err(ArgumentOutOfRange)
    ensures e.Call? && |e.args| >= 2 && e.methodName !in Methods ==> r == Err(NotSupported)
    ensures e.Unary? && e.uop.OtherUnary? ==> r == Err(NotSupported)
    ensures e.Binary? && Compile(snap, e.left, show).Err? ==> r == Compile(snap, e.left, show)
    ensures e.Binary? && Compile(snap, e.left, show).Ok? && e.op.OtherBinary? ==> r == Err(NotSupported)
    decreases e
  {
    match e
    case Binary(op, left, right) =>
      var l :- Compile(snap, left, show);
      var tok :- OpToken(op);
      var rt :- Compile(snap, right, show);
      Ok("(" + l + tok + rt + ")")
    case Member(_, name, info) =>
      if RendersCaptured(snap, e) then
        var v :- GetValue(e);
        Ok(RenderConstant(snap, v))
      else Ok(FieldRef(name, info))
    case Constant(v) => Ok(RenderConstant(snap, v))
    case Call(obj, m, args) =>
      if |args| < 2 then Err(ArgumentOutOfRange)
      else
        var value := Unquoted(show(args[1]));
        if m !in Methods then Err(NotSupported)
        else
          var o :- if obj.Some? then Compile(snap, obj.value, show) else Ok("");
          var a :- Compile(snap, args[0], show);
          Ok(CallText(m, o, value, a))
    case Unary(uop, operand) =>
      if uop.OtherUnary? then Err(NotSupported)
      else if uop.Convert? then Compile(snap, operand, show)
      else
        var s :- Compile(snap, operand, show);
        Ok("NOT " + s)
    case Lambda(body) => Compile(snap, body, show)
    case Parameter(_) => Ok("")
    case New(args, _) => CompileAll(snap, args, show)
  }

  /** The default visit of a node's children: their texts in order. */
  function CompileAll(snap: Snapshot, args: seq<Expr>, show: Expr -> string): (r: Result<string>)
    ensures |args| == 0 ==> r == Ok("")
    ensures |args| == 1 ==> r == Compile(snap, args[0], show)
    ensures r.Ok? ==> forall i :: 0 <= i < |args| ==> Compile(snap, args[i], show).Ok?
    decreases args
  {
    if |args| == 0 then Ok("")
    else
      var first :- Compile(snap, args[0], show);
      var rest :- CompileAll(snap, args[1..], show);
      assert |args| == 1 ==> first + rest == first;
      assert forall i :: 1 <= i < |args| ==> args[i] == args[1..][i - 1];
      Ok(first + rest)
  }

  // ------------------------------------------------------------------ supported trees

  /** The trees the visitor accepts, described node by node. */
  predicate Supported(snap: Snapshot, e: Expr, show: Expr -> string)
    decreases e
  {
    match e
    case Binary(op, left, right) =>
      !op.OtherBinary? && Supported(snap, left, show) && Supported(snap, right, show)
    case Member(_, _, _) => RendersCaptured(snap, e) ==> GetValue(e).Ok?
    case Constant(_) => true
    case Call(obj, m, args) =>
      |args| >= 2 && m in Methods
      && (obj.Some? ==> Supported(snap, obj.value, show))
      && Supported(snap, args[0], show)
    case Unary(uop, operand) => !uop.OtherUnary? && Supported(snap, operand, show)
    case Lambda(body) => Supported(snap, body, show)
    case Parameter(_) => true
    case New(args, _) => forall i :: 0 <= i < |args| ==> Supported(snap, args[i], show)
  }

  /** The visitor succeeds exactly on supported trees. */
  lemma {:induction false} CompileSucceedsIffSupported(snap: Snapshot, e: Expr, show: Expr -> string)
    ensures Compile(snap, e, show).Ok? <==> Supported(snap, e, show)
    decreases e
  {
    match e
    case Binary(_, left, right) =>
      CompileSucceedsIffSupported(snap, left, show);
      CompileSucceedsIffSupported(snap, right, show);
    case Member(_, _, _) =>
    case Constant(_) =>
    case Call(obj, _, args) =>
      if |args| >= 2 {
        if obj.Some? {
          CompileSucceedsIffSupported(snap, obj.value, show);
        }
        CompileSucceedsIffSupported(snap, args[0], show);
      }
    case Unary(_, operand) =>
      CompileSucceedsIffSupported(snap, operand, show);
    case Lambda(body) =>
      CompileSucceedsIffSupported(snap, body, show);
    case Parameter(_) =>
    case New(args, _) =>
      CompileAllSucceedsIffSupported(snap, args, show);
  }

  lemma {:induction false} CompileAllSucceedsIffSupported(snap: Snapshot, args: seq<Expr>, show: Expr -> string)
    ensures CompileAll(snap, args, show).Ok? <==>
      forall i :: 0 <= i < |args| ==> Supported(snap, args[i], show)
    decreases args
  {
    if |args| > 0 {
      CompileSucceedsIffSupported(snap, args[0], show);
      CompileAllSucceedsIffSupported(snap, args[1..], show);
      assert forall i :: 1 <= i < |args| ==> args[i] == args[1..][i - 1];
    }
  }

  // ----------------------------------------------------------------- emitted text

  /** A binary node emits `(`, its left operand's text, the operator, its right operand's
      text and `)`. */
  lemma CompileBinary(snap: Snapshot, e: Expr, show: Expr -> string)
    requires e.Binary? && Compile(snap, e, show).Ok?
    ensures Compile(snap, e.left, show).Ok? && OpToken(e.op).Ok? && Compile(snap, e.right, show).Ok?
    ensures Compile(snap, e, show).value
      == "(" + Compile(snap, e.left, show).value + OpToken(e.op).value + Compile(snap, e.right, show).value + ")"
  {
  }

  /** `Not` puts `NOT ` before its operand's text; `Convert` and a lambda add nothing. */
  lemma CompileUnary(snap: Snapshot, e: Expr, show: Expr -> string)
    requires e.Unary? || e.Lambda?
    ensures e.Lambda? ==> Compile(snap, e, show) == Compile(snap, e.body, show)
    ensures e.Unary? && e.uop.Convert? ==> Compile(snap, e, show) == Compile(snap, e.operand, show)
    ensures e.Unary? && e.uop.Not? ==>
      (Compile(snap, e, show).Ok? <==> Compile(snap, e.operand, show).Ok?)
      && (Compile(snap, e, show).Ok? ==> Compile(snap, e, show).value == "NOT " + Compile(snap, e.operand, show).value)
  {
  }

  /** A call emits its object's text, then the unquoted second argument `v` and the first
      argument's text: `*v*` before the argument for `Contains`, `v*` after it for
      `StartsWith`, `*v` before it for `EndsWith`. */
  lemma CompileCall(snap: Snapshot, e: Expr, show: Expr -> string)
    requires e.Call? && Compile(snap, e, show).Ok?
    ensures |e.args| >= 2 && e.methodName in Methods
    ensures e.obj.Some? ==> Compile(snap, e.obj.value, show).Ok?
    ensures Compile(snap, e.args[0], show).Ok?
    ensures var o := if e.obj.Some? then Compile(snap, e.obj.value, show).value else "";
      var v := Unquoted(show(e.args[1]));
      var a := Compile(snap, e.args[0], show).value;
      var out := Compile(snap, e, show).value;
      (e.methodName == "Contains" ==> out == o + "*" + v + "*" + a)
      && (e.methodName == "StartsWith" ==> out == o + a + v + "*")
      && (e.methodName == "EndsWith" ==> out == o + "*" + v + a)
  {
  }

  /** A member of the lambda's parameter that is a plain field is written `@Name:`. */
  lemma FieldExample(show: Expr -> string)
    ensures Compile(QuerySnapshot, Member(Some(Parameter("x")), "Name", FieldMember), show) == Ok("@Name:")
  {
    assert Delimiter(FieldMember) == "";
    assert FieldRef("Name", FieldMember) == "@Name:";
  }

  /** `x.Name == "Bob"` over a plain field compiles to `(@Name:==Bob)`. */
  lemma EqualityExample(show: Expr -> string)
    ensures Compile(QuerySnapshot, Binary(Equal, Member(Some(Parameter("x")), "Name", FieldMember), Constant(Str("Bob"))), show)
      == Ok("(@Name:==Bob)")
  {
    var eq := Binary(Equal, Member(Some(Parameter("x")), "Name", FieldMember), Constant(Str("Bob")));
    FieldExample(show);
    assert Compile(QuerySnapshot, Constant(Str("Bob")), show) == Ok("Bob");
    assert Compile(QuerySnapshot, eq, show) == Ok("(" + "@Name:" + "==" + "Bob" + ")");
    assert "(" + "@Name:" + "==" + "Bob" + ")" == "(@Name:==Bob)";
  }

  /** `x.Age > 5` over a plain field compiles to `(@Age:>5)`. */
  lemma ComparisonExample(show: Expr -> string)
    ensures Compile(QuerySnapshot, Binary(GreaterThan, Member(Some(Parameter("x")), "Age", FieldMember), Constant(Int(5))), show)
      == Ok("(@Age:>5)")
  {
    var age := Member(Some(Parameter("x")), "Age", FieldMember);
    assert Delimiter(FieldMember) == "";
    assert FieldRef("Age", FieldMember) == "@Age:";
    assert !RendersCaptured(QuerySnapshot, age);
    assert Compile(QuerySnapshot, age, show) == Ok("@Age:");
    assert IntToString(5) == "5";
    assert Compile(QuerySnapshot, Constant(Int(5)), show) == Ok("5");
    assert "(" + "@Age:" + ">" + "5" + ")" == "(@Age:>5)";
  }

  /** The lambda `x => !(x.Name == "Bob")` compiles to `NOT (@Name:==Bob)`. */
  lemma NegationExample(show: Expr -> string)
    ensures Compile(QuerySnapshot, Lambda(Unary(Not, Binary(Equal, Member(Some(Parameter("x")), "Name", FieldMember), Constant(Str("Bob"))))), show)
      == Ok("NOT (@Name:==Bob)")
  {
    var eq := Binary(Equal, Member(Some(Parameter("x")), "Name", FieldMember), Constant(Str("Bob")));
    EqualityExample(show);
    CompileUnary(QuerySnapshot, Lambda(Unary(Not, eq)), show);
    CompileUnary(QuerySnapshot, Unary(Not, eq), show);
    assert "NOT " + "(@Name:==Bob)" == "NOT (@Name:==Bob)";
  }

  // ------------------------------------------------------------------- parentheses

  predicate ParenFree(s: string) {
    '(' !in s && ')' !in s
  }

  /** Every text the visitor copies from a leaf is free of parentheses. */
  predicate PlainLeaves(snap: Snapshot, e: Expr, show: Expr -> string)
    decreases e
  {
    match e
    case Binary(_, left, right) => PlainLeaves(snap, left, show) && PlainLeaves(snap, right, show)
    case Member(_, name, info) =>
      if RendersCaptured(snap, e) then
        GetValue(e).Ok? ==> ParenFree(RenderConstant(snap, GetValue(e).value))
      else ParenFree(FieldRef(name, info))
    case Constant(v) => ParenFree(RenderConstant(snap, v))
    case Call(obj, _, args) =>
      |args| >= 2 ==>
        ParenFree(Unquoted(show(args[1])))
        && (obj.Some? ==> PlainLeaves(snap, obj.value, show))
        && PlainLeaves(snap, args[0], show)
    case Unary(_, operand) => PlainLeaves(snap, operand, show)
    case Lambda(body) => PlainLeaves(snap, body, show)
    case Parameter(_) => true
    case New(args, _) => forall i :: 0 <= i < |args| ==> PlainLeaves(snap, args[i], show)
  }

  /** The binary nodes the visitor visits (the second call argument is only shown). */
  function Visited(e: Expr): nat
    decreases e
  {
    match e
    case Binary(_, left, right) => 1 + Visited(left) + Visited(right)
    case Member(_, _, _) => 0
    case Constant(_) => 0
    case Call(obj, _, args) =>
      if |args| < 2 then 0
      else (if obj.Some? then Visited(obj.value) else 0) + Visited(args[0])
    case Unary(_, operand) => Visited(operand)
    case Lambda(body) => Visited(body)
    case Parameter(_) => 0
    case New(args, _) => VisitedAll(args)
  }

  function VisitedAll(args: seq<Expr>): nat
    decreases args
  {
    if |args| == 0 then 0 else Visited(args[0]) + VisitedAll(args[1..])
  }

  lemma ParenFreeCounts(s: string)
    requires ParenFree(s)
    ensures Count(s, '(') == 0 && Count(s, ')') == 0
  {
    CountZero(s, '(');
    CountZero(s, ')');
  }

  /** The text a supported call emits from its object, value and first argument. */
  function CallText(m: string, o: string, value: string, a: string): string {
    if m == "Contains" then o + "*" + value + "*" + a
    else if m == "StartsWith" then o + a + value + "*"
    else o + "*" + value + a
  }

  lemma CallTextCounts(m: string, o: string, value: string, a: string)
    requires ParenFree(value)
    ensures Count(CallText(m, o, value, a), '(') == Count(o, '(') + Count(a, '(')
    ensures Count(CallText(m, o, value, a), ')') == Count(o, ')') + Count(a, ')')
  {
    ParenFreeCounts(value);
    ParenFreeCounts("*");
    ParenFreeCounts("");
    if m == "Contains" {
      CountBoth3(o, "*", value);
      CountBoth3(o + "*" + value, "*", a);
    } else if m == "StartsWith" {
      CountBoth3(o, a, value);
      CountBoth3(o + a + value, "*", "");
      assert o + a + value + "*" == o + a + value + "*" + "";
    } else {
      CountBoth3(o, "*", value);
      CountBoth3(o + "*" + value, a, "");
      assert o + "*" + value + a == o + "*" + value + a + "";
    }
  }

  lemma BinaryTextCounts(l: string, t: string, r: string)
    requires ParenFree(t)
    ensures Count("(" + l + t + r + ")", '(') == 1 + Count(l, '(') + Count(r, '(')
    ensures Count("(" + l + t + r + ")", ')') == 1 + Count(l, ')') + Count(r, ')')
  {
    ParenFreeCounts(t);
    assert Count("(", '(') == 1 && Count("(", ')') == 0;
    assert Count(")", ')') == 1 && Count(")", '(') == 0;
    CountBoth3("(", l, t);
    CountBoth3("(" + l + t, r, ")");
  }

  lemma NotTextCounts(s: string)
    ensures Count("NOT " + s, '(') == Count(s, '(') && Count("NOT " + s, ')') == Count(s, ')')
  {
    ParenFreeCounts("NOT ");
    ParenFreeCounts("");
    CountBoth3("NOT ", s, "");
    assert "NOT " + s == "NOT " + s + "";
  }

  lemma CountBoth3(a: string, b: string, c: string)
    ensures Count(a + b + c, '(') == Count(a, '(') + Count(b, '(') + Count(c, '(')
    ensures Count(a + b + c, ')') == Count(a, ')') + Count(b, ')') + Count(c, ')')
  {
    CountConcat(a, b, '(');
    CountConcat(a + b, c, '(');
    CountConcat(a, b, ')');
    CountConcat(a + b, c, ')');
  }

  /** A supported call adds no parenthesis of its own to those of its object and first
      argument. */
  lemma CallCounts(snap: Snapshot, e: Expr, show: Expr -> string)
    requires e.Call? && PlainLeaves(snap, e, show) && Compile(snap, e, show).Ok?
    requires e.obj.Some? ==>
      Count(Compile(snap, e.obj.value, show).value, '(') == Visited(e.obj.value)
      && Count(Compile(snap, e.obj.value, show).value, ')') == Visited(e.obj.value)
    requires |e.args| >= 2 ==>
      Count(Compile(snap, e.args[0], show).value, '(') == Visited(e.args[0])
      && Count(Compile(snap, e.args[0], show).value, ')') == Visited(e.args[0])
    ensures Count(Compile(snap, e, show).value, '(') == Visited(e)
    ensures Count(Compile(snap, e, show).value, ')') == Visited(e)
  {
    var value := Unquoted(show(e.args[1]));
    var o := if e.obj.Some? then Compile(snap, e.obj.value, show).value else "";
    if e.obj.None? {
      ParenFreeCounts(o);
    }
    var a := Compile(snap, e.args[0], show).value;
    assert Compile(snap, e, show).value == CallText(e.methodName, o, value, a);
    CallTextCounts(e.methodName, o, value, a);
  }

  /** With parenthesis-free leaves, each visited binary node contributes exactly one `(`
      and one `)` to the output. */
  lemma {:induction false} ParenthesesCountBinaries(snap: Snapshot, e: Expr, show: Expr -> string)
    requires PlainLeaves(snap, e, show) && Compile(snap, e, show).Ok?
    ensures Count(Compile(snap, e, show).value, '(') == Visited(e)
    ensures Count(Compile(snap, e, show).value, ')') == Visited(e)
    decreases e
  {
    var out := Compile(snap, e, show).value;
    match e
    case Binary(op, left, right) =>
      var l := Compile(snap, left, show).value;
      var rt := Compile(snap, right, show).value;
      assert out == "(" + l + OpToken(op).value + rt + ")";
      ParenthesesCountBinaries(snap, left, show);
      ParenthesesCountBinaries(snap, right, show);
      BinaryTextCounts(l, OpToken(op).value, rt);
    case Member(_, _, _) =>
      ParenFreeCounts(out);
    case Constant(_) =>
      ParenFreeCounts(out);
    case Call(obj, m, args) =>
      if obj.Some? {
        ParenthesesCountBinaries(snap, obj.value, show);
      }
      ParenthesesCountBinaries(snap, args[0], show);
      CallCounts(snap, e, show);
    case Unary(uop, operand) =>
      ParenthesesCountBinaries(snap, operand, show);
      if uop.Not? {
        NotTextCounts(Compile(snap, operand, show).value);
      }
    case Lambda(body) =>
      ParenthesesCountBinaries(snap, body, show);
    case Parameter(_) =>
      ParenFreeCounts(out);
    case New(args, _) =>
      ParenthesesCountAll(snap, args, show);
  }

  lemma {:induction false} ParenthesesCountAll(snap: Snapshot, args: seq<Expr>, show: Expr -> string)
    requires forall i :: 0 <= i < |args| ==> PlainLeaves(snap, args[i], show)
    requires CompileAll(snap, args, show).Ok?
    ensures Count(CompileAll(snap, args, show).value, '(') == VisitedAll(args)
    ensures Count(CompileAll(snap, args, show).value, ')') == VisitedAll(args)
    decreases args
  {
    if |args| == 0 {
      ParenFreeCounts("");
    } else {
      ParenthesesCountBinaries(snap, args[0], show);
      assert forall i :: 0 <= i < |args| - 1 ==> args[1..][i] == args[i + 1];
      ParenthesesCountAll(snap, args[1..], show);
      var f, rest := Compile(snap, args[0], show).value, CompileAll(snap, args[1..], show).value;
      ParenFreeCounts("");
      CountBoth3(f, rest, "");
      assert CompileAll(snap, args, show).value == f + rest + "";
    }
  }

  // ------------------------------------------------------------ snapshot agreement

  /** Trees on which the two snapshots cannot differ: no captured member and only string
      constants that cleaning leaves alone. */
  predicate Agnostic(e: Expr)
    decreases e
  {
    match e
    case Binary(_, left, right) => Agnostic(left) && Agnostic(right)
    case Member(_, _, _) => !IsCaptured(e)
    case Constant(v) => v.Str? ==> Clean(v.s) == v.s
    case Call(obj, _, args) =>
      (obj.Some? ==> Agnostic(obj.value)) && (|args| > 0 ==> Agnostic(args[0]))
    case Unary(_, operand) => Agnostic(operand)
    case Lambda(body) => Agnostic(body)
    case Parameter(_) => true
    case New(args, _) => forall i :: 0 <= i < |args| ==> Agnostic(args[i])
  }

  /** The two snapshots compile such trees identically, errors included. */
  lemma {:induction false} SnapshotsAgree(e: Expr, show: Expr -> string)
    requires Agnostic(e)
    ensures Compile(QuerySnapshot, e, show) == Compile(BuilderSnapshot, e, show)
    decreases e
  {
    match e
    case Binary(_, left, right) =>
      SnapshotsAgree(left, show);
      SnapshotsAgree(right, show);
    case Member(_, _, _) =>
    case Constant(_) =>
    case Call(obj, _, args) =>
      if obj.Some? {
        SnapshotsAgree(obj.value, show);
      }
      if |args| > 0 {
        SnapshotsAgree(args[0], show);
      }
    case Unary(_, operand) =>
      SnapshotsAgree(operand, show);
    case Lambda(body) =>
      SnapshotsAgree(body, show);
    case Parameter(_) =>
    case New(args, _) =>
      SnapshotsAgreeAll(args, show);
  }

  lemma {:induction false} SnapshotsAgreeAll(args: seq<Expr>, show: Expr -> string)
    requires forall i :: 0 <= i < |args| ==> Agnostic(args[i])
    ensures CompileAll(QuerySnapshot, args, show) == CompileAll(BuilderSnapshot, args, show)
    decreases args
  {
    if |args| > 0 {
      SnapshotsAgree(args[0], show);
      assert forall i :: 0 <= i < |args| - 1 ==> args[1..][i] == args[i + 1];
      SnapshotsAgreeAll(args[1..], show);
    }
  }

  /** A captured string reaches the output verbatim in the query snapshot, while the
      builder snapshot emits a field reference for the same member. */
  lemma CapturedMember(v: Value, name: string, info: MemberInfo, show: Expr -> string)
    requires v.Object? && name in v.members && v.members[name].Str?
    ensures var e := Member(Some(Constant(v)), name, info);
      Compile(QuerySnapshot, e, show) == Ok(v.members[name].s)
      && Compile(BuilderSnapshot, e, show) == Ok(FieldRef(name, info))
  {
  }
}
