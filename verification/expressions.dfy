/** The predicate trees the library receives as .NET `Expression` values, the runtime
    values they can capture, and the unwrapping helpers of `ExpressionHelper` and
    `ExpressionExtensions`. */
module Expressions {
  import opened Wrappers
  import opened Kinds

  /** A runtime object as far as a predicate can see it. `Date` carries its round-trip
      (`"o"`) rendering; `Other` and `Object` carry their `ToString()`. */
  datatype Value =
    | Null
    | Str(s: string)
    | Bool(b: bool)
    | Int(i: int)
    | Date(iso: string)
    | Other(shown: string)
    | Object(shown: string, members: map<string, Value>)

  datatype BinaryOp =
    | Equal | NotEqual | GreaterThan | GreaterThanOrEqual | LessThan | LessThanOrEqual
    | AndAlso | OrElse
    | OtherBinary(nodeType: string)

  datatype UnaryOp = Not | Convert | OtherUnary(nodeType: string)

  /** What `node.Member` is: a field, or a property with its `[Indexed]` kind (if any)
      and its declared type. */
  datatype MemberInfo =
    | FieldMember
    | PropertyMember(indexed: Option<IndexType>, propertyType: ClrType)

  datatype Expr =
    | Binary(op: BinaryOp, left: Expr, right: Expr)
    | Member(target: Option<Expr>, name: string, info: MemberInfo)
    | Constant(value: Value)
    | Call(obj: Option<Expr>, methodName: string, args: seq<Expr>)
    | Unary(uop: UnaryOp, operand: Expr)
    | Lambda(body: Expr)
    | Parameter(pname: string)
    | New(args: seq<Expr>, members: Option<seq<string>>)   // `None`: the null `Members` of a non-anonymous type

  /** A member read whose target is a constant: a variable captured by the lambda. */
  predicate IsCaptured(e: Expr) {
    e.Member? && e.target.Some? && e.target.value.Constant?
  }

  // ---------------------------------------------------------------- ExpressionHelper

  /** `ExpressionHelper.GetMemberName`. */
  function GetMemberName(e: Expr): (r: Result<string>)
    ensures e.Member? ==> r == Ok(e.name)
    ensures !e.Member? && !e.Lambda? && !e.Unary? ==> r == Err(ArgumentError)
    ensures r.Err? ==> r.error == ArgumentError
    decreases e
  {
    match e
    case Member(_, name, _) => Ok(name)
    case Lambda(body) => GetMemberName(body)
    case Unary(_, operand) => GetMemberName(operand)
    case _ => Err(ArgumentError)
  }

  /** A lambda or unary wrapper around an expression. */
  datatype Layer = InLambda | InUnary(op: UnaryOp)

  /** `layers[0]` is the outermost wrapper. */
  function Wrap(layers: seq<Layer>, e: Expr): Expr
    decreases |layers|
  {
    if |layers| == 0 then e
    else match layers[0]
      case InLambda => Lambda(Wrap(layers[1..], e))
      case InUnary(op) => Unary(op, Wrap(layers[1..], e))
  }

  /** Any stack of lambda and unary wrappers is transparent to `GetMemberName`. */
  lemma {:induction false} GetMemberNameWrapped(layers: seq<Layer>, e: Expr)
    ensures GetMemberName(Wrap(layers, e)) == GetMemberName(e)
    decreases |layers|
  {
    if |layers| > 0 {
      GetMemberNameWrapped(layers[1..], e);
    }
  }

  // ------------------------------------------------------------ ExpressionExtensions

  /** `ResolveMemberExpression`: a member as is, the operand of a unary (which must be a
      member, or the cast fails), anything else unsupported. */
  function ResolveMemberExpression(e: Expr): (r: Result<Expr>)
    ensures r.Ok? ==> r.value.Member?
    ensures e.Member? ==> r == Ok(e)
    ensures e.Unary? ==> r == (if e.operand.Member? then Ok(e.operand) else Err(InvalidCast))
    ensures !e.Member? && !e.Unary? ==> r == Err(NotSupported)
  {
    match e
    case Member(_, _, _) => Ok(e)
    case Unary(_, operand) => if operand.Member? then Ok(operand) else Err(InvalidCast)
    case _ => Err(NotSupported)
  }

  lemma ResolveMemberExpressionIdempotent(e: Expr)
    requires ResolveMemberExpression(e).Ok?
    ensures ResolveMemberExpression(ResolveMemberExpression(e).value) == ResolveMemberExpression(e)
  {
  }

  /** `field.GetValue(target)` inside the `try` of the constant branch: every reflection
      failure (null target, member not on the object) becomes InvalidOperation. */
  function ReadCaptured(target: Value, name: string): Result<Value> {
    if target.Object? && name in target.members then Ok(target.members[name])
    else Err(InvalidOperation)
  }

  /** `field.GetValue(instance)` outside any `try`: a null instance raises TargetException,
      a member missing from the object an ArgumentException. */
  function ReadInstance(instance: Value, name: string): Result<Value> {
    if instance.Null? then Err(Target)
    else if instance.Object? && name in instance.members then Ok(instance.members[name])
    else Err(ArgumentError)
  }

  /** `ExpressionExtensions.GetValue` on a member expression. */
  function GetValue(e: Expr): (r: Result<Value>)
    requires e.Member?
    ensures !e.target.Some? || !(e.target.value.Constant? || e.target.value.Member?) ==>
      r == Err(NotImplemented)
    decreases e
  {
    match e.target
    case Some(Constant(v)) => ReadCaptured(v, e.name)
    case Some(Member(_, _, _)) =>
      var instance :- GetValue(e.target.value);
      ReadInstance(instance, e.name)
    case _ => Err(NotImplemented)
  }

  /** `root.p0.p1 ... pn` as a tree: a captured constant followed by member reads. */
  function Path(root: Value, path: seq<string>): (e: Expr)
    requires |path| > 0
    ensures e.Member?
    decreases |path|
  {
    var n := |path| - 1;
    if n == 0 then Member(Some(Constant(root)), path[0], FieldMember)
    else Member(Some(Path(root, path[..n])), path[n], FieldMember)
  }

  /** Reads `names` one after the other, left to right. */
  function Follow(v: Value, names: seq<string>): Result<Value>
    decreases |names|
  {
    if |names| == 0 then Ok(v)
    else
      var w :- ReadInstance(v, names[0]);
      Follow(w, names[1..])
  }

  lemma {:induction false} FollowSnoc(v: Value, names: seq<string>, last: string)
    ensures Follow(v, names + [last]) ==
      (var w :- Follow(v, names); ReadInstance(w, last))
    decreases |names|
  {
    if |names| == 0 {
      assert [last][1..] == [];
    } else {
      assert (names + [last])[1..] == names[1..] + [last];
      var w := ReadInstance(v, names[0]);
      if w.Ok? {
        FollowSnoc(w.value, names[1..], last);
      }
    }
  }

  /** `GetValue` on a member path reads the captured object's member, then each further
      member in order. */
  lemma {:induction false} GetValuePath(root: Value, path: seq<string>)
    requires |path| > 0
    ensures GetValue(Path(root, path)) ==
      (var v :- ReadCaptured(root, path[0]); Follow(v, path[1..]))
    decreases |path|
  {
    var n := |path| - 1;
    if n > 0 {
      var prefix := path[..n];
      GetValuePath(root, prefix);
      assert prefix[0] == path[0];
      assert prefix[1..] + [path[n]] == path[1..];
      var v := ReadCaptured(root, path[0]);
      if v.Ok? {
        FollowSnoc(v.value, prefix[1..], path[n]);
      }
    }
  }

  /** One element of `ResolveArgs`: the argument's type and its value. */
  function ResolveArg(a: Expr, typeOf: Expr -> ClrType): Result<(ClrType, Value)> {
    var m :- ResolveMemberExpression(a);
    var v :- GetValue(m);
    Ok((typeOf(a), v))
  }

  /** `ResolveArgs`: the lambda body must be a method call (else the cast fails); each
      argument in order yields one (type, value) pair, and the first failing argument's
      error is the result. */
  method ResolveArgs(body: Expr, typeOf: Expr -> ClrType) returns (r: Result<seq<(ClrType, Value)>>)
    ensures !body.Call? ==> r == Err(InvalidCast)
    ensures body.Call? && r.Ok? ==>
      |r.value| == |body.args|
      && forall i :: 0 <= i < |body.args| ==> ResolveArg(body.args[i], typeOf) == Ok(r.value[i])
    ensures body.Call? && r.Err? ==>
      exists i :: 0 <= i < |body.args| && ResolveArg(body.args[i], typeOf) == Err(r.error)
        && forall j :: 0 <= j < i ==> ResolveArg(body.args[j], typeOf).Ok?
  {
    if !body.Call? {
      return Err(InvalidCast);
    }
    var args := body.args;
    var values: seq<(ClrType, Value)> := [];
    var i := 0;
    while i < |args|
      invariant 0 <= i <= |args|
      invariant |values| == i
      invariant forall j :: 0 <= j < i ==> ResolveArg(args[j], typeOf) == Ok(values[j])
    {
      var a := ResolveArg(args[i], typeOf);
      if a.Err? {
        return Err(a.error);
      }
      values := values + [a.value];
      i := i + 1;
    }
    return Ok(values);
  }
}
