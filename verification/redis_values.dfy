/** `RedisExtensions.ConvertToRedisValue` / `ConvertFromRedisValue` for the target types
    whose encoding is plain text: enums, `bool`, `int`, `long` and `string`. */
module RedisValues {
  import opened Wrappers
  import opened Text
  import opened Ints

  /** An enum type: its members as (name, underlying value), in declaration order. */
  datatype EnumType = EnumType(members: seq<(string, int)>)

  /** Every member's value fits the default `int` underlying type. */
  predicate ValidMembers(e: EnumType) {
    forall i :: 0 <= i < |e.members| ==> InRange(e.members[i].1, 32)
  }

  datatype ValueType = EnumOf(e: EnumType) | BoolType | IntType | LongType | StringType

  /** A runtime value; `Null` is the null reference. */
  datatype Val =
    | Null
    | BoolVal(b: bool)
    | IntVal(i: int)
    | LongVal(l: int)
    | StrVal(s: string)
    | EnumVal(e: EnumType, v: int)

  /** A stored value: nil, or text. */
  datatype RedisValue = Nil | Text(text: string)

  /** What a value of type `T` can be at run time. */
  predicate HasType(v: Val, t: ValueType) {
    match t
    case EnumOf(e) => v.EnumVal? && v.e == e && InRange(v.v, 32) && ValidMembers(e)
    case BoolType => v.BoolVal?
    case IntType => v.IntVal? && InRange(v.i, 32)
    case LongType => v.LongVal? && InRange(v.l, 64)
    case StringType => v.Null? || v.StrVal?
  }

  /** The position of the first member with the given underlying value, if any. */
  function FirstWithValue(ms: seq<(string, int)>, v: int): (r: Option<nat>)
    ensures r.Some? ==>
      (r.value < |ms| && ms[r.value].1 == v && forall j :: 0 <= j < r.value ==> ms[j].1 != v)
    ensures r.None? ==> forall j :: 0 <= j < |ms| ==> ms[j].1 != v
    decreases |ms|
  {
    if |ms| == 0 then None
    else if ms[0].1 == v then Some(0)
    else
      var k :- FirstWithValue(ms[1..], v);
      Some(k + 1)
  }

  /** The position of the first member with the given name, if any. */
  function FirstWithName(ms: seq<(string, int)>, name: string): (r: Option<nat>)
    ensures r.Some? ==>
      (r.value < |ms| && ms[r.value].0 == name && forall j :: 0 <= j < r.value ==> ms[j].0 != name)
    ensures r.None? ==> forall j :: 0 <= j < |ms| ==> ms[j].0 != name
    decreases |ms|
  {
    if |ms| == 0 then None
    else if ms[0].0 == name then Some(0)
    else
      var k :- FirstWithName(ms[1..], name);
      Some(k + 1)
  }

  /** An enum value's `ToString()`: a member's name, or the number when no member has
      the value. */
  function EnumName(e: EnumType, v: int): string {
    var i := FirstWithValue(e.members, v);
    if i.Some? then e.members[i.value].0 else IntToString(v)
  }

  /** `Enum.Parse(type, text)`: a member name, else a number (an overflow when it does
      not fit the 32-bit underlying type), else an argument error. */
  function EnumParse(e: EnumType, s: string): (r: Result<Val>)
    requires ValidMembers(e)
    ensures r.Ok? ==> HasType(r.value, EnumOf(e))
    ensures r.Err? <==>
      (FirstWithName(e.members, s).None? && (ParseInteger(s).None? || !InRange(ParseInteger(s).value, 32)))
  {
    var i := FirstWithName(e.members, s);
    if i.Some? then Ok(EnumVal(e, e.members[i.value].1))
    else
      var n := ParseInteger(s);
      if n.None? then Err(ArgumentError)
      else if !InRange(n.value, 32) then Err(Overflow)
      else Ok(EnumVal(e, n.value))
  }

  /** The text `ToString()` gives for a value. */
  function Shown(v: Val): string {
    match v
    case Null => ""
    case BoolVal(b) => if b then "True" else "False"
    case IntVal(i) => IntToString(i)
    case LongVal(l) => IntToString(l)
    case StrVal(s) => s
    case EnumVal(e, x) => EnumName(e, x)
  }

  /** `ConvertToRedisValue<T>`: null becomes nil, an enum its name, a bool `1`/`0`, an
      integer its decimal text and a string itself. */
  function ConvertTo(t: ValueType, v: Val): (r: RedisValue)
    requires HasType(v, t)
    ensures v.Null? <==> r.Nil?
    ensures t == BoolType ==> r == Text(if v.b then "1" else "0")
    ensures t == StringType && v.StrVal? ==> r == Text(v.s)
  {
    if v.Null? then Nil
    else
      match t
      case EnumOf(_) => Text(Shown(v))
      case BoolType => Text(if v.b then "1" else "0")
      case IntType => Text(IntToString(v.i))
      case LongType => Text(IntToString(v.l))
      case StringType => Text(Shown(v))
  }

  /** `default(T)`. */
  function Default(t: ValueType): (r: Val)
    requires t.EnumOf? ==> ValidMembers(t.e)
    ensures t != StringType ==> HasType(r, t)
  {
    match t
    case EnumOf(e) => EnumVal(e, 0)
    case BoolType => BoolVal(false)
    case IntType => IntVal(0)
    case LongType => LongVal(0)
    case StringType => Null
  }

  /** `int.Parse` / `long.Parse`: text that is not a number is a format error, a number
      out of range an overflow. */
  function ParseBits(s: string, bits: nat): (r: Result<int>)
    ensures r.Ok? ==> InRange(r.value, bits) && ParseInteger(s) == Some(r.value)
    ensures ParseInteger(s).Some? && InRange(ParseInteger(s).value, bits) ==> r == Ok(ParseInteger(s).value)
    ensures r.Err? ==> r.error == (if ParseInteger(s).None? then Format else Overflow)
  {
    var n := ParseInteger(s);
    if n.None? then Err(Format)
    else if !InRange(n.value, bits) then Err(Overflow)
    else Ok(n.value)
  }

  /** `ConvertFromRedisValue<T>`: nil becomes `default(T)`; a bool is true exactly for
      `1`; numbers and enums are parsed; a string is taken verbatim. */
  function ConvertFrom(t: ValueType, rv: RedisValue): (r: Result<Val>)
    requires t.EnumOf? ==> ValidMembers(t.e)
    ensures rv.Nil? ==> r == Ok(Default(t))
    ensures t == BoolType && rv.Text? ==> r == Ok(BoolVal(rv.text == "1"))
    ensures t == StringType && rv.Text? ==> r == Ok(StrVal(rv.text))
    ensures r.Ok? && t != StringType ==> HasType(r.value, t)
    ensures r.Err? ==> rv.Text? && !t.BoolType? && !t.StringType?
    ensures t == IntType && rv.Text? ==>
      var p := ParseBits(rv.text, 32); r == (if p.Ok? then Ok(IntVal(p.value)) else Err(p.error))
    ensures t == LongType && rv.Text? ==>
      var p := ParseBits(rv.text, 64); r == (if p.Ok? then Ok(LongVal(p.value)) else Err(p.error))
    ensures t.EnumOf? && rv.Text? ==> r == EnumParse(t.e, rv.text)
  {
    if rv.Nil? then Ok(Default(t))
    else
      match t
      case EnumOf(e) => EnumParse(e, rv.text)
      case BoolType => Ok(BoolVal(rv.text == "1"))
      case IntType => var i :- ParseBits(rv.text, 32); Ok(IntVal(i))
      case LongType => var l :- ParseBits(rv.text, 64); Ok(LongVal(l))
      case StringType => Ok(StrVal(rv.text))
  }

  /** Enum member names are identifiers: distinct, and never numeric text. */
  predicate WellFormedEnum(e: EnumType) {
    ValidMembers(e)
    && (forall i, j :: 0 <= i < j < |e.members| ==> e.members[i].0 != e.members[j].0)
    && (forall i :: 0 <= i < |e.members| ==> ParseInteger(e.members[i].0).None?)
  }

  /** An enum value comes back from its stored name. */
  lemma EnumRoundTrip(e: EnumType, v: int)
    requires WellFormedEnum(e) && InRange(v, 32)
    ensures EnumParse(e, EnumName(e, v)) == Ok(EnumVal(e, v))
  {
    var i := FirstWithValue(e.members, v);
    if i.Some? {
      var name := e.members[i.value].0;
      assert EnumName(e, v) == name;
      var n := FirstWithName(e.members, name);
      assert n == Some(i.value);
    } else {
      var text := IntToString(v);
      assert EnumName(e, v) == text;
      IntToStringRoundTrip(v);
      assert FirstWithName(e.members, text).None? by {
        forall j | 0 <= j < |e.members| ensures e.members[j].0 != text {
          assert ParseInteger(e.members[j].0).None?;
        }
      }
      assert EnumParse(e, text) == Ok(EnumVal(e, v));
    }
  }

  /** Every value of a supported type survives storage: enums (with identifier names),
      bools, 32- and 64-bit integers, strings and the null string. */
  lemma RoundTrip(t: ValueType, v: Val)
    requires HasType(v, t)
    requires t.EnumOf? ==> WellFormedEnum(t.e)
    ensures ConvertFrom(t, ConvertTo(t, v)) == Ok(v)
  {
    match t
    case EnumOf(e) => EnumRoundTrip(e, v.v);
    case BoolType =>
    case IntType => IntToStringRoundTrip(v.i);
    case LongType => IntToStringRoundTrip(v.l);
    case StringType =>
  }

  /** A stored bool reads back true only for exactly `1`. */
  lemma BoolReadsOnlyOne(s: string)
    requires s != "1"
    ensures ConvertFrom(BoolType, Text(s)) == Ok(BoolVal(false))
  {
  }
}
