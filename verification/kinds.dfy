/** Index kinds and the slice of .NET type information the library inspects. */
module Kinds {
  import opened Wrappers

  /** `IndexType`: the RediSearch field kind of an indexed property; `Auto` asks for resolution. */
  datatype IndexType = Auto | Tag | Text | Numeric

  /** The enum's `ToString()`. */
  function IndexTypeName(k: IndexType): (r: string)
    ensures |r| > 0
  {
    match k
    case Auto => "Auto"
    case Tag => "Tag"
    case Text => "Text"
    case Numeric => "Numeric"
  }

  lemma IndexTypeNameInjective(a: IndexType, b: IndexType)
    requires IndexTypeName(a) == IndexTypeName(b)
    ensures a == b
  {
  }

  /** `System.TypeCode`, as returned by `Type.GetTypeCode`. */
  datatype TypeCode =
    | Empty | Object | DBNull | Boolean | Char
    | SByte | Byte | Int16 | UInt16 | Int32 | UInt32 | Int64 | UInt64
    | Single | Double | Decimal | DateTime | String

  /** A runtime type: its full name, short name, type code, generic type definition
      (meaningful when generic), generic arguments (non-empty exactly for generic types)
      and base type (`None` for `object` and interfaces). */
  datatype ClrType = ClrType(
    fullName: string,
    name: string,
    code: TypeCode,
    genericDefinition: string,
    genericArgs: seq<ClrType>,
    baseType: Option<ClrType>)
  {
    predicate IsGenericType() {
      |genericArgs| > 0
    }
  }

  const StringTypeName: string := "System.String"
  const ObjectTypeName: string := "System.Object"

  /** `type == typeof(string)`. */
  predicate IsStringType(t: ClrType) {
    t.fullName == StringTypeName
  }

  /** The eleven type codes both helpers treat as numeric. */
  const NumericCodes: set<TypeCode> :=
    {Byte, SByte, UInt16, UInt32, UInt64, Int16, Int32, Int64, Decimal, Double, Single}
}

/** `AsyncRedisDocuments.Helper.IndexTypeHelper`: resolution of a type to an index kind. */
module IndexTypeHelper {
  import opened Kinds

  /** The `switch` over `Type.GetTypeCode(type)`. */
  predicate IsNumericType(t: ClrType) {
    match t.code
    case Byte => true
    case SByte => true
    case UInt16 => true
    case UInt32 => true
    case UInt64 => true
    case Int16 => true
    case Int32 => true
    case Int64 => true
    case Decimal => true
    case Double => true
    case Single => true
    case _ => false
  }

  lemma IsNumericTypeIsCodeSet(t: ClrType)
    ensures IsNumericType(t) <==> t.code in NumericCodes
  {
  }

  function GetIndexType(t: ClrType): (k: IndexType)
    ensures k != Auto
    ensures k == Numeric <==> t.code in NumericCodes
    ensures k == Text <==> t.code !in NumericCodes && IsStringType(t)
    ensures k == Tag <==> t.code !in NumericCodes && !IsStringType(t)
  {
    if IsNumericType(t) then Numeric
    else if IsStringType(t) then Text
    else Tag
  }

  /** `GetIndexType<TValue>()`, with `TValue` passed as its runtime type. */
  function GetIndexTypeOf(t: ClrType): IndexType {
    GetIndexType(t)
  }
}

/** `AsyncRedisDocuments.Index.IndexTypeHelper`: the generic-only twin of the helper above. */
module GenericIndexTypeHelper {
  import opened Kinds
  import IndexTypeHelper

  predicate IsNumericType(t: ClrType) {
    t.code == Byte || t.code == SByte || t.code == UInt16 || t.code == UInt32
    || t.code == UInt64 || t.code == Int16 || t.code == Int32 || t.code == Int64
    || t.code == Decimal || t.code == Double || t.code == Single
  }

  /** `GetIndexType<TValue>()`: never `Auto`, and in agreement with the other helper. */
  function GetIndexType(t: ClrType): (k: IndexType)
    ensures k != Auto
    ensures k == IndexTypeHelper.GetIndexType(t)
  {
    if IsNumericType(t) then Numeric
    else if IsStringType(t) then Text
    else Tag
  }
}
