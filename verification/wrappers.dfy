/** Failure-compatible wrappers shared by every module of the model.

    The C# library signals errors by throwing exceptions; here every operation that can
    throw returns a `Result`, whose `Err` carries the exception kind. `Option` stands in
    for a nullable reference (`None` is `null`). */
module Wrappers {

  datatype Option<+T> = None | Some(value: T) {

    predicate IsFailure() {
      None?
    }

    function PropagateFailure<U>(): Option<U>
      requires None?
    {
      None
    }

    function Extract(): T
      requires Some?
    {
      value
    }

    function GetOr(default: T): T {
      match this
      case Some(v) => v
      case None => default
    }
  }

  /** The .NET exception kinds the modelled code can raise. */
  datatype Error =
    | ArgumentError          // ArgumentException
    | ArgumentNull           // ArgumentNullException
    | ArgumentOutOfRange     // ArgumentOutOfRangeException / IndexOutOfRangeException
    | InvalidOperation       // InvalidOperationException
    | NotSupported           // NotSupportedException
    | NotImplemented         // NotImplementedException
    | NullReference          // NullReferenceException
    | InvalidCast            // InvalidCastException
    | Format                 // FormatException from a Parse
    | Overflow               // OverflowException from a Parse
    | Target                 // TargetException from reflection on a null instance
    | MissingConstructor     // MissingMethodException from Activator.CreateInstance
    | MemberAccess           // MemberAccessException from invoking an abstract class's constructor
    | TargetParameterCount   // TargetParameterCountException from reading an indexer without an index

  datatype Result<+T> = Ok(value: T) | Err(error: Error) {

    predicate IsFailure() {
      Err?
    }

    function PropagateFailure<U>(): Result<U>
      requires Err?
    {
      Err(error)
    }

    function Extract(): T
      requires Ok?
    {
      value
    }
  }
}
