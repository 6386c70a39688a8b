/// Shapes of the .NET runtime that the modelled C# code relies on: nullable
/// references, the exceptions it throws, the argument of an Equals(object)
/// override, and the fixed-width integer types of its fields.
module DotNet {

  /// A reference that may be null.
  datatype Option<+T> = None | Some(value: T)

  /// The exceptions thrown by the modelled code.
  datatype Exception =
    | ArgumentException
    | ArgumentNullException
    | InvalidOperationException
    | NullReferenceException
    | GeneralException  // a plain System.Exception carrying only a message

  /// The value of an expression that either yields a value or throws.
  datatype Result<+T> = Ok(value: T) | Err(error: Exception)

  /// The completion of a void method: it returns normally or throws.
  datatype Outcome = Pass | Fail(error: Exception)

  /// The argument of an Equals(object) override: a null reference, an object
  /// of an unrelated type, or an instance of the receiver's own type.
  datatype Operand<+T> = Null | OtherType | Instance(value: T)

  /// System.Int32.
  type int32 = x: int | -0x8000_0000 <= x < 0x8000_0000

  /// System.Int64.
  type int64 = x: int | -0x8000_0000_0000_0000 <= x < 0x8000_0000_0000_0000

  /// System.UInt64.
  type uint64 = x: int | 0 <= x < 0x1_0000_0000_0000_0000
}
