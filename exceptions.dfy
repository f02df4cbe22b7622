/** The exceptions the REPL control raises or lets through, and the
  * Option/Result wrappers that stand for `null` and for "returns or throws". */
module Exceptions {

  datatype Option<T> = None | Some(value: T)

  /** What a .NET call does: return a value, or throw an exception. */
  datatype Result<T> = Ok(value: T) | Err(error: Exception)

  datatype Exception =
      /** `ApplicationException`, thrown by the control's own checks. */
    | ApplicationException(text: string)
      /** IronRuby's `NotImplementedError`. */
    | NotImplementedError(text: string)
      /** `ArgumentOutOfRangeException` from indexing an empty `List<Run>`. */
    | ArgumentOutOfRange
      /** Anything an engine raises while running guest code. */
    | GuestError(text: string)
  {
    /** `Exception.Message`, which the catch block renders. */
    function Message(): string
    {
      match this
      case ApplicationException(t) => t
      case NotImplementedError(t) => t
      // the .NET Framework's text for List<T>'s indexer
      case ArgumentOutOfRange =>
        "Index was out of range. Must be non-negative and less than the size of the collection.\r\nParameter name: index"
      case GuestError(t) => t
    }
  }

  /** Thrown by `GetInlineUnderPosition` when a pointer's parent is not an inline. */
  const NotAnInline := ApplicationException("text pointer is not pointing to an Inline??!!")

  /** Thrown by `GetParagraph` when an inline's parent is not a paragraph. */
  const NoParagraph := ApplicationException("is it possible for a Run to not have a Paragraph as a perent??")

  /** Thrown by `InsertInspectedResult` when `as_xaml` does not return a string. */
  const NoUIElementInsertion := NotImplementedError("do not have mechanism to insert UIElement in middle of flow document yet")
}
