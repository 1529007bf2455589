/** The service's failures: the three exception classes of the service
    (document not found, invalid comment location, optimistic locking) and the
    `IllegalArgumentException` that a Kotlin `require` throws. Each carries the
    facts its message reports rather than the message text. */
module Errors {

  /** Documents are identified by an opaque key; the model numbers them. */
  type DocId = nat

  datatype Option<T> = None | Some(value: T)

  /** Why a location does not fit the document it is checked against. */
  datatype LocationProblem =
    | StartBeyondLength(startChar: int)            // "Start character … exceeds document length"
    | EndBeyondLength(endChar: int)                // "End character … exceeds document length"
    | ParagraphBeyondCount(index: int, count: nat) // "Paragraph index … exceeds document paragraph count (…)"
    | LineBeyondCount(line: int, count: nat)       // "Line number … exceeds document line count (…)"
    | AnchorNotFound(anchor: string)               // "Anchor text '…' not found in document"

  /** Which `require` failed. */
  datatype ArgumentProblem =
    | StartAfterEnd           // start character must not exceed end character
    | NegativeParagraph       // paragraph index cannot be negative
    | NonPositiveLine         // line number must be positive
    | BlankAnchor             // anchor text cannot be blank
    | BlankBlockId            // block id cannot be blank
    | BlockNotFound(blockId: string)
    | NoLocationReference     // at least one location reference must be provided

  /** What the optimistic-locking failure reports. */
  datatype Conflict =
    | VersionMismatch(expected: int, current: int) // the service's own version compare
    | ConcurrentModification                       // the store rejected the write

  datatype Error =
    | DocumentNotFound(id: DocId)
    | InvalidCommentLocation(problem: LocationProblem)
    | OptimisticLocking(conflict: Conflict)
    | IllegalArgument(reason: ArgumentProblem)

  /** An operation that returns nothing: it completes or throws. */
  datatype Outcome = Pass | Fail(error: Error)

  /** An operation that returns a value or throws. */
  datatype Result<T> = Success(value: T) | Failure(error: Error)

  /** Run the first check, and the second only if the first passed. */
  function Then(first: Outcome, second: Outcome): Outcome {
    if first.Fail? then first else second
  }
}
