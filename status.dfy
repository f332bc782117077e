// Status codes shared by every operation of the record store, and the
// message table that turns a code into text.

module Status {

  import opened Wrappers

  /** The eight status values, in the order of their integer codes 0..7. */
  datatype CmsStatus =
    | Ok
    | Error
    | InvalidArgument
    | Io
    | ParseError
    | NotFound
    | Duplicate
    | NotImplemented

  /** The integer value the enumeration gives each status. */
  function Code(s: CmsStatus): (c: int)
    ensures 0 <= c < 8
  {
    match s
    case Ok => 0
    case Error => 1
    case InvalidArgument => 2
    case Io => 3
    case ParseError => 4
    case NotFound => 5
    case Duplicate => 6
    case NotImplemented => 7
  }

  /** The status with a given code, if the code belongs to the enumeration. */
  function FromCode(c: int): (s: Option<CmsStatus>)
    ensures s.Some? <==> 0 <= c < 8
    ensures s.Some? ==> Code(s.value) == c
  {
    if c == 0 then Some(Ok)
    else if c == 1 then Some(Error)
    else if c == 2 then Some(InvalidArgument)
    else if c == 3 then Some(Io)
    else if c == 4 then Some(ParseError)
    else if c == 5 then Some(NotFound)
    else if c == 6 then Some(Duplicate)
    else if c == 7 then Some(NotImplemented)
    else None
  }

  /** The value of an operation that either yields a `T` or fails with a status. */
  datatype Result<T> = Success(value: T) | Failure(status: CmsStatus)

  const UnknownMessage: string := "Unknown status"

  /** The message of a status value. */
  function Message(s: CmsStatus): string
  {
    match s
    case Ok => "OK"
    case Error => "Error"
    case InvalidArgument => "Invalid argument"
    case Io => "I/O error"
    case ParseError => "Parse error"
    case NotFound => "Not found"
    case Duplicate => "Duplicate record"
    case NotImplemented => "Not implemented"
  }

  /**
   * The message table, indexed by the integer the caller passes: any code
   * of the enumeration gives that status' text, anything else the fixed
   * "Unknown status" text. The result is never empty (never NULL).
   */
  function StatusMessage(code: int): (m: string)
    ensures |m| > 0
    ensures 0 <= code < 8 ==> m == Message(FromCode(code).value)
    ensures !(0 <= code < 8) ==> m == UnknownMessage
  {
    match FromCode(code)
    case Some(s) => Message(s)
    case None => UnknownMessage
  }

  /** Distinct statuses have distinct messages, and none of them reads as unknown. */
  lemma MessagesDistinct(s: CmsStatus, t: CmsStatus)
    ensures s != t ==> Message(s) != Message(t)
    ensures Message(s) != UnknownMessage
  {
  }

  /** The table agrees with each status' own code. */
  lemma MessageOfCode(s: CmsStatus)
    ensures StatusMessage(Code(s)) == Message(s)
  {
  }
}
