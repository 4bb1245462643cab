/** The parser's error enumeration and its `std::error_category`. */
module ErrorHandler {
  import opened Prelude

  /** `parser_errors`, declared in this order starting at 1. */
  datatype ParserError =
    | FileNotFound
    | FileOpenFail
    | LineEmpty
    | InsufficientArgs
    | TooManyArgs
    | TargetUnclosedQuote
    | BadOffsetAddress
    | BadDataLength
    | BadDataBytes

  /** The enumerator's underlying `int`. */
  function Code(e: ParserError): (c: int)
    ensures 1 <= c <= 9
  {
    match e
    case FileNotFound => 1
    case FileOpenFail => 2
    case LineEmpty => 3
    case InsufficientArgs => 4
    case TooManyArgs => 5
    case TargetUnclosedQuote => 6
    case BadOffsetAddress => 7
    case BadDataLength => 8
    case BadDataBytes => 9
  }

  /** `static_cast<parser_errors>(c)` followed by a test for a named
      enumerator: `None` for any integer that names none. */
  function FromCode(c: int): (r: Option<ParserError>)
    ensures r.Some? <==> 1 <= c <= 9
    ensures r.Some? ==> Code(r.value) == c
  {
    if c == 1 then Some(FileNotFound)
    else if c == 2 then Some(FileOpenFail)
    else if c == 3 then Some(LineEmpty)
    else if c == 4 then Some(InsufficientArgs)
    else if c == 5 then Some(TooManyArgs)
    else if c == 6 then Some(TargetUnclosedQuote)
    else if c == 7 then Some(BadOffsetAddress)
    else if c == 8 then Some(BadDataLength)
    else if c == 9 then Some(BadDataBytes)
    else None
  }

  /** Every enumerator's integer reads back as that enumerator, and the
      enumerators take the consecutive values 1..9 with no gaps. */
  lemma CodeRoundTrip(e: ParserError)
    ensures FromCode(Code(e)) == Some(e)
  {
  }

  lemma CodesInjective(e1: ParserError, e2: ParserError)
    ensures Code(e1) == Code(e2) ==> e1 == e2
  {
    CodeRoundTrip(e1);
    CodeRoundTrip(e2);
  }

  /** `error_category_t::name()` */
  const CategoryName: string := "meanp_parser"

  const UnknownMessage: string := "unknown parser error"

  /** `error_category_t::message(c)` */
  function Message(c: int): (m: string)
    ensures |m| > 0
    ensures m == UnknownMessage <==> FromCode(c).None?
  {
    match FromCode(c)
    case None => UnknownMessage
    case Some(e) =>
      match e
      case FileNotFound => "input file does not exist"
      case FileOpenFail => "input file could not be opened"
      case LineEmpty => "line is empty or a comment"
      case InsufficientArgs => "line does not contain enough arguments"
      case TooManyArgs => "line contains too many arguments"
      case TargetUnclosedQuote => "target filename contains an unclosed quote"
      case BadOffsetAddress => "offset is not a valid hexadecimal number"
      case BadDataLength => "data length is not a multiple of 2"
      case BadDataBytes => "data contains invalid hex characters"
  }

  /** No two enumerators share a message, so a message identifies its error. */
  lemma MessagesDistinct(e1: ParserError, e2: ParserError)
    ensures Message(Code(e1)) == Message(Code(e2)) ==> e1 == e2
  {
  }

  /** `std::error_code`: an integer value and the category it belongs to. */
  datatype ErrorCode = ErrorCode(value: int, category: string)

  /** `make_error_code(e)`: the code keeps the enumerator's integer, so it
      decodes back to `e` and never carries the unknown-error text. */
  function MakeErrorCode(e: ParserError): (r: ErrorCode)
    ensures FromCode(r.value) == Some(e)
    ensures r.category == CategoryName
    ensures Message(r.value) != UnknownMessage
  {
    ErrorCode(Code(e), CategoryName)
  }
}
