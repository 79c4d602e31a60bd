/**
  `RespEncode` of the incremental codec: the exact bytes each frame type
  writes. An empty bulk string and an empty array are written in their null
  forms; an empty map is written with count 0.
*/
module RespEncode {
  import opened Bytes
  import opened Numeric
  import opened Frames

  const NULL_BYTES: Bytes := [NULL_PREFIX, CR, LF]              // "_\r\n"
  const NULL_BULK_STRING: Bytes := [BULK_PREFIX, MINUS, 49, CR, LF]  // "$-1\r\n"
  const NULL_ARRAY: Bytes := [ARRAY_PREFIX, MINUS, 49, CR, LF]       // "*-1\r\n"
  const TRUE_BYTES: Bytes := [BOOL_PREFIX, 116, CR, LF]          // "#t\r\n"
  const FALSE_BYTES: Bytes := [BOOL_PREFIX, 102, CR, LF]         // "#f\r\n"

  /** A prefix byte, a body and the CRLF terminator. */
  function Line(prefix: byte, body: Bytes): Bytes {
    [prefix] + body + CRLF
  }

  function EncodeSimpleString(s: Bytes): Bytes {
    Line(SIMPLE_STRING_PREFIX, s)
  }

  function EncodeSimpleError(s: Bytes): Bytes {
    Line(ERROR_PREFIX, s)
  }

  function EncodeInteger(n: int): Bytes {
    Line(INTEGER_PREFIX, FormatInt(n))
  }

  function EncodeBool(b: bool): Bytes {
    if b then TRUE_BYTES else FALSE_BYTES
  }

  function EncodeBulkString(data: Bytes): Bytes {
    if |data| == 0 then NULL_BULK_STRING
    else Line(BULK_PREFIX, Decimal(|data|)) + data + CRLF
  }

  function EncodeDouble(literal: Bytes): Bytes {
    Line(DOUBLE_PREFIX, literal)
  }

  function Encode(f: Frame): Bytes
    decreases f, 1
  {
    match f
    case SimpleString(s) => EncodeSimpleString(s)
    case Error(s) => EncodeSimpleError(s)
    case Integer(n) => EncodeInteger(n)
    case BulkString(data) => EncodeBulkString(data)
    case Array(items) => EncodeArray(items)
    case Null => NULL_BYTES
    case Boolean(b) => EncodeBool(b)
    case Double(literal) => EncodeDouble(literal)
    case Map(entries) => EncodeMap(entries)
    case Set(items) => EncodeSet(items)
  }

  /** The element encodings, concatenated in order. */
  function EncodeItems(items: seq<Frame>): Bytes
    decreases items, 0
  {
    if |items| == 0 then [] else Encode(items[0]) + EncodeItems(items[1..])
  }

  /** Each key as a SimpleString followed by its value, in entry order. */
  function EncodeEntries(entries: seq<Entry>): Bytes
    decreases entries, 0
  {
    if |entries| == 0 then []
    else EncodeSimpleString(entries[0].key) + Encode(entries[0].value) + EncodeEntries(entries[1..])
  }

  function EncodeArray(items: seq<Frame>): Bytes
    decreases items, 1
  {
    if |items| == 0 then NULL_ARRAY
    else Line(ARRAY_PREFIX, Decimal(|items|)) + EncodeItems(items)
  }

  function EncodeMap(entries: seq<Entry>): Bytes
    decreases entries, 1
  {
    Line(MAP_PREFIX, Decimal(|entries|)) + EncodeEntries(entries)
  }

  function EncodeSet(items: seq<Frame>): Bytes
    decreases items, 1
  {
    Line(SET_PREFIX, Decimal(|items|)) + EncodeItems(items)
  }
}
