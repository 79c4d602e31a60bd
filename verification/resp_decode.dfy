/**
  `RespDecode` of the incremental codec. Every decoder reads from the front
  of a buffer and reports how many bytes it removed (`Decoded.used`); the
  `Expect*` probes report how long the next frame is without removing
  anything, so that an aggregate can check that all of its elements have
  arrived before it starts taking them apart.
*/
module RespDecode {
  import opened Bytes
  import opened Numeric
  import opened Frames
  import opened RespEncode

  /** `buf.starts_with(fixed)`. */
  predicate StartsWith(buf: Bytes, fixed: Bytes) {
    |fixed| <= |buf| && buf[..|fixed|] == fixed
  }

  // ---------------------------------------------------------------------
  // Shared helpers of the frame decoders

  /**
    Locates the line of a simple frame: the buffer must start with `prefix`,
    and the result is the index of the first CRLF after it.
  */
  function ExtractSimpleFrameData(buf: Bytes, prefix: byte): (r: Result<nat>)
    ensures r.Ok? <==> |buf| > 0 && buf[0] == prefix && FindCrlf(buf, 1).Some?
    ensures r.Ok? ==> FindCrlf(buf, 1) == Some(r.value)
    ensures r == Err(InvalidFrameType) <==> |buf| > 0 && buf[0] != prefix
    ensures r.Err? ==> r.error == NotComplete || r.error == InvalidFrameType
  {
    if |buf| == 0 then Err(NotComplete)
    else if buf[0] != prefix then Err(InvalidFrameType)
    else match FindCrlf(buf, 1)
      case None => Err(NotComplete)
      case Some(end) => Ok(end)
  }

  /** Matches a fixed byte string at the front of the buffer. */
  function ExtractFixedData(buf: Bytes, fixed: Bytes): (r: Result<nat>)
    ensures r.Ok? <==> StartsWith(buf, fixed)
    ensures r.Ok? ==> r.value == |fixed|
    ensures r == Err(NotComplete) <==> |buf| < |fixed|
    ensures r.Err? ==> r.error == NotComplete || r.error == InvalidFrameType
  {
    if |buf| < |fixed| then Err(NotComplete)
    else if buf[..|fixed|] != fixed then Err(InvalidFrameType)
    else Ok(|fixed|)
  }

  /** Where the header line of an aggregate or bulk frame ends, and the count it carries. */
  datatype Header = Header(end: nat, len: nat)

  /**
    The count on a header line whose type byte has already been checked: the
    text between the type byte and the first CRLF, read as a `usize`.
  */
  function ReadHeader(buf: Bytes): (r: Result<Header>)
    ensures r.Ok? ==>
      FindCrlf(buf, 1) == Some(r.value.end) &&
      ParseInt(buf[1..r.value.end], false, 0, USIZE_MAX) == Some(r.value.len as int)
    ensures r.Err? ==> (r.error == NotComplete <==> FindCrlf(buf, 1).None?)
    ensures r.Err? ==> r.error == NotComplete || r.error == ParseIntError
  {
    match FindCrlf(buf, 1)
    case None => Err(NotComplete)
    case Some(end) =>
      match ParseInt(buf[1..end], false, 0, USIZE_MAX)
      case None => Err(ParseIntError)
      case Some(len) => Ok(Header(end, len as nat))
  }

  /** Reads a `<prefix><unsigned decimal>\r\n` header. */
  function ParseLength(buf: Bytes, prefix: byte): (r: Result<Header>)
    ensures r.Ok? ==> |buf| > 0 && buf[0] == prefix
    ensures |buf| > 0 && buf[0] == prefix ==> r == ReadHeader(buf)
    ensures |buf| == 0 ==> r == Err(NotComplete)
    ensures |buf| > 0 && buf[0] != prefix ==> r == Err(InvalidFrameType)
  {
    if |buf| == 0 then Err(NotComplete)
    else if buf[0] != prefix then Err(InvalidFrameType)
    else ReadHeader(buf)
  }

  /** Which element layout follows an aggregate header. */
  datatype Layout = Items | Entries

  /**
    Total length of an aggregate whose header ends at `end` and announces
    `len` elements: the header plus the probed length of every element.
  */
  function CalcTotalLength(buf: Bytes, end: nat, len: nat, layout: Layout): (r: Result<nat>)
    requires end + 2 <= |buf|
    ensures r.Ok? ==> end + 2 <= r.value <= |buf|
    decreases |buf|, 1
  {
    var body := match layout
      case Items => ProbeItems(buf[end + 2..], len)
      case Entries => ProbeEntries(buf[end + 2..], len);
    match body
    case Err(e) => Err(e)
    case Ok(n) => Ok(end + 2 + n)
  }

  /** The probed length of one element of an array or a set. */
  function ExpectElement(buf: Bytes): Result<nat>
    decreases |buf|, 5
  {
    ExpectLength(buf)
  }

  /** Probed length of `n` consecutive frames. */
  function ProbeItems(buf: Bytes, n: nat): (r: Result<nat>)
    ensures r.Ok? ==> r.value <= |buf|
    ensures n == 0 ==> r == Ok(0)
    decreases |buf|, 6, n
  {
    if n == 0 then Ok(0)
    else match ExpectElement(buf)
      case Err(e) => Err(e)
      case Ok(k) =>
        if |buf| < k then Err(NotComplete)
        else match ProbeItems(buf[k..], n - 1)
          case Err(e) => Err(e)
          case Ok(m) => Ok(k + m)
  }

  /** Probed length of one map entry: a SimpleString key, then a frame. */
  function ProbePair(buf: Bytes): (r: Result<nat>)
    ensures r.Ok? ==> ExpectSimpleString(buf).Ok? && ExpectSimpleString(buf).value <= r.value
    decreases |buf|, 1
  {
    match ExpectSimpleString(buf)
    case Err(e) => Err(e)
    case Ok(k) =>
      match ExpectElement(buf[k..])
      case Err(e) => Err(e)
      case Ok(v) => Ok(k + v)
  }

  /** Probed length of `n` consecutive map entries. */
  function ProbeEntries(buf: Bytes, n: nat): (r: Result<nat>)
    ensures r.Ok? ==> r.value <= |buf|
    ensures n == 0 ==> r == Ok(0)
    decreases |buf|, 6, n
  {
    if n == 0 then Ok(0)
    else match ProbePair(buf)
      case Err(e) => Err(e)
      case Ok(k) =>
        if |buf| < k then Err(NotComplete)
        else match ProbeEntries(buf[k..], n - 1)
          case Err(e) => Err(e)
          case Ok(m) => Ok(k + m)
  }

  // ---------------------------------------------------------------------
  // Length probes (`expect_length`)

  /** The length of a line frame with the given prefix, CRLF included. */
  function ExpectLine(buf: Bytes, prefix: byte): (r: Result<nat>)
    ensures r.Ok? ==> 3 <= r.value <= |buf| && FindCrlf(buf, 1) == Some(r.value - 2)
    ensures r.Err? <==> ExtractSimpleFrameData(buf, prefix).Err?
    ensures r.Err? ==> r.error == ExtractSimpleFrameData(buf, prefix).error
  {
    match ExtractSimpleFrameData(buf, prefix)
    case Err(e) => Err(e)
    case Ok(end) => Ok(end + 2)
  }

  function ExpectSimpleString(buf: Bytes): (r: Result<nat>)
    ensures r.Ok? ==> 3 <= r.value <= |buf| && buf[0] == SIMPLE_STRING_PREFIX
  {
    ExpectLine(buf, SIMPLE_STRING_PREFIX)
  }

  function ExpectBulkString(buf: Bytes): (r: Result<nat>)
    ensures StartsWith(buf, NULL_BULK_STRING) ==> r == Ok(5)
    ensures !StartsWith(buf, NULL_BULK_STRING) ==>
      r.Ok? == ParseLength(buf, BULK_PREFIX).Ok? &&
      (r.Ok? ==> r.value == ParseLength(buf, BULK_PREFIX).value.end + 4 + ParseLength(buf, BULK_PREFIX).value.len)
  {
    if StartsWith(buf, NULL_BULK_STRING) then Ok(5)
    else match ParseLength(buf, BULK_PREFIX)
      case Err(e) => Err(e)
      case Ok(h) => Ok(h.end + 2 + h.len + 2)
  }

  /** Probed length of a counted aggregate: its header and the probed elements. */
  function ExpectCounted(buf: Bytes, prefix: byte, layout: Layout): (r: Result<nat>)
    ensures r.Ok? ==> ParseLength(buf, prefix).Ok? && r.value <= |buf|
    decreases |buf|, 2
  {
    match ParseLength(buf, prefix)
    case Err(e) => Err(e)
    case Ok(h) => CalcTotalLength(buf, h.end, h.len, layout)
  }

  function ExpectArray(buf: Bytes): (r: Result<nat>)
    ensures StartsWith(buf, NULL_ARRAY) ==> r == Ok(5)
    ensures r.Ok? ==> r.value <= |buf|
    decreases |buf|, 3
  {
    if StartsWith(buf, NULL_ARRAY) then Ok(5)
    else ExpectCounted(buf, ARRAY_PREFIX, Items)
  }

  /**
    `RespFrame::expect_length`: dispatches on the first byte. The Boolean and
    Null probes answer their fixed lengths without looking further.
  */
  function ExpectLength(buf: Bytes): (r: Result<nat>)
    ensures |buf| == 0 ==> r == Err(NotComplete)
    decreases |buf|, 4
  {
    if |buf| == 0 then Err(NotComplete)
    else
      var p := buf[0];
      if p == ARRAY_PREFIX then ExpectArray(buf)
      else if p == SET_PREFIX then ExpectCounted(buf, SET_PREFIX, Items)
      else if p == MAP_PREFIX then ExpectCounted(buf, MAP_PREFIX, Entries)
      else if p == BULK_PREFIX then ExpectBulkString(buf)
      else if p == INTEGER_PREFIX then ExpectLine(buf, INTEGER_PREFIX)
      else if p == SIMPLE_STRING_PREFIX then ExpectLine(buf, SIMPLE_STRING_PREFIX)
      else if p == ERROR_PREFIX then ExpectLine(buf, ERROR_PREFIX)
      else if p == BOOL_PREFIX then Ok(|TRUE_BYTES|)
      else if p == DOUBLE_PREFIX then ExpectLine(buf, DOUBLE_PREFIX)
      else if p == NULL_PREFIX then Ok(|NULL_BYTES|)
      else Err(InvalidFrameType)
  }

  // ---------------------------------------------------------------------
  // Decoders

  /** The body of a line frame: everything between the prefix and the first CRLF. */
  function DecodeLine(buf: Bytes, prefix: byte): (r: Decoded<Bytes>)
    ensures r.Parsed? <==> ExpectLine(buf, prefix).Ok?
    ensures r.Parsed? ==> r.used == ExpectLine(buf, prefix).value && r.value == buf[1..r.used - 2]
    ensures r.Failed? ==> r.used == 0 && r.error == ExpectLine(buf, prefix).error
  {
    match ExtractSimpleFrameData(buf, prefix)
    case Err(e) => Failed(e, 0)
    case Ok(end) => Parsed(buf[1..end], end + 2)
  }

  function DecodeSimpleString(buf: Bytes): (r: Decoded<Bytes>)
    ensures r.Parsed? ==>
      3 <= r.used <= |buf| && buf[0] == SIMPLE_STRING_PREFIX &&
      FindCrlf(buf, 1) == Some(r.used - 2) && r.value == buf[1..r.used - 2]
    ensures r.Failed? ==> r.used == 0
  {
    DecodeLine(buf, SIMPLE_STRING_PREFIX)
  }

  /**
    An integer line. A line that is not a 64-bit decimal is a parse error,
    and the line is consumed all the same.
  */
  function DecodeInteger(buf: Bytes): (r: Decoded<int>)
    ensures r.Parsed? ==>
      IsI64(r.value) && 3 <= r.used <= |buf| && FindCrlf(buf, 1) == Some(r.used - 2) &&
      ParseInt(buf[1..r.used - 2], true, I64_MIN, I64_MAX) == Some(r.value)
    ensures r.Failed? && r.error == ParseIntError ==>
      3 <= r.used <= |buf| && FindCrlf(buf, 1) == Some(r.used - 2) &&
      ParseInt(buf[1..r.used - 2], true, I64_MIN, I64_MAX).None?
    ensures r.Failed? && r.error != ParseIntError ==> r.used == 0
  {
    match ExtractSimpleFrameData(buf, INTEGER_PREFIX)
    case Err(e) => Failed(e, 0)
    case Ok(end) =>
      match ParseInt(buf[1..end], true, I64_MIN, I64_MAX)
      case None => Failed(ParseIntError, end + 2)
      case Some(n) => Parsed(n, end + 2)
  }

  /** `#t\r\n` or `#f\r\n`; fewer than four bytes are not complete yet. */
  function DecodeBool(buf: Bytes): (r: Decoded<bool>)
    ensures r.Parsed? <==> StartsWith(buf, TRUE_BYTES) || StartsWith(buf, FALSE_BYTES)
    ensures r.Parsed? ==> r.used == 4 && (r.value <==> StartsWith(buf, TRUE_BYTES))
    ensures r.Failed? ==> r.used == 0 && (r.error == NotComplete <==> |buf| < 4)
    ensures r.Failed? ==> r.error == NotComplete || r.error == InvalidFrameType
  {
    var t := ExtractFixedData(buf, TRUE_BYTES);
    if t.Ok? then Parsed(true, t.value)
    else if t.error == NotComplete then Failed(NotComplete, 0)
    else match ExtractFixedData(buf, FALSE_BYTES)
      case Ok(n) => Parsed(false, n)
      case Err(e) => Failed(e, 0)
  }

  /** Exactly `_\r\n`. */
  function DecodeNull(buf: Bytes): (r: Decoded<()>)
    ensures r.Parsed? <==> StartsWith(buf, NULL_BYTES)
    ensures r.Parsed? ==> r.used == 3
    ensures r.Failed? ==> r.used == 0 && (r.error == NotComplete <==> |buf| < 3)
  {
    match ExtractFixedData(buf, NULL_BYTES)
    case Ok(n) => Parsed((), n)
    case Err(e) => Failed(e, 0)
  }

  /**
    `$-1\r\n` is the empty bulk string; otherwise a length header and that
    many data bytes. The two bytes after the data are skipped unchecked.
  */
  function DecodeBulkString(buf: Bytes): (r: Decoded<Bytes>)
    ensures StartsWith(buf, NULL_BULK_STRING) ==> r == Parsed([], 5)
    ensures !StartsWith(buf, NULL_BULK_STRING) ==>
      (r.Parsed? <==>
         ParseLength(buf, BULK_PREFIX).Ok? &&
         ParseLength(buf, BULK_PREFIX).value.end + 4 + ParseLength(buf, BULK_PREFIX).value.len <= |buf|)
    ensures !StartsWith(buf, NULL_BULK_STRING) && r.Parsed? ==>
      var h := ParseLength(buf, BULK_PREFIX).value;
      r.value == buf[h.end + 2..h.end + 2 + h.len] && r.used == h.end + 4 + h.len
    ensures r.Failed? ==> r.used == 0
  {
    if ExtractFixedData(buf, NULL_BULK_STRING).Ok? then Parsed([], 5)
    else match ParseLength(buf, BULK_PREFIX)
      case Err(e) => Failed(e, 0)
      case Ok(h) =>
        if |buf| - (h.end + 2) < h.len + 2 then Failed(NotComplete, 0)
        else Parsed(buf[h.end + 2..h.end + 2 + h.len], h.end + 2 + h.len + 2)
  }

  /**
    `RespFrame::decode`: dispatches on the first byte; an unknown first byte
    is an invalid frame type and an empty buffer is not complete.
  */
  function DecodeFrame(buf: Bytes): (r: Decoded<Frame>)
    ensures r.used <= |buf|
    ensures |buf| == 0 ==> r == Failed(NotComplete, 0)
    ensures |buf| > 0 && buf[0] !in PREFIXES ==> r == Failed(InvalidFrameType, 0)
    decreases |buf|, 4
  {
    if |buf| == 0 then Failed(NotComplete, 0)
    else
      var p := buf[0];
      if p == ARRAY_PREFIX then DecodeArray(buf).Convert(items => Array(items))
      else if p == SET_PREFIX then DecodeCounted(buf, SET_PREFIX).Convert(items => Set(items))
      else if p == MAP_PREFIX then DecodeMap(buf).Convert(entries => Map(entries))
      else if p == BULK_PREFIX then DecodeBulkString(buf).Convert(data => BulkString(data))
      else if p == INTEGER_PREFIX then DecodeInteger(buf).Convert(n => Integer(n))
      else if p == SIMPLE_STRING_PREFIX then DecodeLine(buf, SIMPLE_STRING_PREFIX).Convert(s => SimpleString(s))
      else if p == ERROR_PREFIX then DecodeLine(buf, ERROR_PREFIX).Convert(s => Error(s))
      else if p == BOOL_PREFIX then DecodeBool(buf).Convert(b => Boolean(b))
      else if p == DOUBLE_PREFIX then DecodeLine(buf, DOUBLE_PREFIX).Convert(s => Double(s))
      else if p == NULL_PREFIX then DecodeNull(buf).Convert(_ => Null)
      else Failed(InvalidFrameType, 0)
  }

  /** One element of an array or a set. */
  function DecodeElement(buf: Bytes): (r: Decoded<Frame>)
    ensures r.used <= |buf|
    decreases |buf|, 5
  {
    DecodeFrame(buf)
  }

  /**
    `n` frames in a row. A failing element leaves the bytes of the elements
    before it consumed.
  */
  function DecodeItems(buf: Bytes, n: nat): (r: Decoded<seq<Frame>>)
    ensures r.used <= |buf|
    ensures r.Parsed? ==> |r.value| == n
    decreases |buf|, 6, n
  {
    if n == 0 then Parsed([], 0)
    else match DecodeElement(buf)
      case Failed(e, u) => Failed(e, u)
      case Parsed(f, u) =>
        match DecodeItems(buf[u..], n - 1)
        case Failed(e, w) => Failed(e, u + w)
        case Parsed(fs, w) => Parsed([f] + fs, u + w)
  }

  /** One map entry: a SimpleString key, then a frame. */
  function DecodePair(buf: Bytes): (r: Decoded<Entry>)
    ensures r.used <= |buf|
    decreases |buf|, 1
  {
    match DecodeSimpleString(buf)
    case Failed(e, k) => Failed(e, k)
    case Parsed(key, k) =>
      match DecodeElement(buf[k..])
      case Failed(e, u) => Failed(e, k + u)
      case Parsed(v, u) => Parsed(Entry(key, v), k + u)
  }

  /** `n` key/value pairs in wire order. */
  function DecodeEntries(buf: Bytes, n: nat): (r: Decoded<seq<Entry>>)
    ensures r.used <= |buf|
    ensures r.Parsed? ==> |r.value| == n
    decreases |buf|, 6, n
  {
    if n == 0 then Parsed([], 0)
    else match DecodePair(buf)
      case Failed(e, u) => Failed(e, u)
      case Parsed(p, u) =>
        match DecodeEntries(buf[u..], n - 1)
        case Failed(e, w) => Failed(e, u + w)
        case Parsed(ps, w) => Parsed([p] + ps, u + w)
  }

  /**
    Header and completeness check shared by the aggregates: the header, when
    the probes find the whole aggregate in the buffer.
  */
  function CompleteAggregate(buf: Bytes, prefix: byte, layout: Layout): (r: Result<Header>)
    ensures r.Ok? ==>
      ParseLength(buf, prefix) == Ok(r.value) &&
      ExpectCounted(buf, prefix, layout).Ok?
    ensures r.Err? ==> ExpectCounted(buf, prefix, layout) == Err(r.error)
  {
    match ParseLength(buf, prefix)
    case Err(e) => Err(e)
    case Ok(h) =>
      match CalcTotalLength(buf, h.end, h.len, layout)
      case Err(e) => Err(e)
      case Ok(total) => if |buf| < total then Err(NotComplete) else Ok(h)
  }

  /** A counted, complete run of frames: an array after its null form, or a set. */
  function DecodeCounted(buf: Bytes, prefix: byte): (r: Decoded<seq<Frame>>)
    ensures r.used <= |buf|
    ensures r.Parsed? ==>
      ParseLength(buf, prefix).Ok? && |r.value| == ParseLength(buf, prefix).value.len
    decreases |buf|, 2
  {
    match CompleteAggregate(buf, prefix, Items)
    case Err(e) => Failed(e, 0)
    case Ok(h) => DecodeItems(buf[h.end + 2..], h.len).After(h.end + 2)
  }

  /** `*-1\r\n` is the empty array; otherwise a counted, complete run of frames. */
  function DecodeArray(buf: Bytes): (r: Decoded<seq<Frame>>)
    ensures r.used <= |buf|
    ensures StartsWith(buf, NULL_ARRAY) ==> r == Parsed([], 5)
    ensures !StartsWith(buf, NULL_ARRAY) ==> r == DecodeCounted(buf, ARRAY_PREFIX)
    decreases |buf|, 3
  {
    if ExtractFixedData(buf, NULL_ARRAY).Ok? then Parsed([], 5)
    else DecodeCounted(buf, ARRAY_PREFIX)
  }

  /** The key/value pairs of a counted, complete map, in wire order. */
  function DecodePairs(buf: Bytes, prefix: byte): (r: Decoded<seq<Entry>>)
    ensures r.used <= |buf|
    ensures r.Parsed? ==>
      ParseLength(buf, prefix).Ok? && |r.value| == ParseLength(buf, prefix).value.len
    decreases |buf|, 2
  {
    match CompleteAggregate(buf, prefix, Entries)
    case Err(e) => Failed(e, 0)
    case Ok(h) => DecodeEntries(buf[h.end + 2..], h.len).After(h.end + 2)
  }

  /**
    The pairs collected into a key-ordered map; a repeated key keeps the
    value that came last.
  */
  function DecodeMap(buf: Bytes): (r: Decoded<seq<Entry>>)
    ensures r.used == DecodePairs(buf, MAP_PREFIX).used && r.Parsed? == DecodePairs(buf, MAP_PREFIX).Parsed?
    ensures r.Parsed? ==> r.value == FromPairs(DecodePairs(buf, MAP_PREFIX).value)
    ensures r.Failed? ==> r.error == DecodePairs(buf, MAP_PREFIX).error
    decreases |buf|, 3
  {
    match DecodePairs(buf, MAP_PREFIX)
    case Failed(e, u) => Failed(e, u)
    case Parsed(ps, u) => Parsed(FromPairs(ps), u)
  }
}
