/**
  `RespV2`: the batch decoder. Phase one walks the grammar of the next frame
  only to measure how many bytes it spans (`parse_frame_length`); the
  decoder then splits exactly that many bytes off the buffer and phase two
  parses them into a frame (`parse_frame`). The two phases read some inputs
  differently; `RespV2Props` states where they agree and where they do not.
*/
module RespV2 {
  import opened Bytes
  import opened Numeric
  import opened Frames

  /** A value read at some index of the input, and how many bytes it took from there. */
  datatype Got<+T> = Got(value: T, used: nat)

  const T_BYTE: byte := 116  // 't'
  const F_BYTE: byte := 102  // 'f'

  predicate CrlfAt(s: Bytes, i: nat) {
    i + 1 < |s| && s[i] == CR && s[i + 1] == LF
  }

  // ---------------------------------------------------------------------
  // Numbers

  /** Index of the first byte at or after `i` that is not a decimal digit. */
  function DigitRun(s: Bytes, i: nat): (r: nat)
    requires i <= |s|
    ensures i <= r <= |s|
    ensures r < |s| ==> !IsDigit(s[r])
    decreases |s| - i
  {
    if i == |s| || !IsDigit(s[i]) then i else DigitRun(s, i + 1)
  }

  /**
    The number `s[lo..hi]` spells as decimal digits, most significant
    first (a byte that is not a digit counts as nothing; the readers only
    apply it to a digit run).
  */
  function RunValue(s: Bytes, lo: nat, hi: nat): nat
    requires lo <= hi <= |s|
    decreases hi
  {
    if hi == lo then 0
    else RunValue(s, lo, hi - 1) * 10 + (if IsDigit(s[hi - 1]) then s[hi - 1] as int - 48 else 0)
  }

  /**
    `terminated(digit1.parse_to::<i64>(), CRLF)` at index `at`: one or more
    digits whose value fits in an `i64`, immediately followed by CRLF. No
    sign is accepted. `used` counts the bytes read from `at`.
  */
  function ReadDecimal(s: Bytes, at: nat): (r: Option<Got<int>>)
    requires at <= |s|
    ensures r.Some? ==> 0 <= r.value.value <= I64_MAX && 3 <= r.value.used <= |s| - at
  {
    var n := DigitRun(s, at);
    if n == at then None
    else
      var v := RunValue(s, at, n);
      if v > I64_MAX || !CrlfAt(s, n) then None
      else Some(Got(v, n + 2 - at))
  }

  /** `integer` at index `at`: an optional `+` or `-` sign, then `ReadDecimal`. */
  function ReadInteger(s: Bytes, at: nat): (r: Option<Got<int>>)
    requires at <= |s|
    ensures r.Some? ==> -I64_MAX <= r.value.value <= I64_MAX && 3 <= r.value.used <= |s| - at
  {
    if at < |s| && (s[at] == PLUS || s[at] == MINUS) then
      match ReadDecimal(s, at + 1)
      case None => None
      case Some(g) => Some(Got(if s[at] == MINUS then -g.value else g.value, g.used + 1))
    else ReadDecimal(s, at)
  }

  // ---------------------------------------------------------------------
  // Lines

  /**
    `terminated(take_until(0.., CRLF), CRLF)` after the type byte at `at`:
    through the first CRLF, whatever bytes come before it.
  */
  function SimpleAdvance(buf: Bytes, at: nat): (r: Option<nat>)
    requires at < |buf|
    ensures r.Some? ==> 3 <= r.value <= |buf| - at && FindCrlf(buf, at + 1) == Some(at + r.value - 2)
  {
    match FindCrlf(buf, at + 1)
    case None => None
    case Some(e) => Some(e + 2 - at)
  }

  /**
    `terminated(take_till(0.., CRLF), CRLF)` at index `at`: the bytes
    before the first CR or LF, which must start a CRLF.
  */
  function ReadLine(s: Bytes, at: nat): (r: Option<Got<Bytes>>)
    requires at <= |s|
    ensures r.Some? ==> r.value.used == |r.value.value| + 2 <= |s| - at && NoLineBreak(r.value.value)
    ensures r.Some? ==> s[at..at + |r.value.value|] == r.value.value && CrlfAt(s, at + |r.value.value|)
  {
    var j := FindLineBreak(s, at);
    if CrlfAt(s, j) then Some(Got(s[at..j], j + 2 - at)) else None
  }

  // ---------------------------------------------------------------------
  // Phase one: measuring the next frame. Each walker starts at index `at`
  // and returns how many bytes it spans from there.

  /** `bulk_string_advance`: a signed length, then that many bytes and CRLF. */
  function BulkAdvance(buf: Bytes, at: nat): (r: Option<nat>)
    requires at < |buf|
    ensures r.Some? ==> 4 <= r.value <= |buf| - at
  {
    match ReadInteger(buf, at + 1)
    case None => None
    case Some(g) =>
      var len := g.value;
      var start := at + 1 + g.used;
      if len == -1 || len == 0 then Some(1 + g.used)
      else if len < 0 then None
      else if start + len + 2 <= |buf| && CrlfAt(buf, start + len) then Some(1 + g.used + len + 2)
      else None
  }

  /**
    The cases of `bulk_string_advance`: a length of -1 or 0 spans the header
    alone, a length below -1 fails, and a positive length spans the data and
    its CRLF exactly when that CRLF is there.
  */
  lemma BulkAdvanceCases(buf: Bytes, at: nat)
    requires at < |buf|
    ensures ReadInteger(buf, at + 1).None? ==> BulkAdvance(buf, at).None?
    ensures var h := ReadInteger(buf, at + 1);
      h.Some? && (h.value.value == -1 || h.value.value == 0) ==> BulkAdvance(buf, at) == Some(1 + h.value.used)
    ensures var h := ReadInteger(buf, at + 1);
      h.Some? && h.value.value < -1 ==> BulkAdvance(buf, at).None?
    ensures var h := ReadInteger(buf, at + 1);
      h.Some? && h.value.value > 0 ==>
        (BulkAdvance(buf, at).Some? <==> CrlfAt(buf, at + 1 + h.value.used + h.value.value)) &&
        (BulkAdvance(buf, at).Some? ==> BulkAdvance(buf, at).value == 1 + h.value.used + h.value.value + 2)
  {
  }

  /**
    `advance`: the span of the frame at `at`, dispatched on its type byte.
    Any failure, a truncated frame or a malformed one, is `None`.
  */
  function Advance(buf: Bytes, at: nat): (r: Option<nat>)
    requires at <= |buf|
    ensures r.Some? ==> 0 < r.value <= |buf| - at
    decreases |buf| - at, 4
  {
    if at == |buf| then None
    else
      var p := buf[at];
      if p in {SIMPLE_STRING_PREFIX, ERROR_PREFIX, INTEGER_PREFIX, NULL_PREFIX, BOOL_PREFIX, DOUBLE_PREFIX} then
        SimpleAdvance(buf, at)
      else if p == BULK_PREFIX then BulkAdvance(buf, at)
      else if p == ARRAY_PREFIX || p == SET_PREFIX then CountedAdvance(buf, at)
      else if p == MAP_PREFIX then MapAdvance(buf, at)
      else None
  }

  /** Phase one walks a frame only under one of the ten type bytes. */
  lemma AdvancePrefix(buf: Bytes, at: nat)
    requires at <= |buf|
    ensures Advance(buf, at).Some? ==> buf[at] in PREFIXES
  {
  }

  /**
    `array_advance` and `set_advance`: a count, then that many frames. A
    count of zero or below spans the header alone (`-1` explicitly, any
    other negative count through an empty loop).
  */
  function CountedAdvance(buf: Bytes, at: nat): (r: Option<nat>)
    requires at < |buf|
    ensures r.Some? ==> 0 < r.value <= |buf| - at
    decreases |buf| - at, 3
  {
    match ReadInteger(buf, at + 1)
    case None => None
    case Some(g) =>
      if g.value <= 0 then Some(1 + g.used)
      else match AdvanceItems(buf, at + 1 + g.used, g.value)
        case None => None
        case Some(m) => Some(1 + g.used + m)
  }

  /**
    The cases of `array_advance` and `set_advance`: a count of zero or less
    spans the header alone; a positive count spans the header and then
    exactly that many walked frames.
  */
  lemma CountedAdvanceCases(buf: Bytes, at: nat)
    requires at < |buf|
    ensures ReadInteger(buf, at + 1).None? ==> CountedAdvance(buf, at).None?
    ensures var h := ReadInteger(buf, at + 1);
      h.Some? && h.value.value <= 0 ==> CountedAdvance(buf, at) == Some(1 + h.value.used)
    ensures var h := ReadInteger(buf, at + 1);
      h.Some? && h.value.value > 0 ==>
        match AdvanceItems(buf, at + 1 + h.value.used, h.value.value)
        case None => CountedAdvance(buf, at).None?
        case Some(m) => CountedAdvance(buf, at) == Some(1 + h.value.used + m)
  {
  }

  /** `map_advance`: a count, then that many key lines each followed by a frame. */
  function MapAdvance(buf: Bytes, at: nat): (r: Option<nat>)
    requires at < |buf|
    ensures r.Some? ==> 0 < r.value <= |buf| - at
    decreases |buf| - at, 3
  {
    match ReadInteger(buf, at + 1)
    case None => None
    case Some(g) =>
      if g.value <= 0 then Some(1 + g.used)
      else match AdvanceEntries(buf, at + 1 + g.used, g.value)
        case None => None
        case Some(m) => Some(1 + g.used + m)
  }

  /**
    The cases of `map_advance`: a count of zero or less spans the header
    alone; a positive count spans the header and then exactly that many key
    lines, each followed by a walked frame.
  */
  lemma MapAdvanceCases(buf: Bytes, at: nat)
    requires at < |buf|
    ensures ReadInteger(buf, at + 1).None? ==> MapAdvance(buf, at).None?
    ensures var h := ReadInteger(buf, at + 1);
      h.Some? && h.value.value <= 0 ==> MapAdvance(buf, at) == Some(1 + h.value.used)
    ensures var h := ReadInteger(buf, at + 1);
      h.Some? && h.value.value > 0 ==>
        match AdvanceEntries(buf, at + 1 + h.value.used, h.value.value)
        case None => MapAdvance(buf, at).None?
        case Some(m) => MapAdvance(buf, at) == Some(1 + h.value.used + m)
  {
  }

  /** One element walked inside an aggregate. */
  function AdvanceElement(buf: Bytes, at: nat): (r: Option<nat>)
    requires at <= |buf|
    ensures r.Some? ==> 0 < r.value <= |buf| - at
    decreases |buf| - at, 5
  {
    Advance(buf, at)
  }

  /** `n` frames walked in a row. */
  function AdvanceItems(buf: Bytes, at: nat, n: nat): (r: Option<nat>)
    requires at <= |buf|
    ensures r.Some? ==> r.value <= |buf| - at
    decreases |buf| - at, 6, n
  {
    if n == 0 then Some(0)
    else match AdvanceElement(buf, at)
      case None => None
      case Some(a) =>
        match AdvanceItems(buf, at + a, n - 1)
        case None => None
        case Some(m) => Some(a + m)
  }

  /** One map entry walked: a key line up to its first CR or LF, then a frame. */
  function AdvancePair(buf: Bytes, at: nat): (r: Option<nat>)
    requires at <= |buf|
    ensures r.Some? ==> 0 < r.value <= |buf| - at
    decreases |buf| - at, 1
  {
    match ReadLine(buf, at)
    case None => None
    case Some(key) =>
      match AdvanceElement(buf, at + key.used)
      case None => None
      case Some(a) => Some(key.used + a)
  }

  /** `n` map entries walked in a row. */
  function AdvanceEntries(buf: Bytes, at: nat, n: nat): (r: Option<nat>)
    requires at <= |buf|
    ensures r.Some? ==> r.value <= |buf| - at
    decreases |buf| - at, 6, n
  {
    if n == 0 then Some(0)
    else match AdvancePair(buf, at)
      case None => None
      case Some(a) =>
        match AdvanceEntries(buf, at + a, n - 1)
        case None => None
        case Some(m) => Some(a + m)
  }

  /** `parse_frame_length`: the span of the next frame, every failure reported as not complete. */
  function ParseFrameLength(buf: Bytes): (r: Result<nat>)
    ensures r.Ok? <==> Advance(buf, 0).Some?
    ensures r.Ok? ==> 0 < r.value <= |buf| && r.value == Advance(buf, 0).value
    ensures r.Err? ==> r.error == NotComplete
  {
    match Advance(buf, 0)
    case None => Err(NotComplete)
    case Some(n) => Ok(n)
  }

  // ---------------------------------------------------------------------
  // Phase two: building the frame at index `at`

  /**
    `parse_frame`: a recursive-descent parse dispatched on the type byte.
    Lengths are read unsigned, so `$-1` and `*-1` do not parse; a set reads
    half as many elements as its count announces.
  */
  function ParseFrame(buf: Bytes, at: nat): (r: Option<Got<Frame>>)
    requires at <= |buf|
    ensures r.Some? ==> 0 < r.value.used <= |buf| - at
    decreases |buf| - at, 4
  {
    if at == |buf| then None
    else
      var p := buf[at];
      if p == SIMPLE_STRING_PREFIX then
        match ReadLine(buf, at + 1)
        case None => None
        case Some(s) => Some(Got(SimpleString(s.value), s.used + 1))
      else if p == ERROR_PREFIX then
        match ReadLine(buf, at + 1)
        case None => None
        case Some(s) => Some(Got(Error(s.value), s.used + 1))
      else if p == INTEGER_PREFIX then
        match ReadInteger(buf, at + 1)
        case None => None
        case Some(g) => Some(Got(Integer(g.value), g.used + 1))
      else if p == BULK_PREFIX then
        match ParseBulk(buf, at)
        case None => None
        case Some(g) => Some(Got(BulkString(g.value), g.used))
      else if p == ARRAY_PREFIX then
        match ParseCounted(buf, at, false)
        case None => None
        case Some(g) => Some(Got(Array(g.value), g.used))
      else if p == NULL_PREFIX then
        if CrlfAt(buf, at + 1) then Some(Got(Null, 3)) else None
      else if p == BOOL_PREFIX then
        if at + 1 < |buf| && (buf[at + 1] == T_BYTE || buf[at + 1] == F_BYTE) && CrlfAt(buf, at + 2) then
          Some(Got(Boolean(buf[at + 1] == T_BYTE), 4))
        else None
      else if p == DOUBLE_PREFIX then
        match ReadLine(buf, at + 1)
        case None => None
        case Some(s) => Some(Got(Double(s.value), s.used + 1))
      else if p == MAP_PREFIX then
        match ParseMap(buf, at)
        case None => None
        case Some(g) => Some(Got(Map(g.value), g.used))
      else if p == SET_PREFIX then
        match ParseCounted(buf, at, true)
        case None => None
        case Some(g) => Some(Got(Set(g.value), g.used))
      else None
  }

  /**
    Phase two reads a frame only under one of the ten type bytes; a bulk
    string holds as many bytes as its unsigned length, an array as many
    items as its count, and a set half as many.
  */
  lemma ParseFrameShape(buf: Bytes, at: nat)
    requires at <= |buf|
    ensures ParseFrame(buf, at).Some? ==> buf[at] in PREFIXES
    ensures ParseFrame(buf, at).Some? && buf[at] == BULK_PREFIX ==>
      ParseFrame(buf, at).value.value.BulkString? && ReadDecimal(buf, at + 1).Some? &&
      |ParseFrame(buf, at).value.value.data| == ReadDecimal(buf, at + 1).value.value
    ensures ParseFrame(buf, at).Some? && buf[at] == ARRAY_PREFIX ==>
      ParseFrame(buf, at).value.value.Array? && ReadDecimal(buf, at + 1).Some? &&
      |ParseFrame(buf, at).value.value.items| == ReadDecimal(buf, at + 1).value.value
    ensures ParseFrame(buf, at).Some? && buf[at] == SET_PREFIX ==>
      ParseFrame(buf, at).value.value.Set? && ReadDecimal(buf, at + 1).Some? &&
      |ParseFrame(buf, at).value.value.items| == ReadDecimal(buf, at + 1).value.value / 2
    ensures ParseFrame(buf, at).Some? && buf[at] == MAP_PREFIX ==>
      ParseFrame(buf, at).value.value.Map? && ReadDecimal(buf, at + 1).Some?
  {
    if ParseFrame(buf, at).Some? && at < |buf| {
      if buf[at] == BULK_PREFIX {
        ParseBulkSpan(buf, at);
      } else if buf[at] == ARRAY_PREFIX {
        ParseCountedSize(buf, at, false);
      } else if buf[at] == SET_PREFIX {
        ParseCountedSize(buf, at, true);
      }
    }
  }

  /** `bulk_string`: an unsigned length, then that many bytes and CRLF. */
  function ParseBulk(buf: Bytes, at: nat): (r: Option<Got<Bytes>>)
    requires at < |buf|
    ensures r.Some? ==> 4 <= r.value.used <= |buf| - at
  {
    match ReadDecimal(buf, at + 1)
    case None => None
    case Some(g) =>
      var len := g.value;
      var start := at + 1 + g.used;
      if start + len + 2 <= |buf| && CrlfAt(buf, start + len) then
        Some(Got(buf[start..start + len], 1 + g.used + len + 2))
      else None
  }

  /** A bulk string read by phase two is the `len` bytes after its unsigned length line, followed by CRLF. */
  lemma ParseBulkSpan(buf: Bytes, at: nat)
    requires at < |buf|
    ensures var r := ParseBulk(buf, at);
      r.Some? ==> ReadDecimal(buf, at + 1).Some? && |r.value.value| == ReadDecimal(buf, at + 1).value.value
    ensures var r := ParseBulk(buf, at);
      r.Some? ==>
        var start := at + 1 + ReadDecimal(buf, at + 1).value.used;
        CrlfAt(buf, start + |r.value.value|) && buf[start..start + |r.value.value|] == r.value.value &&
        r.value.used == start + |r.value.value| + 2 - at
  {
  }

  /**
    `array` (and `set` when `halve` holds): an unsigned count, then that
    many frames, or for a set `count / 2` of them.
  */
  function ParseCounted(buf: Bytes, at: nat, halve: bool): (r: Option<Got<seq<Frame>>>)
    requires at < |buf|
    ensures r.Some? ==> 0 < r.value.used <= |buf| - at
    decreases |buf| - at, 3
  {
    match ReadDecimal(buf, at + 1)
    case None => None
    case Some(g) =>
      var n := if halve then g.value / 2 else g.value;
      match ParseItems(buf, at + 1 + g.used, n)
      case None => None
      case Some(items) => Some(Got(items.value, 1 + g.used + items.used))
  }

  /** An array read by phase two holds as many items as its unsigned count, a set half as many. */
  lemma ParseCountedSize(buf: Bytes, at: nat, halve: bool)
    requires at < |buf|
    ensures var r := ParseCounted(buf, at, halve);
      r.Some? ==> ReadDecimal(buf, at + 1).Some?
    ensures var r := ParseCounted(buf, at, halve);
      r.Some? && ReadDecimal(buf, at + 1).Some? ==>
        |r.value.value| == (if halve then ReadDecimal(buf, at + 1).value.value / 2 else ReadDecimal(buf, at + 1).value.value)
  {
  }

  /**
    `map`: an unsigned count, then that many `+`key lines each followed by a
    frame, collected into a key-ordered map where a repeated key keeps the
    value that came last.
  */
  function ParseMap(buf: Bytes, at: nat): (r: Option<Got<seq<Entry>>>)
    requires at < |buf|
    ensures r.Some? ==> 0 < r.value.used <= |buf| - at
    decreases |buf| - at, 3
  {
    match ReadDecimal(buf, at + 1)
    case None => None
    case Some(g) =>
      match ParseEntries(buf, at + 1 + g.used, g.value)
      case None => None
      case Some(ps) => Some(Got(FromPairs(ps.value), 1 + g.used + ps.used))
  }

  /** One element parsed inside an aggregate. */
  function ParseElement(buf: Bytes, at: nat): (r: Option<Got<Frame>>)
    requires at <= |buf|
    ensures r.Some? ==> 0 < r.value.used <= |buf| - at
    decreases |buf| - at, 5
  {
    ParseFrame(buf, at)
  }

  /** `n` frames parsed in a row. */
  function ParseItems(buf: Bytes, at: nat, n: nat): (r: Option<Got<seq<Frame>>>)
    requires at <= |buf|
    ensures r.Some? ==> |r.value.value| == n && r.value.used <= |buf| - at
    decreases |buf| - at, 6, n
  {
    if n == 0 then Some(Got([], 0))
    else match ParseElement(buf, at)
      case None => None
      case Some(f) =>
        match ParseItems(buf, at + f.used, n - 1)
        case None => None
        case Some(fs) => Some(Got([f.value] + fs.value, f.used + fs.used))
  }

  /** One map entry parsed: `+`, the key line, then a frame. */
  function ParsePair(buf: Bytes, at: nat): (r: Option<Got<Entry>>)
    requires at <= |buf|
    ensures r.Some? ==> 0 < r.value.used <= |buf| - at
    decreases |buf| - at, 1
  {
    if at == |buf| || buf[at] != SIMPLE_STRING_PREFIX then None
    else match ReadLine(buf, at + 1)
      case None => None
      case Some(key) =>
        match ParseElement(buf, at + 1 + key.used)
        case None => None
        case Some(v) => Some(Got(Entry(key.value, v.value), 1 + key.used + v.used))
  }

  /** `n` map entries parsed in a row, in wire order. */
  function ParseEntries(buf: Bytes, at: nat, n: nat): (r: Option<Got<seq<Entry>>>)
    requires at <= |buf|
    ensures r.Some? ==> |r.value.value| == n && r.value.used <= |buf| - at
    decreases |buf| - at, 6, n
  {
    if n == 0 then Some(Got([], 0))
    else match ParsePair(buf, at)
      case None => None
      case Some(e) =>
        match ParseEntries(buf, at + e.used, n - 1)
        case None => None
        case Some(es) => Some(Got([e.value] + es.value, e.used + es.used))
  }

  // ---------------------------------------------------------------------
  // The decoder

  /**
    `RespDecodeV2::decode`: measure, split off the measured span, parse it.
    A failed measurement leaves the buffer as it was; a failed parse is an
    invalid frame with the span already gone.
  */
  function DecodeV2(buf: Bytes): (r: Decoded<Frame>)
    ensures r.Incomplete() <==> ParseFrameLength(buf).Err?
    ensures r.Incomplete() ==> r.used == 0
    ensures !r.Incomplete() ==> r.used == ParseFrameLength(buf).value
    ensures r.Failed? && !r.Incomplete() ==>
      r.error == InvalidFrame && ParseFrame(buf[..r.used], 0).None?
    ensures r.Parsed? ==> ParseFrame(buf[..r.used], 0).Some? && r.value == ParseFrame(buf[..r.used], 0).value.value
  {
    match ParseFrameLength(buf)
    case Err(e) => Failed(e, 0)
    case Ok(n) =>
      match ParseFrame(buf[..n], 0)
      case None => Failed(InvalidFrame, n)
      case Some(g) => Parsed(g.value, n)
  }
}
