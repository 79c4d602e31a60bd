/**
  Phase two of the batch decoder on encoded frames, and how the batch
  decoder compares with the incremental one. On every frame both read the
  same way, decoding the encoding with either gives the frame back and
  removes the same bytes. Where they differ, the difference is stated
  exactly: phase two reads counts and lengths unsigned, so the null forms
  `$-1` and `*-1` the encoder writes for empty bulk strings and arrays are
  measured but rejected; a zero-length bulk string `$0` another client may
  send is measured as its header alone and then rejected; a set keeps the
  first half of its elements; and `i64::MIN` and line bodies with a lone CR
  or LF are rejected.
*/
module RespV2Agreement {
  import opened Bytes
  import opened Numeric
  import opened Frames
  import opened RespEncode
  import opened RespDecode
  import opened RespRoundTrip
  import opened RespV2
  import opened RespV2Props

  /**
    The frames both decoders read back the same way: line bodies hold no CR
    or LF, integers are above `i64::MIN`, bulk strings and arrays are
    non-empty (the empty ones travel in the signed null forms), sets are
    empty (phase two halves a set's count), and no double appears (its text
    goes through a float parser this model does not follow).
  */
  predicate Agrees(f: Frame)
    decreases f
  {
    match f
    case SimpleString(s) => NoLineBreak(s)
    case Error(s) => NoLineBreak(s)
    case Integer(n) => -I64_MAX <= n <= I64_MAX
    case BulkString(data) => 0 < |data| <= I64_MAX
    case Array(items) => 0 < |items| <= I64_MAX && forall i :: 0 <= i < |items| ==> Agrees(items[i])
    case Null => true
    case Boolean(_) => true
    case Double(_) => false
    case Map(entries) =>
      |entries| <= I64_MAX && SortedEntries(entries) &&
      forall i :: 0 <= i < |entries| ==> NoLineBreak(entries[i].key) && Agrees(entries[i].value)
    case Set(items) => |items| == 0
  }

  /** Phase one walks every frame phase two reads back. */
  lemma {:induction false} AgreesWalkable(f: Frame)
    requires Agrees(f)
    ensures Walkable(f)
    decreases f
  {
    match f
    case SimpleString(s) => NoLineBreakNoCrlf(s);
    case Error(s) => NoLineBreakNoCrlf(s);
    case Array(items) =>
      forall i | 0 <= i < |items| ensures Walkable(items[i]) {
        AgreesWalkable(items[i]);
      }
    case Map(entries) =>
      forall i | 0 <= i < |entries| ensures Walkable(entries[i].value) {
        AgreesWalkable(entries[i].value);
      }
    case Integer(_) =>
    case BulkString(_) =>
    case Null =>
    case Boolean(_) =>
    case Double(_) =>
    case Set(_) =>
  }

  /** Every key/value pair agrees, stated one pair at a time. */
  predicate PairsAgree(es: seq<Entry>)
    decreases |es|
  {
    |es| > 0 ==> NoLineBreak(es[0].key) && Agrees(es[0].value) && PairsAgree(es[1..])
  }

  lemma {:induction false} PairsAgreeOf(es: seq<Entry>)
    requires forall i :: 0 <= i < |es| ==> NoLineBreak(es[i].key) && Agrees(es[i].value)
    ensures PairsAgree(es)
    decreases |es|
  {
    if |es| > 0 {
      assert forall i :: 0 <= i < |es| - 1 ==> es[1..][i] == es[i + 1];
      PairsAgreeOf(es[1..]);
    }
  }

  // ---------------------------------------------------------------------
  // One step of each parser

  lemma ParseItemsCons(buf: Bytes, at: nat, items: seq<Frame>, a: nat, m: nat)
    requires at <= |buf| && |items| > 0 && ParseElement(buf, at) == Some(Got(items[0], a))
    requires ParseItems(buf, at + a, |items| - 1) == Some(Got(items[1..], m))
    ensures ParseItems(buf, at, |items|) == Some(Got(items, a + m))
  {
    assert [items[0]] + items[1..] == items;
  }

  lemma ParseEntriesCons(buf: Bytes, at: nat, entries: seq<Entry>, a: nat, m: nat)
    requires at <= |buf| && |entries| > 0 && ParsePair(buf, at) == Some(Got(entries[0], a))
    requires ParseEntries(buf, at + a, |entries| - 1) == Some(Got(entries[1..], m))
    ensures ParseEntries(buf, at, |entries|) == Some(Got(entries, a + m))
  {
    assert [entries[0]] + entries[1..] == entries;
  }

  lemma ParsePairOf(buf: Bytes, at: nat, key: Got<Bytes>, v: Got<Frame>)
    requires at < |buf| && buf[at] == SIMPLE_STRING_PREFIX
    requires ReadLine(buf, at + 1) == Some(key)
    requires ParseElement(buf, at + 1 + key.used) == Some(v)
    ensures ParsePair(buf, at) == Some(Got(Entry(key.value, v.value), 1 + key.used + v.used))
  {}

  lemma ParseCountedOf(buf: Bytes, at: nat, halve: bool, g: Got<int>, n: nat, xs: Got<seq<Frame>>)
    requires at < |buf| && ReadDecimal(buf, at + 1) == Some(g)
    requires n == if halve then g.value / 2 else g.value
    requires ParseItems(buf, at + 1 + g.used, n) == Some(xs)
    ensures ParseCounted(buf, at, halve) == Some(Got(xs.value, 1 + g.used + xs.used))
  {}

  lemma ParseMapOf(buf: Bytes, at: nat, g: Got<int>, xs: Got<seq<Entry>>)
    requires at < |buf| && ReadDecimal(buf, at + 1) == Some(g)
    requires ParseEntries(buf, at + 1 + g.used, g.value) == Some(xs)
    ensures ParseMap(buf, at) == Some(Got(FromPairs(xs.value), 1 + g.used + xs.used))
  {}

  lemma ParseArrayOf(buf: Bytes, at: nat, g: Got<seq<Frame>>)
    requires at < |buf| && buf[at] == ARRAY_PREFIX && ParseCounted(buf, at, false) == Some(g)
    ensures ParseFrame(buf, at) == Some(Got(Array(g.value), g.used))
  {}

  lemma ParseSetOf(buf: Bytes, at: nat, g: Got<seq<Frame>>)
    requires at < |buf| && buf[at] == SET_PREFIX && ParseCounted(buf, at, true) == Some(g)
    ensures ParseFrame(buf, at) == Some(Got(Set(g.value), g.used))
  {}

  lemma ParseMapFrameOf(buf: Bytes, at: nat, g: Got<seq<Entry>>)
    requires at < |buf| && buf[at] == MAP_PREFIX && ParseMap(buf, at) == Some(g)
    ensures ParseFrame(buf, at) == Some(Got(Map(g.value), g.used))
  {}

  lemma ParseBulkFrameOf(buf: Bytes, at: nat, g: Got<Bytes>)
    requires at < |buf| && buf[at] == BULK_PREFIX && ParseBulk(buf, at) == Some(g)
    ensures ParseFrame(buf, at) == Some(Got(BulkString(g.value), g.used))
  {}

  /** Phase two reads `n` placed encoded frames in a row back exactly. */
  lemma {:induction false} ItemsParse(items: seq<Frame>, buf: Bytes, at: nat)
    requires forall i :: 0 <= i < |items| ==> Agrees(items[i])
    requires Placed(buf, at, EncodeItems(items))
    ensures ParseItems(buf, at, |items|) == Some(Got(items, |EncodeItems(items)|))
    decreases items, 0
  {
    if |items| > 0 {
      var head := Encode(items[0]);
      var tail := EncodeItems(items[1..]);
      PlacedSplit(buf, at, head, tail);
      FrameParse(items[0], buf, at);
      ItemsParse(items[1..], buf, at + |head|);
      ParseItemsCons(buf, at, items, |head|, |tail|);
    }
  }

  /** Phase two reads one placed encoded key/value pair back exactly. */
  lemma {:induction false} PairParse(e: Entry, buf: Bytes, at: nat)
    requires NoLineBreak(e.key) && Agrees(e.value)
    requires Placed(buf, at, EncodeSimpleString(e.key) + Encode(e.value))
    ensures ParsePair(buf, at) == Some(Got(e, |EncodeSimpleString(e.key)| + |Encode(e.value)|))
    decreases e, 0
  {
    var key := EncodeSimpleString(e.key);
    PlacedSplit(buf, at, key, Encode(e.value));
    NoLineBreakNoCrlf(e.key);
    LineCrlfAt(buf, at, SIMPLE_STRING_PREFIX, e.key);
    LineAt(buf, at + 1, e.key);
    PlacedByte(buf, at, key, 0);
    FrameParse(e.value, buf, at + |key|);
    ParsePairOf(buf, at, Got(e.key, |e.key| + 2), Got(e.value, |Encode(e.value)|));
  }

  /** Placed encoded pairs are the first pair followed by the others. */
  lemma EntriesSplit(entries: seq<Entry>, buf: Bytes, at: nat)
    requires |entries| > 0 && Placed(buf, at, EncodeEntries(entries))
    ensures Placed(buf, at, EncodeSimpleString(entries[0].key) + Encode(entries[0].value))
    ensures Placed(buf, at + |EncodeSimpleString(entries[0].key)| + |Encode(entries[0].value)|, EncodeEntries(entries[1..]))
    ensures |EncodeEntries(entries)| ==
      |EncodeSimpleString(entries[0].key)| + |Encode(entries[0].value)| + |EncodeEntries(entries[1..])|
  {
    var pair := EncodeSimpleString(entries[0].key) + Encode(entries[0].value);
    assert EncodeEntries(entries) == pair + EncodeEntries(entries[1..]);
    PlacedSplit(buf, at, pair, EncodeEntries(entries[1..]));
  }

  /** Phase two reads `n` placed encoded key/value pairs in a row back exactly. */
  lemma {:induction false} EntriesParse(entries: seq<Entry>, buf: Bytes, at: nat)
    requires PairsAgree(entries)
    requires Placed(buf, at, EncodeEntries(entries))
    ensures ParseEntries(buf, at, |entries|) == Some(Got(entries, |EncodeEntries(entries)|))
    decreases entries, 0
  {
    if |entries| > 0 {
      var e, rest := entries[0], entries[1..];
      var a := |EncodeSimpleString(e.key)| + |Encode(e.value)|;
      var m := |EncodeEntries(rest)|;
      assert NoLineBreak(e.key) && Agrees(e.value) && PairsAgree(rest);
      assert Placed(buf, at, EncodeSimpleString(e.key) + Encode(e.value)) &&
        Placed(buf, at + a, EncodeEntries(rest)) && |EncodeEntries(entries)| == a + m by {
        EntriesSplit(entries, buf, at);
      }
      assert ParsePair(buf, at) == Some(Got(e, a)) by {
        PairParse(e, buf, at);
      }
      assert ParseEntries(buf, at + a, |rest|) == Some(Got(rest, m)) by {
        EntriesParse(rest, buf, at + a);
      }
      ParseEntriesCons(buf, at, entries, a, m);
    } else {
      assert EncodeEntries(entries) == [];
    }
  }

  // ---------------------------------------------------------------------
  // Phase two on each frame type

  lemma LineParse(f: Frame, buf: Bytes, at: nat)
    requires (f.SimpleString? || f.Error?) && NoLineBreak(f.text)
    requires Placed(buf, at, Encode(f))
    ensures ParseFrame(buf, at) == Some(Got(f, |Encode(f)|))
  {
    var p := if f.SimpleString? then SIMPLE_STRING_PREFIX else ERROR_PREFIX;
    assert Encode(f) == Line(p, f.text);
    NoLineBreakNoCrlf(f.text);
    LineCrlfAt(buf, at, p, f.text);
    LineAt(buf, at + 1, f.text);
    PlacedByte(buf, at, Encode(f), 0);
  }

  lemma IntegerParse(n: int, buf: Bytes, at: nat)
    requires -I64_MAX <= n <= I64_MAX
    requires Placed(buf, at, Encode(Integer(n)))
    ensures ParseFrame(buf, at) == Some(Got(Integer(n), |Encode(Integer(n))|))
  {
    assert Encode(Integer(n)) == Line(INTEGER_PREFIX, FormatInt(n));
    NoLineBreakNoCrlf(FormatInt(n));
    LineCrlfAt(buf, at, INTEGER_PREFIX, FormatInt(n));
    IntegerAt(buf, at + 1, n);
    PlacedByte(buf, at, Encode(Integer(n)), 0);
  }

  lemma BulkParse(data: Bytes, buf: Bytes, at: nat)
    requires 0 < |data| <= I64_MAX
    requires Placed(buf, at, EncodeBulkString(data))
    ensures ParseBulk(buf, at) == Some(Got(data, |EncodeBulkString(data)|))
  {
    var d := Decimal(|data|);
    assert EncodeBulkString(data) == Line(BULK_PREFIX, d) + (data + CRLF);
    UnsignedCountHeader(buf, at, BULK_PREFIX, |data|, data + CRLF);
    var start := at + |d| + 3;
    PlacedSplit(buf, start, data, CRLF);
    PlacedSlice(buf, start, data);
    PlacedByte(buf, start + |data|, CRLF, 0);
    PlacedByte(buf, start + |data|, CRLF, 1);
    assert ReadDecimal(buf, at + 1) == Some(Got(|data|, |d| + 2));
    assert CrlfAt(buf, start + |data|) && buf[start..start + |data|] == data;
    assert |EncodeBulkString(data)| == 1 + (|d| + 2) + |data| + 2;
  }

  lemma FixedParse(f: Frame, buf: Bytes, at: nat)
    requires (f.Null? || f.Boolean?) && Placed(buf, at, Encode(f))
    ensures ParseFrame(buf, at) == Some(Got(f, |Encode(f)|))
  {
    var e := Encode(f);
    PlacedByte(buf, at, e, 0);
    PlacedByte(buf, at, e, 1);
    PlacedByte(buf, at, e, 2);
    if f.Boolean? {
      PlacedByte(buf, at, e, 3);
    }
  }

  lemma {:induction false} ArrayParse(items: seq<Frame>, buf: Bytes, at: nat)
    requires 0 < |items| <= I64_MAX
    requires forall i :: 0 <= i < |items| ==> Agrees(items[i])
    requires Placed(buf, at, EncodeArray(items))
    ensures ParseFrame(buf, at) == Some(Got(Array(items), |EncodeArray(items)|))
    decreases items, 1
  {
    var d := Decimal(|items|);
    UnsignedCountHeader(buf, at, ARRAY_PREFIX, |items|, EncodeItems(items));
    ItemsParse(items, buf, at + |d| + 3);
    var g: Got<int> := Got(|items|, |d| + 2);
    ParseCountedOf(buf, at, false, g, |items|, Got(items, |EncodeItems(items)|));
    ParseArrayOf(buf, at, Got(items, 1 + g.used + |EncodeItems(items)|));
  }

  /** A map header, then pairs that inserting leaves as they are, parse to those pairs. */
  lemma MapFromParts(buf: Bytes, at: nat, g: Got<int>, entries: seq<Entry>, m: nat, k: nat)
    requires at < |buf| && buf[at] == MAP_PREFIX && ReadDecimal(buf, at + 1) == Some(g)
    requires ParseEntries(buf, at + 1 + g.used, g.value) == Some(Got(entries, m))
    requires FromPairs(entries) == entries && k == 1 + g.used + m
    ensures ParseFrame(buf, at) == Some(Got(Map(entries), k))
  {
    ParseMapOf(buf, at, g, Got(entries, m));
    ParseMapFrameOf(buf, at, Got(entries, 1 + g.used + m));
  }

  lemma {:induction false} MapBodyParse(entries: seq<Entry>, buf: Bytes, at: nat)
    requires |entries| <= I64_MAX && PairsAgree(entries)
    requires Placed(buf, at, EncodeMap(entries))
    ensures at < |buf| && buf[at] == MAP_PREFIX
    ensures ReadDecimal(buf, at + 1) == Some(Got(|entries|, |Decimal(|entries|)| + 2))
    ensures ParseEntries(buf, at + |Decimal(|entries|)| + 3, |entries|) == Some(Got(entries, |EncodeEntries(entries)|))
    ensures |EncodeMap(entries)| == |Decimal(|entries|)| + 3 + |EncodeEntries(entries)|
    decreases entries, 1
  {
    var d := Decimal(|entries|);
    UnsignedCountHeader(buf, at, MAP_PREFIX, |entries|, EncodeEntries(entries));
    EntriesParse(entries, buf, at + |d| + 3);
  }

  lemma EmptySetParse(buf: Bytes, at: nat)
    requires Placed(buf, at, Encode(Set([])))
    ensures ParseFrame(buf, at) == Some(Got(Set([]), |Encode(Set([]))|))
  {
    assert Encode(Set([])) == Line(SET_PREFIX, Decimal(0)) + [];
    UnsignedCountHeader(buf, at, SET_PREFIX, 0, []);
    var g: Got<int> := Got(0, |Decimal(0)| + 2);
    ParseCountedOf(buf, at, true, g, 0, Got([], 0));
    ParseSetOf(buf, at, Got([], 1 + g.used));
  }

  /**
    Phase two reads every frame both decoders agree on back from its
    encoding, wherever it sits, using exactly the encoded bytes.
  */
  lemma {:induction false} FrameParse(f: Frame, buf: Bytes, at: nat)
    requires Agrees(f) && Placed(buf, at, Encode(f))
    ensures ParseFrame(buf, at) == Some(Got(f, |Encode(f)|))
    decreases f, 2
  {
    match f
    case SimpleString(_) => LineParse(f, buf, at);
    case Error(_) => LineParse(f, buf, at);
    case Integer(n) => IntegerParse(n, buf, at);
    case BulkString(data) =>
      BulkParse(data, buf, at);
      PlacedByte(buf, at, Encode(f), 0);
      ParseBulkFrameOf(buf, at, Got(data, |Encode(f)|));
    case Array(items) => ArrayParse(items, buf, at);
    case Map(entries) =>
      FromSortedPairs(entries);
      PairsAgreeOf(entries);
      MapBodyParse(entries, buf, at);
      MapFromParts(buf, at, Got(|entries|, |Decimal(|entries|)| + 2), entries, |EncodeEntries(entries)|, |Encode(f)|);
    case Set(items) => EmptySetParse(buf, at);
    case Null => FixedParse(f, buf, at);
    case Boolean(_) => FixedParse(f, buf, at);
  }

  // ---------------------------------------------------------------------
  // The two decoders side by side

  /**
    Once phase one has measured an encoding exactly, the batch decoder's
    verdict on it followed by anything is phase two's verdict on the
    encoding alone.
  */
  lemma MeasuredThenParsed(f: Frame, rest: Bytes, v: Frame, u: nat)
    requires WellFormed(f) && Walkable(f)
    requires ParseFrame(Encode(f), 0) == Some(Got(v, u))
    ensures DecodeV2(Encode(f) + rest) == Parsed(v, |Encode(f)|)
  {
    var e := Encode(f);
    FrameLengthsAgree(f, rest);
    assert (e + rest)[..|e|] == e;
  }

  lemma MeasuredThenRejected(f: Frame, rest: Bytes)
    requires WellFormed(f) && Walkable(f)
    requires ParseFrame(Encode(f), 0) == None
    ensures DecodeV2(Encode(f) + rest) == Failed(InvalidFrame, |Encode(f)|)
  {
    var e := Encode(f);
    FrameLengthsAgree(f, rest);
    assert (e + rest)[..|e|] == e;
  }

  /**
    On every frame both decoders read the same way, the batch decoder gives
    the frame back from its encoding followed by anything, consuming exactly
    the encoding, just as the incremental decoder does.
  */
  lemma BatchRoundTrip(f: Frame, rest: Bytes)
    requires WellFormed(f) && Agrees(f)
    ensures DecodeV2(Encode(f) + rest) == Parsed(f, |Encode(f)|)
    ensures DecodeV2(Encode(f) + rest) == DecodeFrame(Encode(f) + rest)
  {
    AgreesWalkable(f);
    FrameParse(f, Encode(f), 0);
    MeasuredThenParsed(f, rest, f, |Encode(f)|);
    FrameRoundTrip(f, rest);
  }

  /** Phase two reads lengths and counts unsigned: a sign there fails the frame. */
  lemma SignedCountRejected(buf: Bytes, at: nat)
    requires at + 1 < |buf|
    requires buf[at] == BULK_PREFIX || buf[at] == ARRAY_PREFIX || buf[at] == MAP_PREFIX || buf[at] == SET_PREFIX
    requires buf[at + 1] == MINUS || buf[at + 1] == PLUS
    ensures ReadDecimal(buf, at + 1) == None
    ensures ParseFrame(buf, at) == None
  {
    assert DigitRun(buf, at + 1) == at + 1;
  }

  /**
    The empty bulk string and the empty array travel as `$-1\r\n` and
    `*-1\r\n`: the incremental decoder reads them back, while the batch
    decoder measures the five bytes and then fails them as invalid.
  */
  lemma NullFormsDiverge(f: Frame, rest: Bytes)
    requires f == BulkString([]) || f == Array([])
    ensures |Encode(f)| == 5
    ensures DecodeFrame(Encode(f) + rest) == Parsed(f, 5)
    ensures DecodeV2(Encode(f) + rest) == Failed(InvalidFrame, 5)
  {
    var e := Encode(f);
    assert e == NULL_BULK_STRING || e == NULL_ARRAY;
    SignedCountRejected(e, 0);
    MeasuredThenRejected(f, rest);
    if f.BulkString? {
      EmptyBulkStringRoundTrip(rest);
    } else {
      EmptyArrayRoundTrip(rest);
    }
  }

  /**
    `$0\r\n\r\n`, the zero-length bulk string another client may send: the
    incremental decoder reads the empty bulk string from all six bytes, but
    phase one takes a zero length as a header alone and measures four bytes,
    which phase two then fails for want of the closing CRLF. The decoder
    reports an invalid frame and leaves the trailing `\r\n` behind.
  */
  lemma ZeroLengthBulkDiverges(rest: Bytes)
    ensures ParseFrameLength([36, 48, 13, 10, 13, 10] + rest) == Ok(4)
    ensures DecodeV2([36, 48, 13, 10, 13, 10] + rest) == Failed(InvalidFrame, 4)
    ensures DecodeFrame([36, 48, 13, 10, 13, 10] + rest) == Parsed(BulkString([]), 6)
  {
    var buf := [36, 48, 13, 10, 13, 10] + rest;
    ZeroHeaderMeasured(buf);
    ZeroHeaderRejected(buf[..4]);
    ZeroHeaderDecoded(buf);
  }

  lemma ZeroHeaderMeasured(buf: Bytes)
    requires |buf| >= 4 && buf[..4] == [36, 48, 13, 10]
    ensures ParseFrameLength(buf) == Ok(4)
  {
    assert DigitRun(buf, 2) == 2;
    assert ReadDecimal(buf, 1) == Some(Got(0, 3));
  }

  lemma ZeroHeaderRejected(head: Bytes)
    requires head == [36, 48, 13, 10]
    ensures ParseFrame(head, 0) == None
  {
    assert DigitRun(head, 2) == 2;
    assert ReadDecimal(head, 1) == Some(Got(0, 3));
  }

  lemma ZeroHeaderDecoded(buf: Bytes)
    requires |buf| >= 6 && buf[..6] == [36, 48, 13, 10, 13, 10]
    ensures DecodeFrame(buf) == Parsed(BulkString([]), 6)
  {
    ZeroLengthBulk(buf);
    assert buf[0] == BULK_PREFIX;
  }

  lemma ZeroLengthBulk(buf: Bytes)
    requires |buf| >= 6 && buf[..6] == [36, 48, 13, 10, 13, 10]
    ensures DecodeBulkString(buf) == Parsed([], 6)
  {
    assert !StartsWith(buf, NULL_BULK_STRING) by {
      assert buf[1] != NULL_BULK_STRING[1];
    }
    assert FindCrlf(buf, 1) == Some(2);
    assert buf[1..2] == [48];
    assert ParseInt([48], false, 0, USIZE_MAX) == Some(0);
    assert ParseLength(buf, BULK_PREFIX) == Ok(Header(2, 0));
  }

  lemma MinIntegerRejected(e: Bytes)
    requires e == Encode(Integer(I64_MIN))
    ensures ParseFrame(e, 0) == None
  {
    assert e == Line(INTEGER_PREFIX, FormatInt(I64_MIN));
    NoLineBreakNoCrlf(FormatInt(I64_MIN));
    LineCrlfAt(e, 0, INTEGER_PREFIX, FormatInt(I64_MIN));
    MinIntegerAt(e, 1);
  }

  /**
    `i64::MIN` is written with 19 digits after the sign, more than the
    batch decoder's unsigned read accepts, so only the incremental decoder
    reads it back.
  */
  lemma MinIntegerDiverges(rest: Bytes)
    ensures DecodeFrame(Encode(Integer(I64_MIN)) + rest) == Parsed(Integer(I64_MIN), |Encode(Integer(I64_MIN))|)
    ensures DecodeV2(Encode(Integer(I64_MIN)) + rest) == Failed(InvalidFrame, |Encode(Integer(I64_MIN))|)
  {
    var f := Integer(I64_MIN);
    MinIntegerRejected(Encode(f));
    MeasuredThenRejected(f, rest);
    FrameRoundTrip(f, rest);
  }

  lemma BrokenLineRejected(f: Frame, e: Bytes)
    requires f.SimpleString? || f.Error?
    requires NoCrlf(f.text) && !NoLineBreak(f.text) && e == Encode(f)
    ensures ParseFrame(e, 0) == None
  {
    var p := if f.SimpleString? then SIMPLE_STRING_PREFIX else ERROR_PREFIX;
    assert e == Line(p, f.text);
    LineCrlfAt(e, 0, p, f.text);
    BrokenLineAt(e, 1, f.text);
  }

  /**
    A simple string or error whose text holds a CR or LF but no CRLF is read
    back whole by the incremental decoder; the batch decoder measures it to
    its CRLF but then stops the text at the first CR or LF and fails it.
  */
  lemma LoneLineBreakDiverges(f: Frame, rest: Bytes)
    requires f.SimpleString? || f.Error?
    requires NoCrlf(f.text) && !NoLineBreak(f.text)
    ensures DecodeFrame(Encode(f) + rest) == Parsed(f, |Encode(f)|)
    ensures DecodeV2(Encode(f) + rest) == Failed(InvalidFrame, |Encode(f)|)
  {
    BrokenLineRejected(f, Encode(f));
    MeasuredThenRejected(f, rest);
    FrameRoundTrip(f, rest);
  }

  lemma {:induction false} EncodeItemsSplit(items: seq<Frame>, k: nat)
    requires k <= |items|
    ensures EncodeItems(items) == EncodeItems(items[..k]) + EncodeItems(items[k..])
    decreases k
  {
    if k > 0 {
      EncodeItemsSplit(items[1..], k - 1);
      assert items[1..][..k - 1] == items[..k][1..];
      assert items[1..][k - 1..] == items[k..];
    }
  }

  /**
    Phase two reads a set's count and then only half that many elements: the
    batch decoder gives back the first half of a non-empty set and drops the
    rest of the measured bytes.
  */
  lemma SetHalves(items: seq<Frame>, rest: Bytes)
    requires 0 < |items| <= I64_MAX && WellFormed(Set(items))
    requires forall i :: 0 <= i < |items| ==> Agrees(items[i])
    ensures DecodeFrame(Encode(Set(items)) + rest) == Parsed(Set(items), |Encode(Set(items))|)
    ensures DecodeV2(Encode(Set(items)) + rest) == Parsed(Set(items[..|items| / 2]), |Encode(Set(items))|)
  {
    var f := Set(items);
    var e := Encode(f);
    forall i | 0 <= i < |items| ensures Walkable(items[i]) {
      AgreesWalkable(items[i]);
    }
    assert e == EncodeSet(items) && Placed(e, 0, e);
    SetHalvesParse(items, e, 0);
    var g := ParseFrame(e, 0).value;
    MeasuredThenParsed(f, rest, g.value, g.used);
    FrameRoundTrip(f, rest);
  }

  /** The first `k` of `n` placed encoded frames read back on their own. */
  lemma HalfItemsParse(items: seq<Frame>, k: nat, buf: Bytes, at: nat)
    requires k <= |items|
    requires forall i :: 0 <= i < |items| ==> Agrees(items[i])
    requires Placed(buf, at, EncodeItems(items))
    ensures ParseItems(buf, at, k) == Some(Got(items[..k], |EncodeItems(items[..k])|))
  {
    EncodeItemsSplit(items, k);
    PlacedSplit(buf, at, EncodeItems(items[..k]), EncodeItems(items[k..]));
    assert forall i :: 0 <= i < k ==> items[..k][i] == items[i];
    ItemsParse(items[..k], buf, at);
  }

  lemma SetHalvesParse(items: seq<Frame>, buf: Bytes, at: nat)
    requires 0 < |items| <= I64_MAX
    requires forall i :: 0 <= i < |items| ==> Agrees(items[i])
    requires Placed(buf, at, EncodeSet(items))
    ensures ParseFrame(buf, at).Some? && ParseFrame(buf, at).value.value == Set(items[..|items| / 2])
  {
    var d := Decimal(|items|);
    var k := |items| / 2;
    UnsignedCountHeader(buf, at, SET_PREFIX, |items|, EncodeItems(items));
    HalfItemsParse(items, k, buf, at + |d| + 3);
    var g: Got<int> := Got(|items|, |d| + 2);
    ParseCountedOf(buf, at, true, g, k, Got(items[..k], |EncodeItems(items[..k])|));
    ParseSetOf(buf, at, Got(items[..k], 1 + g.used + |EncodeItems(items[..k])|));
  }
}
