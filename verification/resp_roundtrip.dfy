/**
  Decoding inverts encoding in the incremental codec: for every frame the
  encoder writes unambiguously, decoding its bytes followed by anything at
  all gives the frame back and removes exactly the encoded bytes.
*/
module RespRoundTrip {
  import opened Bytes
  import opened Numeric
  import opened Frames
  import opened RespEncode
  import opened RespDecode
  import opened RespProps

  /**
    The frames whose encoding decodes back to themselves: line bodies hold no
    CRLF, integers fit in an `i64`, counts fit in a `usize`, and map keys are
    strictly ascending (as a `BTreeMap` keeps them) and CRLF-free.
  */
  predicate WellFormed(f: Frame)
    decreases f
  {
    match f
    case SimpleString(s) => NoCrlf(s)
    case Error(s) => NoCrlf(s)
    case Integer(n) => IsI64(n)
    case BulkString(data) => |data| <= USIZE_MAX
    case Array(items) => |items| <= USIZE_MAX && forall i :: 0 <= i < |items| ==> WellFormed(items[i])
    case Null => true
    case Boolean(_) => true
    case Double(literal) => NoCrlf(literal)
    case Map(entries) =>
      |entries| <= USIZE_MAX && SortedEntries(entries) &&
      forall i :: 0 <= i < |entries| ==> NoCrlf(entries[i].key) && WellFormed(entries[i].value)
    case Set(items) => |items| <= USIZE_MAX && forall i :: 0 <= i < |items| ==> WellFormed(items[i])
  }

  // ---------------------------------------------------------------------
  // Lines and headers

  /** A line frame is read back up to its own CRLF, whatever follows it. */
  lemma LineRoundTrip(p: byte, body: Bytes, rest: Bytes)
    requires NoCrlf(body)
    ensures |Line(p, body)| == |body| + 3
    ensures FindCrlf(Line(p, body) + rest, 1) == Some(|body| + 1)
    ensures DecodeLine(Line(p, body) + rest, p) == Parsed(body, |body| + 3)
  {
    var pre := [p] + body;
    NoCrlfAfterPrefix(p, body);
    FirstCrlfOf(pre, rest, 1);
    assert Line(p, body) + rest == pre + CRLF + rest;
    assert (Line(p, body) + rest)[1..|body| + 1] == body;
  }

  /** A count header is read back as the count it was written with. */
  lemma HeaderRoundTrip(p: byte, n: nat, rest: Bytes)
    requires n <= USIZE_MAX
    ensures ParseLength(Line(p, Decimal(n)) + rest, p) == Ok(Header(|Decimal(n)| + 1, n))
    ensures (Line(p, Decimal(n)) + rest)[|Decimal(n)| + 3..] == rest
  {
    var d := Decimal(n);
    var buf := Line(p, d) + rest;
    DigitsHaveNoLineBreak(d);
    LineRoundTrip(p, d, rest);
    assert buf[1..|d| + 1] == d;
    FormatParseUsize(n);
    assert buf[|d| + 3..] == rest;
  }

  // ---------------------------------------------------------------------
  // Scalars

  lemma SimpleStringRoundTrip(f: Frame, rest: Bytes)
    requires f.SimpleString? && WellFormed(f)
    ensures DecodeFrame(Encode(f) + rest) == Parsed(f, |Encode(f)|)
  {
    LineRoundTrip(SIMPLE_STRING_PREFIX, f.text, rest);
  }

  lemma ErrorRoundTrip(f: Frame, rest: Bytes)
    requires f.Error? && WellFormed(f)
    ensures DecodeFrame(Encode(f) + rest) == Parsed(f, |Encode(f)|)
  {
    LineRoundTrip(ERROR_PREFIX, f.text, rest);
  }

  lemma DoubleRoundTrip(f: Frame, rest: Bytes)
    requires f.Double? && WellFormed(f)
    ensures DecodeFrame(Encode(f) + rest) == Parsed(f, |Encode(f)|)
  {
    LineRoundTrip(DOUBLE_PREFIX, f.literal, rest);
  }

  lemma IntegerRoundTrip(f: Frame, rest: Bytes)
    requires f.Integer? && WellFormed(f)
    ensures DecodeFrame(Encode(f) + rest) == Parsed(f, |Encode(f)|)
  {
    var s := FormatInt(f.value);
    NoLineBreakNoCrlf(s);
    LineRoundTrip(INTEGER_PREFIX, s, rest);
    assert (Encode(f) + rest)[1..|s| + 1] == s;
    FormatParseI64(f.value);
  }

  lemma BoolRoundTrip(f: Frame, rest: Bytes)
    requires f.Boolean?
    ensures DecodeFrame(Encode(f) + rest) == Parsed(f, |Encode(f)|)
  {
    var buf := Encode(f) + rest;
    assert buf[..4] == Encode(f);
  }

  lemma NullRoundTrip(rest: Bytes)
    ensures DecodeFrame(Encode(Null) + rest) == Parsed(Null, |Encode(Null)|)
  {
    var buf := Encode(Null) + rest;
    assert buf[..3] == NULL_BYTES;
  }

  lemma BulkStringRoundTrip(f: Frame, rest: Bytes)
    requires f.BulkString? && WellFormed(f)
    ensures DecodeFrame(Encode(f) + rest) == Parsed(f, |Encode(f)|)
  {
    if |f.data| == 0 {
      EmptyBulkStringRoundTrip(rest);
    } else {
      SizedBulkStringRoundTrip(f, rest);
    }
  }

  /** The empty bulk string travels as `$-1\r\n` and comes back empty. */
  lemma EmptyBulkStringRoundTrip(rest: Bytes)
    ensures DecodeFrame(Encode(BulkString([])) + rest) == Parsed(BulkString([]), |Encode(BulkString([]))|)
  {
    var buf := Encode(BulkString([])) + rest;
    assert Encode(BulkString([])) == NULL_BULK_STRING;
    assert buf[..5] == NULL_BULK_STRING;
  }

  lemma SizedBulkStringRoundTrip(f: Frame, rest: Bytes)
    requires f.BulkString? && |f.data| > 0 && WellFormed(f)
    ensures DecodeFrame(Encode(f) + rest) == Parsed(f, |Encode(f)|)
  {
    var data := f.data;
    var buf := Encode(f) + rest;
    var d := Decimal(|data|);
    var tail := data + CRLF + rest;
    assert buf == Line(BULK_PREFIX, d) + tail;
    HeaderRoundTrip(BULK_PREFIX, |data|, tail);
    assert buf[1] == d[0];
    assert !StartsWith(buf, NULL_BULK_STRING);
    assert buf[|d| + 3..|d| + 3 + |data|] == data;
  }

  // ---------------------------------------------------------------------
  // Aggregates

  /** `n` encoded frames in a row are read back as those frames. */
  lemma {:induction false} ItemsRoundTrip(items: seq<Frame>, rest: Bytes)
    requires forall i :: 0 <= i < |items| ==> WellFormed(items[i])
    ensures DecodeItems(EncodeItems(items) + rest, |items|) == Parsed(items, |EncodeItems(items)|)
    decreases items, 0
  {
    if |items| > 0 {
      var head := Encode(items[0]);
      var tail := EncodeItems(items[1..]) + rest;
      var buf := EncodeItems(items) + rest;
      assert buf == head + tail;
      FrameRoundTrip(items[0], tail);
      assert buf[|head|..] == tail;
      ItemsRoundTrip(items[1..], rest);
      ItemsCons(buf, |items|, items[0], |head|, items[1..], |EncodeItems(items[1..])|);
      assert [items[0]] + items[1..] == items;
    }
  }

  /** A counted header followed by its encoded elements. */
  lemma {:induction false} CountedRoundTrip(prefix: byte, items: seq<Frame>, rest: Bytes)
    requires |items| <= USIZE_MAX
    requires forall i :: 0 <= i < |items| ==> WellFormed(items[i])
    ensures var enc := Line(prefix, Decimal(|items|)) + EncodeItems(items);
      DecodeCounted(enc + rest, prefix) == Parsed(items, |enc|)
    decreases items, 1
  {
    var d := Decimal(|items|);
    var body := EncodeItems(items) + rest;
    var buf := Line(prefix, d) + body;
    assert Line(prefix, d) + EncodeItems(items) + rest == buf;
    HeaderRoundTrip(prefix, |items|, body);
    var h := Header(|d| + 1, |items|);
    ItemsRoundTrip(items, rest);
    ItemsParsedProbe(body, |items|);
    CountedProbeStep(buf, prefix, h, |EncodeItems(items)|);
    CountedDecodeStep(buf, prefix, h);
  }

  lemma {:induction false} ArrayRoundTrip(f: Frame, rest: Bytes)
    requires f.Array? && WellFormed(f)
    ensures DecodeFrame(Encode(f) + rest) == Parsed(f, |Encode(f)|)
    decreases f, 1
  {
    if |f.items| == 0 {
      EmptyArrayRoundTrip(rest);
    } else {
      CountedArrayRoundTrip(f, rest);
    }
  }

  /** The empty array travels as `*-1\r\n` and comes back empty. */
  lemma EmptyArrayRoundTrip(rest: Bytes)
    ensures DecodeFrame(Encode(Array([])) + rest) == Parsed(Array([]), |Encode(Array([]))|)
  {
    var buf := Encode(Array([])) + rest;
    assert Encode(Array([])) == NULL_ARRAY;
    assert buf[..5] == NULL_ARRAY;
  }

  lemma {:induction false} CountedArrayRoundTrip(f: Frame, rest: Bytes)
    requires f.Array? && |f.items| > 0 && WellFormed(f)
    ensures DecodeFrame(Encode(f) + rest) == Parsed(f, |Encode(f)|)
    decreases f, 0
  {
    var items := f.items;
    var buf := Encode(f) + rest;
    CountedRoundTrip(ARRAY_PREFIX, items, rest);
    assert Encode(f) == Line(ARRAY_PREFIX, Decimal(|items|)) + EncodeItems(items);
    assert buf[1] == Decimal(|items|)[0];
    assert !StartsWith(buf, NULL_ARRAY);
  }

  lemma {:induction false} SetRoundTrip(f: Frame, rest: Bytes)
    requires f.Set? && WellFormed(f)
    ensures DecodeFrame(Encode(f) + rest) == Parsed(f, |Encode(f)|)
    decreases f, 0
  {
    CountedRoundTrip(SET_PREFIX, f.items, rest);
  }

  /** `n` encoded key/value pairs in a row are read back as those pairs. */
  lemma {:induction false} EntriesRoundTrip(entries: seq<Entry>, rest: Bytes)
    requires forall i :: 0 <= i < |entries| ==> NoCrlf(entries[i].key) && WellFormed(entries[i].value)
    ensures DecodeEntries(EncodeEntries(entries) + rest, |entries|) == Parsed(entries, |EncodeEntries(entries)|)
    decreases entries, 0
  {
    if |entries| > 0 {
      var e := entries[0];
      var key := EncodeSimpleString(e.key);
      var value := Encode(e.value);
      var tail := EncodeEntries(entries[1..]) + rest;
      var buf := EncodeEntries(entries) + rest;
      assert buf == key + value + tail;
      PairRoundTrip(e, tail);
      assert buf[|key| + |value|..] == tail;
      EntriesRoundTrip(entries[1..], rest);
      EntriesCons(buf, |entries|, e, |key| + |value|, entries[1..], |EncodeEntries(entries[1..])|);
      assert [e] + entries[1..] == entries;
    }
  }

  /** One key/value pair: the key as a SimpleString line, then the value. */
  lemma {:induction false} PairRoundTrip(e: Entry, rest: Bytes)
    requires NoCrlf(e.key) && WellFormed(e.value)
    ensures DecodePair(EncodeSimpleString(e.key) + Encode(e.value) + rest) ==
      Parsed(e, |EncodeSimpleString(e.key)| + |Encode(e.value)|)
    decreases e, 0
  {
    var key := EncodeSimpleString(e.key);
    var buf := key + (Encode(e.value) + rest);
    assert key + Encode(e.value) + rest == buf;
    LineRoundTrip(SIMPLE_STRING_PREFIX, e.key, Encode(e.value) + rest);
    assert buf[|key|..] == Encode(e.value) + rest;
    FrameRoundTrip(e.value, rest);
  }

  /** A map header followed by its encoded pairs. */
  lemma {:induction false} PairsRoundTrip(entries: seq<Entry>, rest: Bytes)
    requires |entries| <= USIZE_MAX
    requires forall i :: 0 <= i < |entries| ==> NoCrlf(entries[i].key) && WellFormed(entries[i].value)
    ensures var enc := Line(MAP_PREFIX, Decimal(|entries|)) + EncodeEntries(entries);
      DecodePairs(enc + rest, MAP_PREFIX) == Parsed(entries, |enc|)
    decreases entries, 1
  {
    var d := Decimal(|entries|);
    var body := EncodeEntries(entries) + rest;
    var buf := Line(MAP_PREFIX, d) + body;
    assert Line(MAP_PREFIX, d) + EncodeEntries(entries) + rest == buf;
    HeaderRoundTrip(MAP_PREFIX, |entries|, body);
    var h := Header(|d| + 1, |entries|);
    EntriesRoundTrip(entries, rest);
    EntriesParsedProbe(body, |entries|);
    PairsProbeStep(buf, MAP_PREFIX, h, |EncodeEntries(entries)|);
    PairsDecodeStep(buf, MAP_PREFIX, h);
  }

  lemma {:induction false} MapRoundTrip(f: Frame, rest: Bytes)
    requires f.Map? && WellFormed(f)
    ensures DecodeFrame(Encode(f) + rest) == Parsed(f, |Encode(f)|)
    decreases f, 0
  {
    PairsRoundTrip(f.entries, rest);
    FromSortedPairs(f.entries);
  }

  // ---------------------------------------------------------------------
  // Every frame

  /**
    Decoding the encoding of a well-formed frame, followed by any bytes,
    gives the frame back, removes exactly its encoding, and the length probe
    announces that many bytes.
  */
  lemma {:induction false} FrameRoundTrip(f: Frame, rest: Bytes)
    requires WellFormed(f)
    ensures DecodeFrame(Encode(f) + rest) == Parsed(f, |Encode(f)|)
    ensures ExpectLength(Encode(f) + rest) == Ok(|Encode(f)|)
    decreases f, 3
  {
    FrameRoundTripCases(f, rest);
    FrameParsedProbe(Encode(f) + rest);
  }

  lemma {:induction false} FrameRoundTripCases(f: Frame, rest: Bytes)
    requires WellFormed(f)
    ensures DecodeFrame(Encode(f) + rest) == Parsed(f, |Encode(f)|)
    decreases f, 2
  {
    match f
    case SimpleString(_) => SimpleStringRoundTrip(f, rest);
    case Error(_) => ErrorRoundTrip(f, rest);
    case Integer(_) => IntegerRoundTrip(f, rest);
    case BulkString(_) => BulkStringRoundTrip(f, rest);
    case Array(_) => ArrayRoundTrip(f, rest);
    case Null => NullRoundTrip(rest);
    case Boolean(_) => BoolRoundTrip(f, rest);
    case Double(_) => DoubleRoundTrip(f, rest);
    case Map(_) => MapRoundTrip(f, rest);
    case Set(_) => SetRoundTrip(f, rest);
  }
}
