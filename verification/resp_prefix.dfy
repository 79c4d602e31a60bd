/**
  Partial frames in the incremental codec: every proper prefix of an encoded
  frame is reported as "not complete", nothing is removed from the buffer,
  and once the rest of the frame arrives the same buffer decodes to it.
*/
module RespPrefix {
  import opened Bytes
  import opened Numeric
  import opened Frames
  import opened RespEncode
  import opened RespDecode
  import opened RespProps
  import opened RespRoundTrip

  // ---------------------------------------------------------------------
  // Cut lines and headers

  /** Cutting a buffer before the end of its first CRLF leaves no CRLF in the cut. */
  lemma CrlfCut(s: Bytes, from: nat, e: nat, k: nat)
    requires FindCrlf(s, from) == Some(e) && k < e + 2 && k <= |s|
    ensures FindCrlf(s[..k], from) == None
  {
    FindCrlfSpec(s, from);
    FindCrlfSpec(s[..k], from);
    forall j | from <= j ensures !IsCrlfAt(s[..k], j) {
      if j + 1 < k {
        assert j < e && !IsCrlfAt(s, j);
        assert s[..k][j] == s[j] && s[..k][j + 1] == s[j + 1];
      }
    }
  }

  /** A line frame cut before the end of its CRLF is not complete. */
  lemma LineCut(p: byte, body: Bytes, k: nat)
    requires NoCrlf(body) && k < |body| + 3
    ensures ExpectLine(Line(p, body)[..k], p) == Err(NotComplete)
  {
    var s := Line(p, body);
    LineRoundTrip(p, body, []);
    assert s + [] == s;
    if k > 0 {
      CrlfCut(s, 1, |body| + 1, k);
      assert s[..k][0] == p;
    }
  }

  /**
    A counted frame cut inside its header line is not complete; cut after
    it, the header reads as written and the cut continues into the body.
  */
  lemma HeaderCut(p: byte, n: nat, tail: Bytes, k: nat)
    requires n <= USIZE_MAX && k <= |Decimal(n)| + 3 + |tail|
    ensures var s := Line(p, Decimal(n)) + tail;
      k < |Decimal(n)| + 3 ==> ParseLength(s[..k], p) == Err(NotComplete)
    ensures var s := Line(p, Decimal(n)) + tail;
      k >= |Decimal(n)| + 3 ==>
        ParseLength(s[..k], p) == Ok(Header(|Decimal(n)| + 1, n)) &&
        s[..k][|Decimal(n)| + 3..] == tail[..k - |Decimal(n)| - 3]
  {
    var d := Decimal(n);
    var s := Line(p, d) + tail;
    if k >= |d| + 3 {
      var cut := tail[..k - |d| - 3];
      assert s[..k] == Line(p, d) + cut;
      HeaderRoundTrip(p, n, cut);
    } else if k > 0 {
      DigitsHaveNoLineBreak(d);
      LineRoundTrip(p, d, tail);
      CrlfCut(s, 1, |d| + 1, k);
      assert s[..k][0] == p;
    }
  }

  /** `$-1\r\n` and `*-1\r\n` cut short are headers without their CRLF. */
  lemma NullFormCut(p: byte, k: nat)
    requires 0 < k < 5
    ensures ParseLength(([p, MINUS, 49] + CRLF)[..k], p) == Err(NotComplete)
  {
    var s := [p, MINUS, 49] + CRLF;
    assert !IsCrlfAt(s, 1) && !IsCrlfAt(s, 2) && IsCrlfAt(s, 3);
    assert FindCrlf(s, 3) == Some(3);
    assert FindCrlf(s, 1) == Some(3);
    CrlfCut(s, 1, 3, k);
    assert s[..k][0] == p;
  }

  // ---------------------------------------------------------------------
  // Single unfolding steps of the probe loops

  lemma ElementIsFrame(buf: Bytes)
    ensures ExpectElement(buf) == ExpectLength(buf)
  {}

  lemma ProbeItemsShortHead(buf: Bytes, n: nat)
    requires n > 0 && Short(ExpectElement(buf), |buf|)
    ensures ProbeItems(buf, n) == Err(NotComplete)
  {}

  lemma ProbeItemsTailErr(buf: Bytes, n: nat, k: nat, e: RespError)
    requires n > 0 && ExpectElement(buf) == Ok(k) && k <= |buf|
    requires ProbeItems(buf[k..], n - 1) == Err(e)
    ensures ProbeItems(buf, n) == Err(e)
  {}

  lemma ProbeEntriesShortHead(buf: Bytes, n: nat)
    requires n > 0 && Short(ProbePair(buf), |buf|)
    ensures ProbeEntries(buf, n) == Err(NotComplete)
  {}

  lemma ProbeEntriesTailErr(buf: Bytes, n: nat, k: nat, e: RespError)
    requires n > 0 && ProbePair(buf) == Ok(k) && k <= |buf|
    requires ProbeEntries(buf[k..], n - 1) == Err(e)
    ensures ProbeEntries(buf, n) == Err(e)
  {}

  lemma ProbePairShortValue(buf: Bytes, k: nat)
    requires ExpectSimpleString(buf) == Ok(k) && k <= |buf|
    requires Short(ExpectElement(buf[k..]), |buf| - k)
    ensures Short(ProbePair(buf), |buf|)
  {}

  // ---------------------------------------------------------------------
  // Proper prefixes probe short

  /** Every proper prefix of a well-formed frame's encoding probes short. */
  lemma {:induction false} FramePrefixShort(f: Frame, k: nat)
    requires WellFormed(f) && k < |Encode(f)|
    ensures Short(ExpectLength(Encode(f)[..k]), k)
    decreases f, 2
  {
    if k == 0 {
      assert Encode(f)[..0] == [];
    } else {
      match f
      case SimpleString(s) => LinePrefixShort(SIMPLE_STRING_PREFIX, s, k);
      case Error(s) => LinePrefixShort(ERROR_PREFIX, s, k);
      case Double(s) => LinePrefixShort(DOUBLE_PREFIX, s, k);
      case Integer(n) =>
        NoLineBreakNoCrlf(FormatInt(n));
        LinePrefixShort(INTEGER_PREFIX, FormatInt(n), k);
      case Boolean(_) =>
      case Null =>
      case BulkString(_) => BulkPrefixShort(f, k);
      case Array(_) => ArrayPrefixShort(f, k);
      case Set(items) => CountedPrefixShort(SET_PREFIX, items, k);
      case Map(_) => MapPrefixShort(f, k);
    }
  }

  lemma LinePrefixShort(p: byte, body: Bytes, k: nat)
    requires p in {SIMPLE_STRING_PREFIX, ERROR_PREFIX, INTEGER_PREFIX, DOUBLE_PREFIX}
    requires NoCrlf(body) && 0 < k < |body| + 3
    ensures ExpectLength(Line(p, body)[..k]) == Err(NotComplete)
  {
    LineCut(p, body, k);
    assert Line(p, body)[..k][0] == p;
  }

  lemma BulkPrefixShort(f: Frame, k: nat)
    requires f.BulkString? && WellFormed(f) && 0 < k < |Encode(f)|
    ensures Short(ExpectLength(Encode(f)[..k]), k)
  {
    var buf := Encode(f)[..k];
    if |f.data| == 0 {
      assert Encode(f) == [BULK_PREFIX, MINUS, 49] + CRLF;
      NullFormCut(BULK_PREFIX, k);
    } else {
      var d := Decimal(|f.data|);
      var tail := f.data + CRLF;
      assert Encode(f) == Line(BULK_PREFIX, d) + tail;
      HeaderCut(BULK_PREFIX, |f.data|, tail, k);
      if k >= 2 {
        assert buf[1] == d[0];
      }
    }
    assert buf[0] == BULK_PREFIX;
    assert !StartsWith(buf, NULL_BULK_STRING);
  }

  lemma {:induction false} ArrayPrefixShort(f: Frame, k: nat)
    requires f.Array? && WellFormed(f) && 0 < k < |Encode(f)|
    ensures Short(ExpectLength(Encode(f)[..k]), k)
    decreases f, 1
  {
    var buf := Encode(f)[..k];
    if |f.items| == 0 {
      assert Encode(f) == [ARRAY_PREFIX, MINUS, 49] + CRLF;
      NullFormCut(ARRAY_PREFIX, k);
      assert buf[0] == ARRAY_PREFIX;
      assert !StartsWith(buf, NULL_ARRAY);
      assert ExpectCounted(buf, ARRAY_PREFIX, Items) == Err(NotComplete);
    } else {
      CountedPrefixShort(ARRAY_PREFIX, f.items, k);
      var d := Decimal(|f.items|);
      assert Encode(f) == Line(ARRAY_PREFIX, d) + EncodeItems(f.items);
      if k >= 2 {
        assert buf[1] == d[0];
      }
      assert !StartsWith(buf, NULL_ARRAY);
    }
  }

  /** A counted header and its elements, cut anywhere before the end. */
  lemma {:induction false} CountedPrefixShort(p: byte, items: seq<Frame>, k: nat)
    requires p == ARRAY_PREFIX || p == SET_PREFIX
    requires |items| <= USIZE_MAX && forall i :: 0 <= i < |items| ==> WellFormed(items[i])
    requires 0 < k < |Line(p, Decimal(|items|)) + EncodeItems(items)|
    ensures ExpectCounted((Line(p, Decimal(|items|)) + EncodeItems(items))[..k], p, Items) == Err(NotComplete)
    ensures ExpectLength((Line(p, Decimal(|items|)) + EncodeItems(items))[..k]) == Err(NotComplete)
    decreases items, 1
  {
    var d := Decimal(|items|);
    var s := Line(p, d) + EncodeItems(items);
    var buf := s[..k];
    HeaderCut(p, |items|, EncodeItems(items), k);
    if k >= |d| + 3 {
      ItemsPrefixShort(items, k - |d| - 3);
    }
    assert buf[0] == p;
    if p == ARRAY_PREFIX {
      if k >= 2 {
        assert buf[1] == d[0];
      }
      assert !StartsWith(buf, NULL_ARRAY);
    }
  }

  lemma {:induction false} MapPrefixShort(f: Frame, k: nat)
    requires f.Map? && WellFormed(f) && 0 < k < |Encode(f)|
    ensures Short(ExpectLength(Encode(f)[..k]), k)
    decreases f, 1
  {
    var entries := f.entries;
    var d := Decimal(|entries|);
    var buf := Encode(f)[..k];
    assert Encode(f) == Line(MAP_PREFIX, d) + EncodeEntries(entries);
    HeaderCut(MAP_PREFIX, |entries|, EncodeEntries(entries), k);
    if k >= |d| + 3 {
      EntriesPrefixShort(entries, k - |d| - 3);
    }
    assert buf[0] == MAP_PREFIX;
    assert ExpectCounted(buf, MAP_PREFIX, Entries) == Err(NotComplete);
  }

  /** Encoded frames in a row, cut anywhere before the end. */
  lemma {:induction false} ItemsPrefixShort(items: seq<Frame>, k: nat)
    requires forall i :: 0 <= i < |items| ==> WellFormed(items[i])
    requires k < |EncodeItems(items)|
    ensures ProbeItems(EncodeItems(items)[..k], |items|) == Err(NotComplete)
    decreases items, 0
  {
    var head := Encode(items[0]);
    var tail := EncodeItems(items[1..]);
    var q := EncodeItems(items)[..k];
    assert EncodeItems(items) == head + tail;
    ElementIsFrame(q);
    if k < |head| {
      assert q == head[..k];
      FramePrefixShort(items[0], k);
      ProbeItemsShortHead(q, |items|);
    } else {
      var cut := tail[..k - |head|];
      assert q == head + cut;
      FrameRoundTrip(items[0], cut);
      assert q[|head|..] == cut;
      ItemsPrefixShort(items[1..], k - |head|);
      ProbeItemsTailErr(q, |items|, |head|, NotComplete);
    }
  }

  /** One encoded key/value pair, cut anywhere before the end. */
  lemma {:induction false} PairPrefixShort(e: Entry, k: nat)
    requires NoCrlf(e.key) && WellFormed(e.value)
    requires k < |EncodeSimpleString(e.key) + Encode(e.value)|
    ensures Short(ProbePair((EncodeSimpleString(e.key) + Encode(e.value))[..k]), k)
    decreases e, 0
  {
    var key := EncodeSimpleString(e.key);
    var q := (key + Encode(e.value))[..k];
    if k < |key| {
      assert q == key[..k];
      LineCut(SIMPLE_STRING_PREFIX, e.key, k);
    } else {
      var cut := Encode(e.value)[..k - |key|];
      assert q == key + cut;
      LineRoundTrip(SIMPLE_STRING_PREFIX, e.key, cut);
      assert q[|key|..] == cut;
      FramePrefixShort(e.value, k - |key|);
      ElementIsFrame(cut);
      ProbePairShortValue(q, |key|);
    }
  }

  /** Encoded key/value pairs in a row, cut anywhere before the end. */
  lemma {:induction false} EntriesPrefixShort(entries: seq<Entry>, k: nat)
    requires forall i :: 0 <= i < |entries| ==> NoCrlf(entries[i].key) && WellFormed(entries[i].value)
    requires k < |EncodeEntries(entries)|
    ensures ProbeEntries(EncodeEntries(entries)[..k], |entries|) == Err(NotComplete)
    decreases entries, 1
  {
    var e := entries[0];
    var pair := EncodeSimpleString(e.key) + Encode(e.value);
    var tail := EncodeEntries(entries[1..]);
    var q := EncodeEntries(entries)[..k];
    assert EncodeEntries(entries) == pair + tail;
    if k < |pair| {
      assert q == pair[..k];
      PairPrefixShort(e, k);
      ProbeEntriesShortHead(q, |entries|);
    } else {
      var cut := tail[..k - |pair|];
      assert q == pair + cut;
      PairRoundTrip(e, cut);
      PairParsedProbe(q);
      assert q[|pair|..] == cut;
      EntriesPrefixShort(entries[1..], k - |pair|);
      ProbeEntriesTailErr(q, |entries|, |pair|, NotComplete);
    }
  }

  // ---------------------------------------------------------------------
  // Decoding partial frames

  /**
    A buffer holding only part of a well-formed frame decodes to "not
    complete" and loses nothing; once the remaining bytes are appended, the
    same buffer decodes to the whole frame.
  */
  lemma PartialFrameWaits(f: Frame, k: nat, rest: Bytes)
    requires WellFormed(f) && k < |Encode(f)|
    ensures DecodeFrame(Encode(f)[..k]) == Failed(NotComplete, 0)
    ensures DecodeFrame(Encode(f)[..k] + Encode(f)[k..] + rest) == Parsed(f, |Encode(f)|)
  {
    FramePrefixShort(f, k);
    ShortProbeIncomplete(Encode(f)[..k]);
    assert Encode(f)[..k] + Encode(f)[k..] == Encode(f);
    FrameRoundTrip(f, rest);
  }
}
