/**
  Phase one of the batch decoder on encoded frames: the readers it is built
  from read back what the encoder writes, and `parse_frame_length` measures
  the encoding of every frame it can walk exactly, agreeing with the length
  probe of the incremental codec.
*/
module RespV2Props {
  import opened Bytes
  import opened Numeric
  import opened Frames
  import opened RespEncode
  import opened RespDecode
  import opened RespRoundTrip
  import opened RespV2

  // ---------------------------------------------------------------------
  // Placing bytes inside a buffer

  /** The bytes `e` sit in `buf` from index `at`. */
  predicate Placed(buf: Bytes, at: nat, e: Bytes) {
    at + |e| <= |buf| && forall i :: 0 <= i < |e| ==> buf[at + i] == e[i]
  }

  lemma PlacedSplit(buf: Bytes, at: nat, a: Bytes, b: Bytes)
    requires Placed(buf, at, a + b)
    ensures Placed(buf, at, a) && Placed(buf, at + |a|, b)
  {
    forall i | 0 <= i < |a| ensures buf[at + i] == a[i] {
      assert (a + b)[i] == a[i];
    }
    forall i | 0 <= i < |b| ensures buf[at + |a| + i] == b[i] {
      assert (a + b)[|a| + i] == b[i];
    }
  }

  lemma PlacedByte(buf: Bytes, at: nat, e: Bytes, i: nat)
    requires Placed(buf, at, e) && i < |e|
    ensures buf[at + i] == e[i]
  {}

  /** Placed bytes are the slice of the buffer they occupy. */
  lemma PlacedSlice(buf: Bytes, at: nat, e: Bytes)
    requires Placed(buf, at, e)
    ensures buf[at..at + |e|] == e
  {
    forall i | 0 <= i < |e| ensures buf[at..at + |e|][i] == e[i] {
      assert buf[at + i] == e[i];
    }
  }

  // ---------------------------------------------------------------------
  // Readers

  /** The digit run from `i` ends at `e` when `s[i..e]` are digits and `s[e]` is not. */
  lemma {:induction false} DigitRunAt(s: Bytes, i: nat, e: nat)
    requires i <= e <= |s|
    requires forall k :: i <= k < e ==> IsDigit(s[k])
    requires e < |s| ==> !IsDigit(s[e])
    ensures DigitRun(s, i) == e
    decreases e - i
  {
    if i < e {
      DigitRunAt(s, i + 1, e);
    }
  }

  /** Over a run of digits `d` placed at `lo`, `RunValue` is the value of the digits. */
  lemma {:induction false} RunValueAt(s: Bytes, lo: nat, d: Bytes, k: nat)
    requires Placed(s, lo, d)
    requires AllDigits(d) && k <= |d|
    ensures RunValue(s, lo, lo + k) == DigitsValue(d[..k])
    decreases k
  {
    if k > 0 {
      RunValueAt(s, lo, d, k - 1);
      assert d[..k][..k - 1] == d[..k - 1];
      assert s[lo + k - 1] == d[k - 1];
    }
  }

  /** The canonical digits of any `n` up to `i64::MAX`, then CRLF, read back as `n`. */
  lemma DecimalAt(s: Bytes, at: nat, n: nat)
    requires n <= I64_MAX
    requires Placed(s, at, Decimal(n)) && CrlfAt(s, at + |Decimal(n)|)
    ensures ReadDecimal(s, at) == Some(Got(n, |Decimal(n)| + 2))
    ensures ReadInteger(s, at) == Some(Got(n, |Decimal(n)| + 2))
  {
    var d := Decimal(n);
    forall k | at <= k < at + |d| ensures IsDigit(s[k]) {
      assert s[k] == d[k - at];
    }
    DigitRunAt(s, at, at + |d|);
    RunValueAt(s, at, d, |d|);
    assert d[..|d|] == d;
    DecimalRoundTrip(n);
    assert s[at] == d[0];
  }

  /** What `format!` writes for any `n` whose magnitude fits in an `i64` reads back as `n`. */
  lemma IntegerAt(s: Bytes, at: nat, n: int)
    requires -I64_MAX <= n <= I64_MAX
    requires Placed(s, at, FormatInt(n)) && CrlfAt(s, at + |FormatInt(n)|)
    ensures ReadInteger(s, at) == Some(Got(n, |FormatInt(n)| + 2))
  {
    var t := FormatInt(n);
    if n < 0 {
      assert t == [MINUS] + Decimal(-n);
      PlacedSplit(s, at, [MINUS], Decimal(-n));
      DecimalAt(s, at + 1, -n);
    } else {
      DecimalAt(s, at, n);
    }
  }

  /**
    `i64::MIN` is written as `-9223372036854775808`, and its digits overflow
    the unsigned `i64` read that follows the sign.
  */
  lemma MinIntegerAt(s: Bytes, at: nat)
    requires Placed(s, at, FormatInt(I64_MIN)) && CrlfAt(s, at + |FormatInt(I64_MIN)|)
    ensures ReadInteger(s, at) == None
  {
    var t := FormatInt(I64_MIN);
    var d := Decimal(-I64_MIN);
    assert t == [MINUS] + d;
    PlacedSplit(s, at, [MINUS], d);
    forall k | at + 1 <= k < at + 1 + |d| ensures IsDigit(s[k]) {
      assert s[k] == d[k - at - 1];
    }
    DigitRunAt(s, at + 1, at + 1 + |d|);
    RunValueAt(s, at + 1, d, |d|);
    assert d[..|d|] == d;
    DecimalRoundTrip(-I64_MIN);
  }

  /** A line with no CR or LF in its body, then CRLF, is read back as the body. */
  lemma LineAt(s: Bytes, at: nat, body: Bytes)
    requires NoLineBreak(body)
    requires Placed(s, at, body) && CrlfAt(s, at + |body|)
    ensures ReadLine(s, at) == Some(Got(body, |body| + 2))
  {
    var j := FindLineBreak(s, at);
    assert forall k :: at <= k < at + |body| ==> s[k] == body[k - at];
    assert j == at + |body|;
    PlacedSlice(s, at, body);
  }

  /**
    A line whose body holds a lone CR or LF but no CRLF is cut short at that
    byte, where no CRLF starts, so it does not read.
  */
  lemma BrokenLineAt(s: Bytes, at: nat, body: Bytes)
    requires NoCrlf(body) && !NoLineBreak(body)
    requires Placed(s, at, body) && CrlfAt(s, at + |body|)
    ensures ReadLine(s, at) == None
  {
    var i :| 0 <= i < |body| && (body[i] == CR || body[i] == LF);
    assert s[at + i] == body[i];
    var j := FindLineBreak(s, at);
    assert j <= at + i;
    assert s[j] == body[j - at];
    if body[j - at] == CR {
      if j - at + 1 < |body| {
        assert !IsCrlfAt(body, j - at);
        assert s[j + 1] == body[j - at + 1];
      } else {
        assert s[j + 1] == CR;
      }
    }
  }

  // ---------------------------------------------------------------------
  // Placing encodings inside a buffer


  /** The first CRLF from `from` is at `e` when one starts at `e` and none before it. */
  lemma FirstCrlfAt(s: Bytes, from: nat, e: nat)
    requires from <= e && IsCrlfAt(s, e)
    requires forall j :: from <= j < e ==> !IsCrlfAt(s, j)
    ensures FindCrlf(s, from) == Some(e)
  {
    FindCrlfSpec(s, from);
  }

  /** A placed line frame is followed by no earlier CRLF than its own. */
  lemma LineCrlfAt(buf: Bytes, at: nat, p: byte, body: Bytes)
    requires NoCrlf(body) && Placed(buf, at, Line(p, body))
    ensures FindCrlf(buf, at + 1) == Some(at + 1 + |body|)
    ensures Placed(buf, at + 1, body) && CrlfAt(buf, at + 1 + |body|)
  {
    var line := Line(p, body);
    assert line == [p] + (body + CRLF);
    PlacedSplit(buf, at, [p], body + CRLF);
    PlacedSplit(buf, at + 1, body, CRLF);
    var e := at + 1 + |body|;
    PlacedByte(buf, e, CRLF, 0);
    PlacedByte(buf, e, CRLF, 1);
    forall j | at + 1 <= j < e ensures !IsCrlfAt(buf, j) {
      PlacedByte(buf, at + 1, body, j - at - 1);
      if j + 1 < e {
        PlacedByte(buf, at + 1, body, j - at);
        assert !IsCrlfAt(body, j - at - 1);
      }
    }
    FirstCrlfAt(buf, at + 1, e);
  }

  // ---------------------------------------------------------------------
  // Phase one on encoded frames

  /**
    The frames phase one walks: line bodies hold no CRLF, lengths and counts
    fit in an `i64`, and map keys hold no CR or LF (phase one reads a key up
    to its first line-break byte).
  */
  predicate Walkable(f: Frame)
    decreases f
  {
    match f
    case SimpleString(s) => NoCrlf(s)
    case Error(s) => NoCrlf(s)
    case Integer(_) => true
    case BulkString(data) => |data| <= I64_MAX
    case Array(items) => |items| <= I64_MAX && forall i :: 0 <= i < |items| ==> Walkable(items[i])
    case Null => true
    case Boolean(_) => true
    case Double(literal) => NoCrlf(literal)
    case Map(entries) =>
      |entries| <= I64_MAX &&
      forall i :: 0 <= i < |entries| ==> NoLineBreak(entries[i].key) && Walkable(entries[i].value)
    case Set(items) => |items| <= I64_MAX && forall i :: 0 <= i < |items| ==> Walkable(items[i])
  }

  lemma AdvanceItemsCons(buf: Bytes, at: nat, n: nat, a: nat, m: nat)
    requires at <= |buf| && n > 0 && AdvanceElement(buf, at) == Some(a)
    requires AdvanceItems(buf, at + a, n - 1) == Some(m)
    ensures AdvanceItems(buf, at, n) == Some(a + m)
  {}

  lemma AdvanceEntriesCons(buf: Bytes, at: nat, n: nat, a: nat, m: nat)
    requires at <= |buf| && n > 0 && AdvancePair(buf, at) == Some(a)
    requires AdvanceEntries(buf, at + a, n - 1) == Some(m)
    ensures AdvanceEntries(buf, at, n) == Some(a + m)
  {}

  lemma AdvancePairOf(buf: Bytes, at: nat, key: Got<Bytes>, a: nat)
    requires at <= |buf| && ReadLine(buf, at) == Some(key)
    requires AdvanceElement(buf, at + key.used) == Some(a)
    ensures AdvancePair(buf, at) == Some(key.used + a)
  {}

  /** Phase one walks `n` placed encoded frames in a row exactly. */
  lemma {:induction false} ItemsWalk(items: seq<Frame>, buf: Bytes, at: nat)
    requires forall i :: 0 <= i < |items| ==> Walkable(items[i])
    requires Placed(buf, at, EncodeItems(items))
    ensures AdvanceItems(buf, at, |items|) == Some(|EncodeItems(items)|)
    decreases items, 0
  {
    if |items| > 0 {
      var head := Encode(items[0]);
      var tail := EncodeItems(items[1..]);
      PlacedSplit(buf, at, head, tail);
      FrameWalk(items[0], buf, at);
      ItemsWalk(items[1..], buf, at + |head|);
      AdvanceItemsCons(buf, at, |items|, |head|, |tail|);
    }
  }

  /** A placed simple-string key reads back, prefix byte included, as one line. */
  lemma KeyLineAt(key: Bytes, buf: Bytes, at: nat)
    requires NoLineBreak(key) && Placed(buf, at, EncodeSimpleString(key))
    ensures ReadLine(buf, at) == Some(Got([SIMPLE_STRING_PREFIX] + key, |key| + 3))
  {
    var line := [SIMPLE_STRING_PREFIX] + key;
    assert EncodeSimpleString(key) == line + CRLF;
    PlacedSplit(buf, at, line, CRLF);
    PlacedByte(buf, at + |line|, CRLF, 0);
    PlacedByte(buf, at + |line|, CRLF, 1);
    assert NoLineBreak(line) by {
      forall i | 0 <= i < |line| ensures line[i] != CR && line[i] != LF {
        if i > 0 {
          assert line[i] == key[i - 1];
        }
      }
    }
    LineAt(buf, at, line);
  }

  /** Phase one walks one placed encoded key/value pair exactly. */
  lemma {:induction false} PairWalk(e: Entry, buf: Bytes, at: nat)
    requires NoLineBreak(e.key) && Walkable(e.value)
    requires Placed(buf, at, EncodeSimpleString(e.key) + Encode(e.value))
    ensures AdvancePair(buf, at) == Some(|EncodeSimpleString(e.key)| + |Encode(e.value)|)
    decreases e, 0
  {
    var key := EncodeSimpleString(e.key);
    PlacedSplit(buf, at, key, Encode(e.value));
    KeyLineAt(e.key, buf, at);
    FrameWalk(e.value, buf, at + |key|);
    AdvancePairOf(buf, at, Got([SIMPLE_STRING_PREFIX] + e.key, |key|), |Encode(e.value)|);
  }

  /** Phase one walks `n` placed encoded key/value pairs in a row exactly. */
  lemma {:induction false} EntriesWalk(entries: seq<Entry>, buf: Bytes, at: nat)
    requires forall i :: 0 <= i < |entries| ==> NoLineBreak(entries[i].key) && Walkable(entries[i].value)
    requires Placed(buf, at, EncodeEntries(entries))
    ensures AdvanceEntries(buf, at, |entries|) == Some(|EncodeEntries(entries)|)
    decreases entries, 0
  {
    if |entries| > 0 {
      var e := entries[0];
      var pair := EncodeSimpleString(e.key) + Encode(e.value);
      var tail := EncodeEntries(entries[1..]);
      assert EncodeEntries(entries) == pair + tail;
      PlacedSplit(buf, at, pair, tail);
      PairWalk(e, buf, at);
      EntriesWalk(entries[1..], buf, at + |pair|);
      AdvanceEntriesCons(buf, at, |entries|, |pair|, |tail|);
    }
  }

  lemma AdvanceLineOf(buf: Bytes, at: nat)
    requires at < |buf|
    requires buf[at] in {SIMPLE_STRING_PREFIX, ERROR_PREFIX, INTEGER_PREFIX, NULL_PREFIX, BOOL_PREFIX, DOUBLE_PREFIX}
    ensures Advance(buf, at) == SimpleAdvance(buf, at)
  {}

  lemma AdvanceBulkOf(buf: Bytes, at: nat)
    requires at < |buf| && buf[at] == BULK_PREFIX
    ensures Advance(buf, at) == BulkAdvance(buf, at)
  {}

  lemma AdvanceCountedOf(buf: Bytes, at: nat)
    requires at < |buf| && (buf[at] == ARRAY_PREFIX || buf[at] == SET_PREFIX)
    ensures Advance(buf, at) == CountedAdvance(buf, at)
  {}

  lemma AdvanceMapOf(buf: Bytes, at: nat)
    requires at < |buf| && buf[at] == MAP_PREFIX
    ensures Advance(buf, at) == MapAdvance(buf, at)
  {}

  /** A count of zero or below spans its header alone. */
  lemma CountedHeaderOnly(buf: Bytes, at: nat, g: Got<int>)
    requires at < |buf| && ReadInteger(buf, at + 1) == Some(g) && g.value <= 0
    ensures CountedAdvance(buf, at) == Some(g.used + 1)
    ensures MapAdvance(buf, at) == Some(g.used + 1)
  {}

  /** A positive count followed by that many walked frames. */
  lemma CountedSpan(buf: Bytes, at: nat, g: Got<int>, m: nat)
    requires at < |buf| && ReadInteger(buf, at + 1) == Some(g) && g.value > 0
    requires AdvanceItems(buf, at + 1 + g.used, g.value) == Some(m)
    ensures CountedAdvance(buf, at) == Some(1 + g.used + m)
  {}

  /** A positive count followed by that many walked pairs. */
  lemma MapSpan(buf: Bytes, at: nat, g: Got<int>, m: nat)
    requires at < |buf| && ReadInteger(buf, at + 1) == Some(g) && g.value > 0
    requires AdvanceEntries(buf, at + 1 + g.used, g.value) == Some(m)
    ensures MapAdvance(buf, at) == Some(1 + g.used + m)
  {}

  /** A line frame spans through its own CRLF. */
  lemma LineWalk(p: byte, body: Bytes, buf: Bytes, at: nat)
    requires p in {SIMPLE_STRING_PREFIX, ERROR_PREFIX, INTEGER_PREFIX, DOUBLE_PREFIX}
    requires NoCrlf(body) && Placed(buf, at, Line(p, body))
    ensures Advance(buf, at) == Some(|Line(p, body)|)
  {
    LineCrlfAt(buf, at, p, body);
    PlacedByte(buf, at, Line(p, body), 0);
    AdvanceLineOf(buf, at);
  }

  /** The null forms `$-1` and `*-1` read their count as -1 from four bytes. */
  lemma NullFormRead(buf: Bytes, at: nat, form: Bytes)
    requires form == NULL_BULK_STRING || form == NULL_ARRAY
    requires Placed(buf, at, form)
    ensures ReadInteger(buf, at + 1).Some?
    ensures ReadInteger(buf, at + 1).value.value == -1 && ReadInteger(buf, at + 1).value.used == 4
    ensures buf[at] == form[0]
  {
    MinusOneAt(buf, at, form);
  }

  /** A five-byte header `?-1\r\n`, whatever its type byte. */
  lemma MinusOneAt(buf: Bytes, at: nat, form: Bytes)
    requires |form| == 5 && form[1] == MINUS && form[2] == 49 && form[3] == CR && form[4] == LF
    requires Placed(buf, at, form)
    ensures ReadInteger(buf, at + 1).Some?
    ensures ReadInteger(buf, at + 1).value.value == -1 && ReadInteger(buf, at + 1).value.used == 4
    ensures buf[at] == form[0]
  {
    PlacedByte(buf, at, form, 0);
    PlacedByte(buf, at, form, 1);
    assert Decimal(1) == [49];
    assert form[2..3] == Decimal(1) && form[3..5] == CRLF;
    PlacedSplit(buf, at, form[..2], form[2..3] + form[3..]);
    PlacedSplit(buf, at + 2, form[2..3], form[3..]);
    assert form[..2] + (form[2..3] + form[3..]) == form;
    PlacedByte(buf, at + 3, form[3..], 0);
    PlacedByte(buf, at + 3, form[3..], 1);
    DecimalAt(buf, at + 2, 1);
  }

  /** A count header placed in a buffer reads back as its count. */
  lemma CountHeader(buf: Bytes, at: nat, prefix: byte, n: nat, body: Bytes)
    requires n <= I64_MAX
    requires Placed(buf, at, Line(prefix, Decimal(n)) + body)
    ensures ReadInteger(buf, at + 1) == Some(Got(n, |Decimal(n)| + 2))
    ensures buf[at] == prefix && Placed(buf, at + |Decimal(n)| + 3, body)
  {
    UnsignedCountHeader(buf, at, prefix, n, body);
  }

  /** The same header read as an unsigned count, as phase two reads it. */
  lemma UnsignedCountHeader(buf: Bytes, at: nat, prefix: byte, n: nat, body: Bytes)
    requires n <= I64_MAX
    requires Placed(buf, at, Line(prefix, Decimal(n)) + body)
    ensures ReadDecimal(buf, at + 1) == Some(Got(n, |Decimal(n)| + 2))
    ensures ReadInteger(buf, at + 1) == Some(Got(n, |Decimal(n)| + 2))
    ensures buf[at] == prefix && Placed(buf, at + |Decimal(n)| + 3, body)
  {
    var d := Decimal(n);
    PlacedSplit(buf, at, Line(prefix, d), body);
    LineCrlfAt(buf, at, prefix, d);
    PlacedByte(buf, at, Line(prefix, d), 0);
    DecimalAt(buf, at + 1, n);
  }

  lemma BulkWalk(data: Bytes, buf: Bytes, at: nat)
    requires |data| <= I64_MAX && Placed(buf, at, EncodeBulkString(data))
    ensures Advance(buf, at) == Some(|EncodeBulkString(data)|)
  {
    PlacedByte(buf, at, EncodeBulkString(data), 0);
    AdvanceBulkOf(buf, at);
    if |data| == 0 {
      NullFormRead(buf, at, NULL_BULK_STRING);
    } else {
      SizedBulkWalk(data, buf, at);
    }
  }

  lemma SizedBulkWalk(data: Bytes, buf: Bytes, at: nat)
    requires 0 < |data| <= I64_MAX && Placed(buf, at, EncodeBulkString(data))
    ensures BulkAdvance(buf, at) == Some(|EncodeBulkString(data)|)
  {
    var d := Decimal(|data|);
    assert EncodeBulkString(data) == Line(BULK_PREFIX, d) + (data + CRLF);
    CountHeader(buf, at, BULK_PREFIX, |data|, data + CRLF);
    var start := at + |d| + 3;
    PlacedSplit(buf, start, data, CRLF);
    PlacedByte(buf, start + |data|, CRLF, 0);
    PlacedByte(buf, start + |data|, CRLF, 1);
    assert |EncodeBulkString(data)| == 1 + (|d| + 2) + |data| + 2;
    SizedBulkSpan(buf, at, Got(|data| as int, |d| + 2));
  }

  /** A positive bulk length followed, after that many bytes, by CRLF. */
  lemma SizedBulkSpan(buf: Bytes, at: nat, g: Got<int>)
    requires at < |buf| && ReadInteger(buf, at + 1) == Some(g) && g.value > 0
    requires at + 1 + g.used + g.value + 2 <= |buf| && CrlfAt(buf, at + 1 + g.used + g.value)
    ensures BulkAdvance(buf, at) == Some(1 + g.used + g.value + 2)
  {
  }

  /** An array or set header with a count of zero or more, then its elements. */
  lemma CountedFromHeader(buf: Bytes, at: nat, g: Got<int>, m: nat)
    requires at < |buf| && (buf[at] == ARRAY_PREFIX || buf[at] == SET_PREFIX)
    requires ReadInteger(buf, at + 1) == Some(g) && 0 <= g.value
    requires g.value == 0 ==> m == 0
    requires g.value > 0 ==> AdvanceItems(buf, at + 1 + g.used, g.value) == Some(m)
    ensures Advance(buf, at) == Some(1 + g.used + m)
  {
    AdvanceCountedOf(buf, at);
    if g.value > 0 {
      CountedSpan(buf, at, g, m);
    } else {
      CountedHeaderOnly(buf, at, g);
    }
  }

  /** A map header with a count of zero or more, then its pairs. */
  lemma MapFromHeader(buf: Bytes, at: nat, g: Got<int>, m: nat)
    requires at < |buf| && buf[at] == MAP_PREFIX
    requires ReadInteger(buf, at + 1) == Some(g) && 0 <= g.value
    requires g.value == 0 ==> m == 0
    requires g.value > 0 ==> AdvanceEntries(buf, at + 1 + g.used, g.value) == Some(m)
    ensures Advance(buf, at) == Some(1 + g.used + m)
  {
    AdvanceMapOf(buf, at);
    if g.value > 0 {
      MapSpan(buf, at, g, m);
    } else {
      CountedHeaderOnly(buf, at, g);
    }
  }

  lemma CountedWalk(prefix: byte, items: seq<Frame>, buf: Bytes, at: nat)
    requires prefix == ARRAY_PREFIX || prefix == SET_PREFIX
    requires |items| <= I64_MAX
    requires forall i :: 0 <= i < |items| ==> Walkable(items[i])
    requires Placed(buf, at, Line(prefix, Decimal(|items|)) + EncodeItems(items))
    ensures Advance(buf, at) == Some(|Line(prefix, Decimal(|items|)) + EncodeItems(items)|)
    decreases items, 1
  {
    var d := Decimal(|items|);
    CountHeader(buf, at, prefix, |items|, EncodeItems(items));
    if |items| > 0 {
      ItemsWalk(items, buf, at + |d| + 3);
    }
    CountedFromHeader(buf, at, Got(|items|, |d| + 2), |EncodeItems(items)|);
  }

  lemma ArrayWalk(items: seq<Frame>, buf: Bytes, at: nat)
    requires |items| <= I64_MAX
    requires forall i :: 0 <= i < |items| ==> Walkable(items[i])
    requires Placed(buf, at, EncodeArray(items))
    ensures Advance(buf, at) == Some(|EncodeArray(items)|)
    decreases items, 2
  {
    if |items| == 0 {
      NullFormRead(buf, at, NULL_ARRAY);
      AdvanceCountedOf(buf, at);
      CountedHeaderOnly(buf, at, ReadInteger(buf, at + 1).value);
    } else {
      CountedWalk(ARRAY_PREFIX, items, buf, at);
    }
  }

  lemma MapWalk(entries: seq<Entry>, buf: Bytes, at: nat)
    requires |entries| <= I64_MAX
    requires forall i :: 0 <= i < |entries| ==> NoLineBreak(entries[i].key) && Walkable(entries[i].value)
    requires Placed(buf, at, EncodeMap(entries))
    ensures Advance(buf, at) == Some(|EncodeMap(entries)|)
    decreases entries, 1
  {
    var d := Decimal(|entries|);
    var body := EncodeEntries(entries);
    var g := Got(|entries| as int, |d| + 2);
    assert EncodeMap(entries) == Line(MAP_PREFIX, d) + body;
    CountHeader(buf, at, MAP_PREFIX, |entries|, body);
    if |entries| > 0 {
      assert AdvanceEntries(buf, at + 1 + g.used, |entries|) == Some(|body|) by {
        EntriesWalk(entries, buf, at + |d| + 3);
      }
    } else {
      assert |body| == 0;
    }
    MapFromHeader(buf, at, g, |body|);
    assert |EncodeMap(entries)| == 1 + g.used + |body|;
  }

  /** The fixed-size frames `_\r\n`, `#t\r\n` and `#f\r\n` span their own bytes. */
  lemma FixedWalk(f: Frame, buf: Bytes, at: nat)
    requires (f.Null? || f.Boolean?) && Placed(buf, at, Encode(f))
    ensures Advance(buf, at) == Some(|Encode(f)|)
  {
    var e := Encode(f);
    var k := |e| - 2;
    PlacedByte(buf, at, e, 0);
    PlacedByte(buf, at, e, k);
    PlacedByte(buf, at, e, k + 1);
    if f.Boolean? {
      PlacedByte(buf, at, e, 1);
    }
    FirstCrlfAt(buf, at + 1, at + k);
    AdvanceLineOf(buf, at);
  }

  /**
    Phase one measures the encoding of every walkable frame exactly,
    wherever it sits and whatever bytes follow it.
  */
  lemma {:induction false} FrameWalk(f: Frame, buf: Bytes, at: nat)
    requires Walkable(f) && Placed(buf, at, Encode(f))
    ensures Advance(buf, at) == Some(|Encode(f)|)
    decreases f, 3
  {
    match f
    case SimpleString(s) => LineWalk(SIMPLE_STRING_PREFIX, s, buf, at);
    case Error(s) => LineWalk(ERROR_PREFIX, s, buf, at);
    case Integer(n) =>
      NoLineBreakNoCrlf(FormatInt(n));
      LineWalk(INTEGER_PREFIX, FormatInt(n), buf, at);
    case Double(s) => LineWalk(DOUBLE_PREFIX, s, buf, at);
    case BulkString(data) => BulkWalk(data, buf, at);
    case Array(items) => ArrayWalk(items, buf, at);
    case Set(items) =>
      assert Encode(f) == EncodeSet(items);
      CountedWalk(SET_PREFIX, items, buf, at);
    case Map(entries) => MapWalk(entries, buf, at);
    case Null => FixedWalk(f, buf, at);
    case Boolean(_) => FixedWalk(f, buf, at);
  }

  /**
    On the encoding of every frame both decoders can read, the batch
    decoder's length probe and the incremental one announce the same length:
    the length of the encoding.
  */
  lemma FrameLengthsAgree(f: Frame, rest: Bytes)
    requires WellFormed(f) && Walkable(f)
    ensures ParseFrameLength(Encode(f) + rest) == Ok(|Encode(f)|)
    ensures ParseFrameLength(Encode(f) + rest) == ExpectLength(Encode(f) + rest)
  {
    var buf := Encode(f) + rest;
    assert buf[..|Encode(f)|] == Encode(f);
    FrameWalk(f, buf, 0);
    FrameRoundTrip(f, rest);
  }
}
