/**
  Properties of the incremental codec: the length probes agree with the
  decoders, an incomplete buffer is never consumed, and decoding inverts
  encoding for every frame the encoder can write unambiguously.
*/
module RespProps {
  import opened Bytes
  import opened Numeric
  import opened Frames
  import opened RespEncode
  import opened RespDecode

  // ---------------------------------------------------------------------
  // Probes agree with decoders

  /**
    `RespFrame::expect_length` and `RespFrame::decode` agree: a successful
    decode removes exactly the probed number of bytes, a probe that fits in
    the buffer means the decode is not short of data, and a decode that is
    short of data leaves the buffer untouched.
  */
  lemma DecodeMatchesProbe(buf: Bytes)
    ensures DecodeFrame(buf).Parsed? ==> ExpectLength(buf) == Ok(DecodeFrame(buf).used)
    ensures ExpectLength(buf).Ok? && ExpectLength(buf).value <= |buf| ==> !DecodeFrame(buf).Incomplete()
    ensures DecodeFrame(buf).Incomplete() ==> DecodeFrame(buf).used == 0
  {
    FrameParsedProbe(buf);
    FrameNotShort(buf);
    FrameShortConsumesNothing(buf);
  }

  /**
    A probe that shows the buffer is short of data: it either asks for more
    bytes outright or announces a frame longer than the buffer.
  */
  predicate Short(r: Result<nat>, size: nat) {
    r == Err(NotComplete) || (r.Ok? && size < r.value)
  }

  /**
    The decoder reports "not complete" exactly when the probe shows the
    buffer is short of data, and then it removes nothing; a probe error is
    the decoder's error.
  */
  lemma DecodeIncompleteIffShort(buf: Bytes)
    ensures DecodeFrame(buf).Incomplete() <==> Short(ExpectLength(buf), |buf|)
    ensures Short(ExpectLength(buf), |buf|) ==> DecodeFrame(buf) == Failed(NotComplete, 0)
    ensures ExpectLength(buf).Err? ==> DecodeFrame(buf) == Failed(ExpectLength(buf).error, 0)
  {
    FrameNotShort(buf);
    ProbeErrorIsDecodeError(buf);
    ShortProbeIncomplete(buf);
  }

  /** A probe error is reported by the decoder as well, before it removes anything. */
  lemma ProbeErrorIsDecodeError(buf: Bytes)
    ensures ExpectLength(buf).Err? ==> DecodeFrame(buf) == Failed(ExpectLength(buf).error, 0)
  {
    if |buf| > 0 && ExpectLength(buf).Err? {
      var p := buf[0];
      if p == ARRAY_PREFIX {
        assert !StartsWith(buf, NULL_ARRAY);
        assert ExpectLength(buf) == ExpectCounted(buf, ARRAY_PREFIX, Items);
      } else if p == BULK_PREFIX {
        assert !StartsWith(buf, NULL_BULK_STRING);
      }
    }
  }

  /** A probe announcing more bytes than the buffer holds means a decode short of data. */
  lemma ShortProbeIncomplete(buf: Bytes)
    ensures Short(ExpectLength(buf), |buf|) ==> DecodeFrame(buf) == Failed(NotComplete, 0)
  {
    if ExpectLength(buf).Err? {
      ProbeErrorIsDecodeError(buf);
    } else if |buf| > 0 && Short(ExpectLength(buf), |buf|) {
      LongProbeIncomplete(buf);
    }
  }

  /** Only the fixed-length frames and bulk strings can announce more than the buffer holds. */
  lemma LongProbeIncomplete(buf: Bytes)
    requires ExpectLength(buf).Ok? && |buf| < ExpectLength(buf).value
    ensures DecodeFrame(buf) == Failed(NotComplete, 0)
  {
    var p := buf[0];
    if p == BULK_PREFIX {
      assert !StartsWith(buf, NULL_BULK_STRING);
    }
  }

  // Single unfolding steps of the element loops and the aggregate headers,
  // stated on named parts so that the inductive proofs below never unfold a
  // loop themselves.

  lemma ItemsCons(buf: Bytes, n: nat, x: Frame, u: nat, xs: seq<Frame>, w: nat)
    requires n > 0 && DecodeElement(buf) == Parsed(x, u)
    requires DecodeItems(buf[u..], n - 1) == Parsed(xs, w)
    ensures DecodeItems(buf, n) == Parsed([x] + xs, u + w)
  {}

  lemma ItemsTailFails(buf: Bytes, n: nat, x: Frame, u: nat, e: RespError, w: nat)
    requires n > 0 && DecodeElement(buf) == Parsed(x, u)
    requires DecodeItems(buf[u..], n - 1) == Failed(e, w)
    ensures DecodeItems(buf, n) == Failed(e, u + w)
  {}

  lemma ItemsHeadFails(buf: Bytes, n: nat, e: RespError, u: nat)
    requires n > 0 && DecodeElement(buf) == Failed(e, u)
    ensures DecodeItems(buf, n) == Failed(e, u)
  {}

  lemma ProbeItemsCons(buf: Bytes, n: nat, k: nat, m: nat)
    requires n > 0 && ExpectElement(buf) == Ok(k) && k <= |buf|
    requires ProbeItems(buf[k..], n - 1) == Ok(m)
    ensures ProbeItems(buf, n) == Ok(k + m)
  {}

  lemma ProbeItemsOk(buf: Bytes, n: nat)
    requires n > 0 && ProbeItems(buf, n).Ok?
    ensures ExpectElement(buf).Ok? && ExpectElement(buf).value <= |buf|
    ensures ProbeItems(buf[ExpectElement(buf).value..], n - 1) == Ok(ProbeItems(buf, n).value - ExpectElement(buf).value)
  {}

  lemma EntriesCons(buf: Bytes, n: nat, x: Entry, u: nat, xs: seq<Entry>, w: nat)
    requires n > 0 && DecodePair(buf) == Parsed(x, u)
    requires DecodeEntries(buf[u..], n - 1) == Parsed(xs, w)
    ensures DecodeEntries(buf, n) == Parsed([x] + xs, u + w)
  {}

  lemma EntriesTailFails(buf: Bytes, n: nat, x: Entry, u: nat, e: RespError, w: nat)
    requires n > 0 && DecodePair(buf) == Parsed(x, u)
    requires DecodeEntries(buf[u..], n - 1) == Failed(e, w)
    ensures DecodeEntries(buf, n) == Failed(e, u + w)
  {}

  lemma EntriesHeadFails(buf: Bytes, n: nat, e: RespError, u: nat)
    requires n > 0 && DecodePair(buf) == Failed(e, u)
    ensures DecodeEntries(buf, n) == Failed(e, u)
  {}

  lemma ProbeEntriesCons(buf: Bytes, n: nat, k: nat, m: nat)
    requires n > 0 && ProbePair(buf) == Ok(k) && k <= |buf|
    requires ProbeEntries(buf[k..], n - 1) == Ok(m)
    ensures ProbeEntries(buf, n) == Ok(k + m)
  {}

  lemma ProbeEntriesOk(buf: Bytes, n: nat)
    requires n > 0 && ProbeEntries(buf, n).Ok?
    ensures ProbePair(buf).Ok? && ProbePair(buf).value <= |buf|
    ensures ProbeEntries(buf[ProbePair(buf).value..], n - 1) == Ok(ProbeEntries(buf, n).value - ProbePair(buf).value)
  {}

  lemma CountedDecodeStep(buf: Bytes, prefix: byte, h: Header)
    requires CompleteAggregate(buf, prefix, Items) == Ok(h)
    ensures h.end + 2 <= |buf|
    ensures DecodeCounted(buf, prefix) == DecodeItems(buf[h.end + 2..], h.len).After(h.end + 2)
  {}

  lemma CountedProbeStep(buf: Bytes, prefix: byte, h: Header, m: nat)
    requires ParseLength(buf, prefix) == Ok(h) && h.end + 2 <= |buf|
    requires ProbeItems(buf[h.end + 2..], h.len) == Ok(m)
    ensures ExpectCounted(buf, prefix, Items) == Ok(h.end + 2 + m)
  {}

  lemma CountedProbeOk(buf: Bytes, prefix: byte, h: Header)
    requires ParseLength(buf, prefix) == Ok(h) && h.end + 2 <= |buf|
    requires ExpectCounted(buf, prefix, Items).Ok?
    ensures ProbeItems(buf[h.end + 2..], h.len).Ok?
  {}

  lemma PairsDecodeStep(buf: Bytes, prefix: byte, h: Header)
    requires CompleteAggregate(buf, prefix, Entries) == Ok(h)
    ensures h.end + 2 <= |buf|
    ensures DecodePairs(buf, prefix) == DecodeEntries(buf[h.end + 2..], h.len).After(h.end + 2)
  {}

  lemma PairsProbeStep(buf: Bytes, prefix: byte, h: Header, m: nat)
    requires ParseLength(buf, prefix) == Ok(h) && h.end + 2 <= |buf|
    requires ProbeEntries(buf[h.end + 2..], h.len) == Ok(m)
    ensures ExpectCounted(buf, prefix, Entries) == Ok(h.end + 2 + m)
  {}

  lemma PairsProbeOk(buf: Bytes, prefix: byte, h: Header)
    requires ParseLength(buf, prefix) == Ok(h) && h.end + 2 <= |buf|
    requires ExpectCounted(buf, prefix, Entries).Ok?
    ensures ProbeEntries(buf[h.end + 2..], h.len).Ok?
  {}

  // A successful decode consumes exactly the probed length.

  lemma {:induction false} FrameParsedProbe(buf: Bytes)
    ensures DecodeFrame(buf).Parsed? ==> ExpectLength(buf) == Ok(DecodeFrame(buf).used)
    decreases |buf|, 4
  {
    if |buf| > 0 {
      var p := buf[0];
      if p == ARRAY_PREFIX {
        if !StartsWith(buf, NULL_ARRAY) {
          CountedParsedProbe(buf, ARRAY_PREFIX);
        }
      } else if p == SET_PREFIX {
        CountedParsedProbe(buf, SET_PREFIX);
      } else if p == MAP_PREFIX {
        PairsParsedProbe(buf, MAP_PREFIX);
      }
    }
  }

  lemma {:induction false} CountedParsedProbe(buf: Bytes, prefix: byte)
    ensures DecodeCounted(buf, prefix).Parsed? ==>
      ExpectCounted(buf, prefix, Items) == Ok(DecodeCounted(buf, prefix).used)
    decreases |buf|, 2
  {
    var c := CompleteAggregate(buf, prefix, Items);
    if c.Ok? {
      var h := c.value;
      CountedDecodeStep(buf, prefix, h);
      var body := buf[h.end + 2..];
      ItemsParsedProbe(body, h.len);
      var d := DecodeItems(body, h.len);
      if d.Parsed? {
        CountedProbeStep(buf, prefix, h, d.used);
      }
    }
  }

  lemma {:induction false} PairsParsedProbe(buf: Bytes, prefix: byte)
    ensures DecodePairs(buf, prefix).Parsed? ==>
      ExpectCounted(buf, prefix, Entries) == Ok(DecodePairs(buf, prefix).used)
    decreases |buf|, 2
  {
    var c := CompleteAggregate(buf, prefix, Entries);
    if c.Ok? {
      var h := c.value;
      EntriesParsedProbe(buf[h.end + 2..], h.len);
      PairsParsedStep(buf, prefix, h);
    }
  }

  lemma PairsParsedStep(buf: Bytes, prefix: byte, h: Header)
    requires CompleteAggregate(buf, prefix, Entries) == Ok(h)
    requires h.end + 2 <= |buf|
    requires var body := buf[h.end + 2..];
      DecodeEntries(body, h.len).Parsed? ==> ProbeEntries(body, h.len) == Ok(DecodeEntries(body, h.len).used)
    ensures DecodePairs(buf, prefix).Parsed? ==>
      ExpectCounted(buf, prefix, Entries) == Ok(DecodePairs(buf, prefix).used)
  {
    PairsDecodeStep(buf, prefix, h);
    var d := DecodeEntries(buf[h.end + 2..], h.len);
    if d.Parsed? {
      PairsProbeStep(buf, prefix, h, d.used);
    }
  }

  lemma {:induction false} ElementParsedProbe(buf: Bytes)
    ensures DecodeElement(buf).Parsed? ==> ExpectElement(buf) == Ok(DecodeElement(buf).used)
    decreases |buf|, 5
  {
    FrameParsedProbe(buf);
  }

  lemma {:induction false} PairParsedProbe(buf: Bytes)
    ensures DecodePair(buf).Parsed? ==> ProbePair(buf) == Ok(DecodePair(buf).used)
    decreases |buf|, 1
  {
    if DecodePair(buf).Parsed? {
      PairParsedParts(buf);
      var k := DecodeSimpleString(buf).used;
      ElementParsedProbe(buf[k..]);
      ProbePairOf(buf, k, DecodeElement(buf[k..]).used);
    }
  }

  /** A decoded pair is a decoded key line followed by a decoded element. */
  lemma PairParsedParts(buf: Bytes)
    requires DecodePair(buf).Parsed?
    ensures DecodeSimpleString(buf).Parsed?
    ensures ExpectSimpleString(buf) == Ok(DecodeSimpleString(buf).used)
    ensures var k := DecodeSimpleString(buf).used;
      DecodeElement(buf[k..]).Parsed? && DecodePair(buf).used == k + DecodeElement(buf[k..]).used
  {}

  lemma ProbePairOf(buf: Bytes, k: nat, v: nat)
    requires ExpectSimpleString(buf) == Ok(k) && ExpectElement(buf[k..]) == Ok(v)
    ensures ProbePair(buf) == Ok(k + v)
  {}

  lemma {:induction false} ItemsParsedProbe(buf: Bytes, n: nat)
    ensures DecodeItems(buf, n).Parsed? ==> ProbeItems(buf, n) == Ok(DecodeItems(buf, n).used)
    decreases |buf|, 6, n
  {
    if n > 0 {
      ElementParsedProbe(buf);
      ItemsParsedProbe(buf[DecodeElement(buf).used..], n - 1);
      ItemsParsedStep(buf, n);
    }
  }

  lemma ItemsParsedStep(buf: Bytes, n: nat)
    requires n > 0
    requires DecodeElement(buf).Parsed? ==> ExpectElement(buf) == Ok(DecodeElement(buf).used)
    requires var rest := buf[DecodeElement(buf).used..];
      DecodeItems(rest, n - 1).Parsed? ==> ProbeItems(rest, n - 1) == Ok(DecodeItems(rest, n - 1).used)
    ensures DecodeItems(buf, n).Parsed? ==> ProbeItems(buf, n) == Ok(DecodeItems(buf, n).used)
  {
    var d := DecodeElement(buf);
    if d.Parsed? {
      var r := DecodeItems(buf[d.used..], n - 1);
      if r.Parsed? {
        ItemsCons(buf, n, d.value, d.used, r.value, r.used);
        ProbeItemsCons(buf, n, d.used, r.used);
      } else {
        ItemsTailFails(buf, n, d.value, d.used, r.error, r.used);
      }
    } else {
      ItemsHeadFails(buf, n, d.error, d.used);
    }
  }

  lemma {:induction false} ItemsNotShort(buf: Bytes, n: nat)
    ensures ProbeItems(buf, n).Ok? ==> !DecodeItems(buf, n).Incomplete()
    decreases |buf|, 6, n
  {
    if n > 0 {
      ElementParsedProbe(buf);
      ElementNotShort(buf);
      ItemsNotShort(buf[DecodeElement(buf).used..], n - 1);
      ItemsNotShortStep(buf, n);
    }
  }

  lemma ItemsNotShortStep(buf: Bytes, n: nat)
    requires n > 0
    requires DecodeElement(buf).Parsed? ==> ExpectElement(buf) == Ok(DecodeElement(buf).used)
    requires ExpectElement(buf).Ok? && ExpectElement(buf).value <= |buf| ==> !DecodeElement(buf).Incomplete()
    requires var rest := buf[DecodeElement(buf).used..];
      ProbeItems(rest, n - 1).Ok? ==> !DecodeItems(rest, n - 1).Incomplete()
    ensures ProbeItems(buf, n).Ok? ==> !DecodeItems(buf, n).Incomplete()
  {
    if ProbeItems(buf, n).Ok? {
      ProbeItemsOk(buf, n);
      var d := DecodeElement(buf);
      if d.Parsed? {
        var r := DecodeItems(buf[d.used..], n - 1);
        if r.Parsed? {
          ItemsCons(buf, n, d.value, d.used, r.value, r.used);
        } else {
          ItemsTailFails(buf, n, d.value, d.used, r.error, r.used);
        }
      } else {
        ItemsHeadFails(buf, n, d.error, d.used);
      }
    }
  }

  lemma {:induction false} EntriesParsedProbe(buf: Bytes, n: nat)
    ensures DecodeEntries(buf, n).Parsed? ==> ProbeEntries(buf, n) == Ok(DecodeEntries(buf, n).used)
    decreases |buf|, 6, n
  {
    if n > 0 {
      PairParsedProbe(buf);
      EntriesParsedProbe(buf[DecodePair(buf).used..], n - 1);
      EntriesParsedStep(buf, n);
    }
  }

  lemma EntriesParsedStep(buf: Bytes, n: nat)
    requires n > 0
    requires DecodePair(buf).Parsed? ==> ProbePair(buf) == Ok(DecodePair(buf).used)
    requires var rest := buf[DecodePair(buf).used..];
      DecodeEntries(rest, n - 1).Parsed? ==> ProbeEntries(rest, n - 1) == Ok(DecodeEntries(rest, n - 1).used)
    ensures DecodeEntries(buf, n).Parsed? ==> ProbeEntries(buf, n) == Ok(DecodeEntries(buf, n).used)
  {
    var d := DecodePair(buf);
    if d.Parsed? {
      var r := DecodeEntries(buf[d.used..], n - 1);
      if r.Parsed? {
        EntriesBothParsed(buf, n, d.value, d.used, r.value, r.used);
      } else {
        EntriesTailFails(buf, n, d.value, d.used, r.error, r.used);
      }
    } else {
      EntriesHeadFails(buf, n, d.error, d.used);
    }
  }

  lemma EntriesBothParsed(buf: Bytes, n: nat, x: Entry, u: nat, xs: seq<Entry>, w: nat)
    requires n > 0 && DecodePair(buf) == Parsed(x, u) && ProbePair(buf) == Ok(u)
    requires DecodeEntries(buf[u..], n - 1) == Parsed(xs, w) && ProbeEntries(buf[u..], n - 1) == Ok(w)
    ensures DecodeEntries(buf, n) == Parsed([x] + xs, u + w) && ProbeEntries(buf, n) == Ok(u + w)
    ensures DecodeEntries(buf, n).Parsed? ==> ProbeEntries(buf, n) == Ok(DecodeEntries(buf, n).used)
  {
    EntriesCons(buf, n, x, u, xs, w);
    ProbeEntriesCons(buf, n, u, w);
  }

  lemma {:induction false} EntriesNotShort(buf: Bytes, n: nat)
    ensures ProbeEntries(buf, n).Ok? ==> !DecodeEntries(buf, n).Incomplete()
    decreases |buf|, 6, n
  {
    if n > 0 {
      PairParsedProbe(buf);
      PairNotShort(buf);
      EntriesNotShort(buf[DecodePair(buf).used..], n - 1);
      EntriesNotShortStep(buf, n);
    }
  }

  lemma EntriesNotShortStep(buf: Bytes, n: nat)
    requires n > 0
    requires DecodePair(buf).Parsed? ==> ProbePair(buf) == Ok(DecodePair(buf).used)
    requires ProbePair(buf).Ok? && ProbePair(buf).value <= |buf| ==> !DecodePair(buf).Incomplete()
    requires var rest := buf[DecodePair(buf).used..];
      ProbeEntries(rest, n - 1).Ok? ==> !DecodeEntries(rest, n - 1).Incomplete()
    ensures ProbeEntries(buf, n).Ok? ==> !DecodeEntries(buf, n).Incomplete()
  {
    if ProbeEntries(buf, n).Ok? {
      ProbeEntriesOk(buf, n);
      var d := DecodePair(buf);
      if d.Parsed? {
        var r := DecodeEntries(buf[d.used..], n - 1);
        if r.Parsed? {
          EntriesCons(buf, n, d.value, d.used, r.value, r.used);
        } else {
          EntriesTailFails(buf, n, d.value, d.used, r.error, r.used);
        }
      } else {
        EntriesHeadFails(buf, n, d.error, d.used);
      }
    }
  }

  // A probe that fits in the buffer means the decode is not short of data.

  lemma {:induction false} FrameNotShort(buf: Bytes)
    ensures ExpectLength(buf).Ok? && ExpectLength(buf).value <= |buf| ==> !DecodeFrame(buf).Incomplete()
    decreases |buf|, 4
  {
    if |buf| > 0 {
      var p := buf[0];
      if p == ARRAY_PREFIX {
        if !StartsWith(buf, NULL_ARRAY) {
          assert ExpectLength(buf) == ExpectCounted(buf, ARRAY_PREFIX, Items);
          CountedNotShort(buf, ARRAY_PREFIX);
        }
      } else if p == SET_PREFIX {
        CountedNotShort(buf, SET_PREFIX);
      } else if p == MAP_PREFIX {
        PairsNotShort(buf, MAP_PREFIX);
      }
    }
  }

  lemma {:induction false} CountedNotShort(buf: Bytes, prefix: byte)
    ensures ExpectCounted(buf, prefix, Items).Ok? ==> !DecodeCounted(buf, prefix).Incomplete()
    decreases |buf|, 2
  {
    var c := CompleteAggregate(buf, prefix, Items);
    if c.Ok? {
      var h := c.value;
      CountedDecodeStep(buf, prefix, h);
      CountedProbeOk(buf, prefix, h);
      ItemsNotShort(buf[h.end + 2..], h.len);
    }
  }

  lemma {:induction false} PairsNotShort(buf: Bytes, prefix: byte)
    ensures ExpectCounted(buf, prefix, Entries).Ok? ==> !DecodePairs(buf, prefix).Incomplete()
    decreases |buf|, 2
  {
    var c := CompleteAggregate(buf, prefix, Entries);
    if c.Ok? {
      var h := c.value;
      PairsDecodeStep(buf, prefix, h);
      PairsProbeOk(buf, prefix, h);
      EntriesNotShort(buf[h.end + 2..], h.len);
    }
  }

  lemma {:induction false} ElementNotShort(buf: Bytes)
    ensures ExpectElement(buf).Ok? && ExpectElement(buf).value <= |buf| ==> !DecodeElement(buf).Incomplete()
    decreases |buf|, 5
  {
    FrameNotShort(buf);
  }

  lemma {:induction false} PairNotShort(buf: Bytes)
    ensures ProbePair(buf).Ok? && ProbePair(buf).value <= |buf| ==> !DecodePair(buf).Incomplete()
    decreases |buf|, 1
  {
    var k := ExpectSimpleString(buf);
    if k.Ok? {
      ElementNotShort(buf[k.value..]);
    }
  }

  // A decode that is short of data consumes nothing.

  lemma FrameShortConsumesNothing(buf: Bytes)
    ensures DecodeFrame(buf).Incomplete() ==> DecodeFrame(buf).used == 0
  {
    if |buf| > 0 {
      var p := buf[0];
      if p == ARRAY_PREFIX {
        CountedShortConsumesNothing(buf, ARRAY_PREFIX);
      } else if p == SET_PREFIX {
        CountedShortConsumesNothing(buf, SET_PREFIX);
      } else if p == MAP_PREFIX {
        PairsShortConsumesNothing(buf, MAP_PREFIX);
      }
    }
  }

  lemma CountedShortConsumesNothing(buf: Bytes, prefix: byte)
    ensures DecodeCounted(buf, prefix).Incomplete() ==> DecodeCounted(buf, prefix).used == 0
  {
    var c := CompleteAggregate(buf, prefix, Items);
    if c.Ok? {
      CountedDecodeStep(buf, prefix, c.value);
      CountedNotShort(buf, prefix);
    }
  }

  lemma PairsShortConsumesNothing(buf: Bytes, prefix: byte)
    ensures DecodePairs(buf, prefix).Incomplete() ==> DecodePairs(buf, prefix).used == 0
  {
    var c := CompleteAggregate(buf, prefix, Entries);
    if c.Ok? {
      PairsDecodeStep(buf, prefix, c.value);
      PairsNotShort(buf, prefix);
    }
  }
}
