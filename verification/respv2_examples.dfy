/**
  The batch decoder on the worked inputs of its unit tests, each obtained
  from the general lemmas once the input is recognised as an encoding.
  Inputs are written as byte values; the comment beside each gives its text.
*/
module RespV2Examples {
  import opened Bytes
  import opened Numeric
  import opened Frames
  import opened RespEncode
  import opened RespDecode
  import opened RespRoundTrip
  import opened RespV2
  import opened RespV2Props
  import opened RespV2Agreement

  const OK: Bytes := [79, 75]                       // OK
  const ERR: Bytes := [69, 82, 82]                  // ERR
  const FOOBAR: Bytes := [102, 111, 111, 98, 97, 114] // foobar
  const PING: Bytes := [112, 105, 110, 103]         // ping
  const PONG: Bytes := [112, 111, 110, 103]         // pong
  const FIRST: Bytes := [102, 105, 114, 115, 116]   // first
  const SECOND: Bytes := [115, 101, 99, 111, 110, 100] // second

  /** `+OK\r\n` spans 5 bytes and decodes to the simple string "OK". */
  lemma SimpleStringExample()
    ensures ParseFrameLength([43, 79, 75, 13, 10]) == Ok(5)
    ensures DecodeV2([43, 79, 75, 13, 10]) == Parsed(SimpleString(OK), 5)
  {
    var f := SimpleString(OK);
    assert Encode(f) + [] == [43, 79, 75, 13, 10];
    FrameLengthsAgree(f, []);
    BatchRoundTrip(f, []);
  }

  /** Without its LF (`+OK\r`) the same line is not yet complete. */
  lemma TruncatedSimpleString()
    ensures ParseFrameLength([43, 79, 75, 13]) == Err(NotComplete)
    ensures DecodeV2([43, 79, 75, 13]) == Failed(NotComplete, 0)
  {
    assert FindCrlf([43, 79, 75, 13], 1) == None;
  }

  /** `-ERR\r\n` decodes to the error "ERR". */
  lemma SimpleErrorExample()
    ensures DecodeV2([45, 69, 82, 82, 13, 10]) == Parsed(Error(ERR), 6)
  {
    var f := Error(ERR);
    assert Encode(f) + [] == [45, 69, 82, 82, 13, 10];
    BatchRoundTrip(f, []);
  }

  /** `:1000\r\n` decodes to the integer 1000. */
  lemma IntegerExample()
    ensures DecodeV2([58, 49, 48, 48, 48, 13, 10]) == Parsed(Integer(1000), 7)
  {
    var f := Integer(1000);
    assert Encode(f) + [] == [58, 49, 48, 48, 48, 13, 10];
    BatchRoundTrip(f, []);
  }

  /** `$6\r\nfoobar\r\n` decodes to the bulk string "foobar". */
  lemma BulkStringExample()
    ensures DecodeV2([36, 54, 13, 10] + FOOBAR + [13, 10]) == Parsed(BulkString(FOOBAR), 12)
  {
    var f := BulkString(FOOBAR);
    assert Encode(f) + [] == [36, 54, 13, 10] + FOOBAR + [13, 10];
    BatchRoundTrip(f, []);
  }

  /**
    The null bulk string `$-1\r\n` and the null array `*-1\r\n` are measured
    as their 5 bytes, and then the second phase rejects them.
  */
  lemma NullFormsExample()
    ensures ParseFrameLength([36, 45, 49, 13, 10]) == Ok(5)
    ensures ParseFrameLength([42, 45, 49, 13, 10]) == Ok(5)
    ensures DecodeV2([36, 45, 49, 13, 10]) == Failed(InvalidFrame, 5)
    ensures DecodeV2([42, 45, 49, 13, 10]) == Failed(InvalidFrame, 5)
  {
    assert Encode(BulkString([])) + [] == [36, 45, 49, 13, 10];
    assert Encode(Array([])) + [] == [42, 45, 49, 13, 10];
    NullFormsDiverge(BulkString([]), []);
    NullFormsDiverge(Array([]), []);
  }

  /** `*2\r\n+OK\r\n-ERR\r\n` decodes to the array [OK, Error ERR]. */
  lemma ArrayExample()
    ensures DecodeV2([42, 50, 13, 10, 43, 79, 75, 13, 10, 45, 69, 82, 82, 13, 10]) ==
      Parsed(Array([SimpleString(OK), Error(ERR)]), 15)
  {
    var f := Array([SimpleString(OK), Error(ERR)]);
    assert Decimal(2) == [50];
    assert Encode(SimpleString(OK)) == [43, 79, 75, 13, 10];
    assert Encode(Error(ERR)) == [45, 69, 82, 82, 13, 10];
    assert EncodeItems(f.items[1..]) == [45, 69, 82, 82, 13, 10];
    assert EncodeItems(f.items) == [43, 79, 75, 13, 10] + [45, 69, 82, 82, 13, 10];
    assert Encode(f) == [42, 50, 13, 10] + [43, 79, 75, 13, 10] + [45, 69, 82, 82, 13, 10];
    assert Encode(f) == [42, 50, 13, 10, 43, 79, 75, 13, 10, 45, 69, 82, 82, 13, 10];
    assert Encode(f) + [] == Encode(f);
    BatchRoundTrip(f, []);
  }

  /** `%1\r\n+OK\r\n-ERR\r\n` decodes to the map {OK: Error ERR}. */
  lemma MapExample()
    ensures DecodeV2([37, 49, 13, 10, 43, 79, 75, 13, 10, 45, 69, 82, 82, 13, 10]) ==
      Parsed(Map([Entry(OK, Error(ERR))]), 15)
  {
    var f := Map([Entry(OK, Error(ERR))]);
    assert Decimal(1) == [49];
    assert Encode(Error(ERR)) == [45, 69, 82, 82, 13, 10];
    assert EncodeEntries(f.entries[1..]) == [];
    assert EncodeEntries(f.entries) == [43, 79, 75, 13, 10] + [45, 69, 82, 82, 13, 10];
    assert Encode(f) == [37, 49, 13, 10] + [43, 79, 75, 13, 10] + [45, 69, 82, 82, 13, 10];
    assert Encode(f) == [37, 49, 13, 10, 43, 79, 75, 13, 10, 45, 69, 82, 82, 13, 10];
    BatchOn(f, [37, 49, 13, 10, 43, 79, 75, 13, 10, 45, 69, 82, 82, 13, 10]);
  }

  /** The batch decoder on `b`, the encoding of an agreeing frame `f`. */
  lemma BatchOn(f: Frame, b: Bytes)
    requires WellFormed(f) && Agrees(f) && Encode(f) == b
    ensures DecodeV2(b) == Parsed(f, |b|)
  {
    assert Encode(f) + [] == b;
    BatchRoundTrip(f, []);
  }

  // ---------------------------------------------------------------------
  // Measuring with the first phase

  /** `$4\r\nping\r\n`, the encoding of the bulk string "ping". */
  const PING_BYTES: Bytes := [36, 52, 13, 10] + PING + [13, 10]
  /** `$4\r\npong\r\n`, the encoding of the bulk string "pong". */
  const PONG_BYTES: Bytes := [36, 52, 13, 10] + PONG + [13, 10]

  /** The two bulk strings "ping" and "pong", one after the other. */
  lemma PingPong()
    ensures EncodeItems([BulkString(PING), BulkString(PONG)]) == PING_BYTES + PONG_BYTES
    ensures |PING_BYTES + PONG_BYTES| == 20
    ensures Agrees(BulkString(PING)) && Agrees(BulkString(PONG))
  {
    assert Encode(BulkString(PING)) == PING_BYTES;
    assert Encode(BulkString(PONG)) == PONG_BYTES;
    assert EncodeItems([BulkString(PONG)]) == PONG_BYTES;
  }

  /** The first phase measures a whole bulk string. */
  lemma MeasuredBulkString()
    ensures ParseFrameLength(PING_BYTES) == Ok(10)
  {
    var ping := BulkString(PING);
    assert Encode(ping) + [] == PING_BYTES;
    FrameLengthsAgree(ping, []);
  }

  /** `*2\r\n$4\r\nping\r\n$4\r\npong\r\n` is measured element by element, 24 bytes. */
  lemma MeasuredArray()
    ensures ParseFrameLength([42, 50, 13, 10] + PING_BYTES + PONG_BYTES) == Ok(24)
  {
    var a := Array([BulkString(PING), BulkString(PONG)]);
    PingPong();
    assert Decimal(2) == [50];
    assert Encode(a) + [] == [42, 50, 13, 10] + PING_BYTES + PONG_BYTES;
    AgreesWalkable(a);
    FrameLengthsAgree(a, []);
  }

  /** `~2\r\n$4\r\nping\r\n$4\r\npong\r\n`: a set is measured whole as well. */
  lemma MeasuredSet()
    ensures ParseFrameLength([126, 50, 13, 10] + PING_BYTES + PONG_BYTES) == Ok(24)
  {
    var s := Set([BulkString(PING), BulkString(PONG)]);
    PingPong();
    assert Decimal(2) == [50];
    assert Encode(s) + [] == [126, 50, 13, 10] + PING_BYTES + PONG_BYTES;
    AgreesWalkable(BulkString(PING));
    AgreesWalkable(BulkString(PONG));
    assert Walkable(s);
    FrameLengthsAgree(s, []);
  }

  /** `%2\r\n+first\r\n:1\r\n+second\r\n:2\r\n`, the encoding of {first: 1, second: 2}. */
  const FIRST_SECOND_BYTES: Bytes :=
    [37, 50, 13, 10, 43] + FIRST + [13, 10, 58, 49, 13, 10, 43] + SECOND + [13, 10, 58, 50, 13, 10]

  const FIRST_SECOND: Frame := Map([Entry(FIRST, Integer(1)), Entry(SECOND, Integer(2))])

  lemma FirstSecondEncoding()
    ensures Encode(FIRST_SECOND) == FIRST_SECOND_BYTES
  {
    assert Decimal(2) == [50];
    TwoEntries(FIRST, 1, SECOND, 2);
  }

  /** Two entries whose values are one-digit integers, one after the other. */
  lemma TwoEntries(k1: Bytes, n1: nat, k2: Bytes, n2: nat)
    requires n1 < 10 && n2 < 10
    ensures EncodeEntries([Entry(k1, Integer(n1)), Entry(k2, Integer(n2))]) ==
      [43] + k1 + [13, 10, 58, 48 + n1 as byte, 13, 10] + ([43] + k2 + [13, 10, 58, 48 + n2 as byte, 13, 10])
  {
    var es := [Entry(k1, Integer(n1)), Entry(k2, Integer(n2))];
    EntryEncoding(k1, n1);
    EntryEncoding(k2, n2);
    assert EncodeEntries(es[1..][1..]) == [];
    assert EncodeEntries(es[1..]) == [43] + k2 + [13, 10, 58, 48 + n2 as byte, 13, 10];
  }

  /** One entry whose key is `k` and whose value is the one-digit integer `n`. */
  lemma EntryEncoding(k: Bytes, n: nat)
    requires n < 10
    ensures EncodeSimpleString(k) + Encode(Integer(n)) == [43] + k + [13, 10, 58, 48 + n as byte, 13, 10]
  {
  }

  lemma FirstSecondWellFormed()
    ensures WellFormed(FIRST_SECOND) && Walkable(FIRST_SECOND)
  {
    assert Less(FIRST, SECOND) by {
      assert FIRST[0] < SECOND[0];
    }
  }

  /** The first phase measures a map as one key line and one value per entry: all 29 bytes of this input. */
  lemma MeasuredMap()
    ensures ParseFrameLength(FIRST_SECOND_BYTES) == Ok(29)
  {
    FirstSecondEncoding();
    FirstSecondWellFormed();
    assert |FIRST_SECOND_BYTES| == 29;
    assert Encode(FIRST_SECOND) + [] == FIRST_SECOND_BYTES;
    FrameLengthsAgree(FIRST_SECOND, []);
  }

  /**
    The second phase keeps only the first item of that set, while the
    incremental decoder keeps both.
  */
  lemma SetExample()
    ensures DecodeV2([126, 50, 13, 10] + PING_BYTES + PONG_BYTES) == Parsed(Set([BulkString(PING)]), 24)
    ensures DecodeFrame([126, 50, 13, 10] + PING_BYTES + PONG_BYTES) == Parsed(Set([BulkString(PING), BulkString(PONG)]), 24)
  {
    var items := [BulkString(PING), BulkString(PONG)];
    PingPong();
    assert Decimal(2) == [50];
    var b := [126, 50, 13, 10] + PING_BYTES + PONG_BYTES;
    assert Encode(Set(items)) + [] == b;
    assert |b| == 24;
    SetHalvesAt(items, b);
    assert items[..1] == [BulkString(PING)];
  }

  /** Both decoders on the encoding `b` of a two-item set. */
  lemma SetHalvesAt(items: seq<Frame>, b: Bytes)
    requires |items| == 2 && WellFormed(Set(items))
    requires forall i :: 0 <= i < |items| ==> Agrees(items[i])
    requires Encode(Set(items)) + [] == b
    ensures DecodeV2(b) == Parsed(Set(items[..1]), |b|)
    ensures DecodeFrame(b) == Parsed(Set(items), |b|)
  {
    SetHalves(items, []);
  }
}
