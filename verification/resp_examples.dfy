/**
  The incremental decoder on the worked inputs of its unit tests: frames
  that arrive in two pieces wait for the second one and then decode whole,
  and a map that arrives out of key order is read into key order. Inputs are
  written as byte values; the comment beside each gives its text.
*/
module RespExamples {
  import opened Bytes
  import opened Numeric
  import opened Frames
  import opened RespEncode
  import opened RespDecode
  import opened RespRoundTrip
  import opened RespPrefix

  const HELLO: Bytes := [104, 101, 108, 108, 111]  // hello
  const WORLD: Bytes := [119, 111, 114, 108, 100]  // world
  const FOO: Bytes := [102, 111, 111]              // foo
  const BAR: Bytes := [98, 97, 114]                // bar
  const SET_NAME: Bytes := [115, 101, 116]         // set

  /**
    A frame whose encoding is `head ++ tail` waits while only `head` has
    arrived, and decodes whole once `tail` follows.
  */
  lemma ArrivesInTwoPieces(f: Frame, head: Bytes, tail: Bytes)
    requires WellFormed(f) && Encode(f) == head + tail && |tail| > 0
    ensures DecodeFrame(head) == Failed(NotComplete, 0)
    ensures DecodeFrame(head + tail) == Parsed(f, |head| + |tail|)
  {
    var e := head + tail;
    assert e[..|head|] == head;
    WaitsAt(f, e, |head|);
  }

  /** The same, for the cut of the encoding `e` after `k` bytes. */
  lemma WaitsAt(f: Frame, e: Bytes, k: nat)
    requires WellFormed(f) && e == Encode(f) && k < |e|
    ensures DecodeFrame(e[..k]) == Failed(NotComplete, 0)
    ensures DecodeFrame(e) == Parsed(f, |e|)
  {
    PartialFrameWaits(f, k, []);
    assert e[..k] + e[k..] + [] == e;
  }

  /** `+hello\r` waits for its LF; with it, the line decodes to "hello" in 8 bytes. */
  lemma SimpleStringWaits()
    ensures DecodeFrame([43] + HELLO + [13]) == Failed(NotComplete, 0)
    ensures DecodeFrame([43] + HELLO + [13, 10]) == Parsed(SimpleString(HELLO), 8)
  {
    var f := SimpleString(HELLO);
    assert Encode(f) == ([43] + HELLO + [13]) + [10];
    ArrivesInTwoPieces(f, [43] + HELLO + [13], [10]);
    assert ([43] + HELLO + [13]) + [10] == [43] + HELLO + [13, 10];
  }

  /** `#t` waits; `#t\r\n` decodes to true and `#f\r\n` to false, 4 bytes each. */
  lemma BooleanWaits()
    ensures DecodeFrame([35, 116]) == Failed(NotComplete, 0)
    ensures DecodeFrame([35, 116, 13, 10]) == Parsed(Boolean(true), 4)
    ensures DecodeFrame([35, 102, 13, 10]) == Parsed(Boolean(false), 4)
  {
    ArrivesInTwoPieces(Boolean(true), [35, 116], [13, 10]);
    assert Encode(Boolean(false)) + [] == [35, 102, 13, 10];
    FrameRoundTrip(Boolean(false), []);
  }

  /** `$5\r\nworld` waits for its CRLF; with it, the bulk string "world" decodes in 11 bytes. */
  lemma BulkStringWaits()
    ensures DecodeFrame([36, 53, 13, 10] + WORLD) == Failed(NotComplete, 0)
    ensures DecodeFrame([36, 53, 13, 10] + WORLD + [13, 10]) == Parsed(BulkString(WORLD), 11)
  {
    var f := BulkString(WORLD);
    assert Decimal(5) == [53];
    assert Encode(f) == ([36, 53, 13, 10] + WORLD) + [13, 10];
    ArrivesInTwoPieces(f, [36, 53, 13, 10] + WORLD, [13, 10]);
  }

  /** `$-1\r\n` decodes to the empty bulk string. */
  lemma NullBulkStringDecodes()
    ensures DecodeFrame([36, 45, 49, 13, 10]) == Parsed(BulkString([]), 5)
  {
    assert Encode(BulkString([])) + [] == [36, 45, 49, 13, 10];
    EmptyBulkStringRoundTrip([]);
  }

  /** `:123\r\n` and `:-123\r\n` are the encodings of 123 and -123, and decode back to them. */
  lemma IntegerExamples()
    ensures Encode(Integer(123)) == [58, 49, 50, 51, 13, 10]
    ensures Encode(Integer(-123)) == [58, 45, 49, 50, 51, 13, 10]
    ensures DecodeFrame([58, 49, 50, 51, 13, 10]) == Parsed(Integer(123), 6)
    ensures DecodeFrame([58, 45, 49, 50, 51, 13, 10]) == Parsed(Integer(-123), 7)
  {
    assert Decimal(123) == [49, 50, 51] by {
      assert Decimal(12) == [49, 50];
    }
    assert Encode(Integer(123)) + [] == [58, 49, 50, 51, 13, 10];
    assert Encode(Integer(-123)) + [] == [58, 45, 49, 50, 51, 13, 10];
    FrameRoundTrip(Integer(123), []);
    FrameRoundTrip(Integer(-123), []);
  }

  /** `$3\r\nset\r\n`, the encoding of the bulk string "set". */
  const SET_BYTES: Bytes := [36, 51, 13, 10] + SET_NAME + [13, 10]
  /** `$5\r\nhello\r\n`, the encoding of the bulk string "hello". */
  const HELLO_BYTES: Bytes := [36, 53, 13, 10] + HELLO + [13, 10]
  /** `$5\r\nworld\r\n`, the encoding of the bulk string "world". */
  const WORLD_BYTES: Bytes := [36, 53, 13, 10] + WORLD + [13, 10]

  /** The array [set, hello] is `*2\r\n` followed by its two elements. */
  lemma SetHelloEncoding()
    ensures Encode(Array([BulkString(SET_NAME), BulkString(HELLO)])) == [42, 50, 13, 10] + SET_BYTES + HELLO_BYTES
  {
    var items := [BulkString(SET_NAME), BulkString(HELLO)];
    assert Decimal(2) == [50] && Decimal(3) == [51] && Decimal(5) == [53];
    assert Encode(items[0]) == SET_BYTES;
    assert Encode(items[1]) == HELLO_BYTES;
    assert EncodeItems(items[1..][1..]) == [];
    assert EncodeItems(items[1..]) == HELLO_BYTES;
    assert EncodeItems(items) == SET_BYTES + HELLO_BYTES;
  }

  /**
    `*2\r\n$3\r\nset\r\n` waits for its second element; once `$5\r\nhello\r\n`
    arrives the array [set, hello] decodes, all 24 bytes of it.
  */
  lemma ArrayWaits()
    ensures DecodeFrame([42, 50, 13, 10] + SET_BYTES) == Failed(NotComplete, 0)
    ensures DecodeFrame([42, 50, 13, 10] + SET_BYTES + HELLO_BYTES) ==
      Parsed(Array([BulkString(SET_NAME), BulkString(HELLO)]), 24)
  {
    var f := Array([BulkString(SET_NAME), BulkString(HELLO)]);
    SetHelloEncoding();
    assert Encode(f) == ([42, 50, 13, 10] + SET_BYTES) + HELLO_BYTES;
    ArrivesInTwoPieces(f, [42, 50, 13, 10] + SET_BYTES, HELLO_BYTES);
  }

  /** [set, hello, world] is encoded as `*3\r\n$3\r\nset\r\n$5\r\nhello\r\n$5\r\nworld\r\n`. */
  lemma ArrayEncodeExample()
    ensures Encode(Array([BulkString(SET_NAME), BulkString(HELLO), BulkString(WORLD)])) ==
      [42, 51, 13, 10] + SET_BYTES + HELLO_BYTES + WORLD_BYTES
  {
    var items := [BulkString(SET_NAME), BulkString(HELLO), BulkString(WORLD)];
    assert Decimal(3) == [51] && Decimal(5) == [53];
    assert Encode(items[0]) == SET_BYTES;
    assert Encode(items[1]) == HELLO_BYTES;
    assert Encode(items[2]) == WORLD_BYTES;
    assert EncodeItems(items[2..][1..]) == [];
    assert EncodeItems(items[2..]) == WORLD_BYTES;
    assert items[1..][1..] == items[2..];
    assert EncodeItems(items[1..]) == HELLO_BYTES + WORLD_BYTES;
    assert EncodeItems(items) == SET_BYTES + (HELLO_BYTES + WORLD_BYTES);
  }

  // ---------------------------------------------------------------------
  // Maps and key order

  /** "foo" sorts before "hello". */
  lemma FooBeforeHello()
    ensures Less(FOO, HELLO) && FOO != HELLO
  {
    assert FOO[0] < HELLO[0];
  }

  /** Inserting "hello" and then "foo" into an empty map lists "foo" first. */
  lemma HelloThenFoo(a: Frame, b: Frame)
    ensures FromPairs([Entry(HELLO, a), Entry(FOO, b)]) == [Entry(FOO, b), Entry(HELLO, a)]
  {
    var ps := [Entry(HELLO, a), Entry(FOO, b)];
    assert ps[..1] == [Entry(HELLO, a)];
    assert ps[..1][..0] == [];
    assert FromPairs(ps[..1]) == [Entry(HELLO, a)];
    FooBeforeHello();
  }

  /** `+hello\r\n$5\r\nworld\r\n+foo\r\n$3\r\nbar\r\n`: the pairs hello → world, foo → bar, in wire order. */
  const WIRE_PAIRS: seq<Entry> := [Entry(HELLO, BulkString(WORLD)), Entry(FOO, BulkString(BAR))]

  const MAP_BYTES: Bytes :=
    [37, 50, 13, 10] +
    (([43] + HELLO + [13, 10]) + WORLD_BYTES + (([43] + FOO + [13, 10]) + ([36, 51, 13, 10] + BAR + [13, 10])))

  lemma MapBytesLayout()
    ensures MAP_BYTES == Line(MAP_PREFIX, Decimal(|WIRE_PAIRS|)) + EncodeEntries(WIRE_PAIRS)
  {
    assert Decimal(2) == [50] && Decimal(3) == [51] && Decimal(5) == [53];
    TwoEntries(WIRE_PAIRS[0], WIRE_PAIRS[1]);
    assert Line(MAP_PREFIX, Decimal(2)) == [37, 50, 13, 10];
    assert EncodeSimpleString(HELLO) == [43] + HELLO + [13, 10];
    assert Encode(BulkString(WORLD)) == WORLD_BYTES;
    assert EncodeSimpleString(FOO) == [43] + FOO + [13, 10];
    assert Encode(BulkString(BAR)) == [36, 51, 13, 10] + BAR + [13, 10];
  }

  /** Two entries are written one after the other, each as its key line and then its value. */
  lemma TwoEntries(x: Entry, y: Entry)
    ensures EncodeEntries([x, y]) ==
      EncodeSimpleString(x.key) + Encode(x.value) + (EncodeSimpleString(y.key) + Encode(y.value))
  {
    var second := EncodeSimpleString(y.key) + Encode(y.value);
    assert [x, y][1..] == [y];
    assert EncodeEntries([y][1..]) == [];
    assert EncodeEntries([y]) == second + [] == second;
  }

  /**
    The map test input, whose keys arrive out of order, decodes to the map
    {foo: bar, hello: world} held in key order, consuming all 38 bytes.
  */
  lemma MapDecodeExample()
    ensures DecodeFrame(MAP_BYTES) ==
      Parsed(Map([Entry(FOO, BulkString(BAR)), Entry(HELLO, BulkString(WORLD))]), 38)
  {
    MapBytesLayout();
    assert MAP_BYTES + [] == MAP_BYTES;
    PairsRoundTrip(WIRE_PAIRS, []);
    HelloThenFoo(BulkString(WORLD), BulkString(BAR));
  }

  /**
    A map built by inserting "hello" and then "foo" is written in key order:
    `%2\r\n+foo\r\n<value>+hello\r\n<value>`.
  */
  lemma MapEncodeSorted(a: Frame, b: Frame)
    ensures Encode(Map(FromPairs([Entry(HELLO, a), Entry(FOO, b)]))) ==
      [37, 50, 13, 10] + ([43] + FOO + [13, 10]) + Encode(b) + ([43] + HELLO + [13, 10]) + Encode(a)
  {
    HelloThenFoo(a, b);
    var es := [Entry(FOO, b), Entry(HELLO, a)];
    assert Decimal(2) == [50];
    assert EncodeEntries(es[1..][1..]) == [];
    assert EncodeEntries(es[1..]) == ([43] + HELLO + [13, 10]) + Encode(a);
    assert EncodeEntries(es) == ([43] + FOO + [13, 10]) + Encode(b) + EncodeEntries(es[1..]);
  }
}
