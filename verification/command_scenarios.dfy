/**
  The command layer on the worked cases of its unit tests: a GET arriving
  as bytes on an empty backend, the parsing of HGET, HGETALL, HSET and ECHO
  arrays, and two HSETs followed by HGET and a sorted HGETALL. Keys and
  values are written as byte values; the comment beside each gives its text.
*/
module CommandScenarios {
  import opened Bytes
  import opened Numeric
  import opened Frames
  import opened RespEncode
  import opened RespDecode
  import opened RespRoundTrip
  import opened Commands
  import opened CommandProps
  import opened Backend
  import opened Dispatch
  import opened DispatchProps

  const HELLO: Bytes := [104, 101, 108, 108, 111]    // hello
  const HELLO1: Bytes := [104, 101, 108, 108, 111, 49] // hello1
  const WORLD: Bytes := [119, 111, 114, 108, 100]    // world
  const WORLD1: Bytes := [119, 111, 114, 108, 100, 49] // world1
  const MAP: Bytes := [109, 97, 112]                 // map

  // ---------------------------------------------------------------------
  // GET from the wire

  /** `*2\r\n$3\r\nget\r\n$5\r\nhello\r\n` */
  const GET_HELLO_BYTES: Bytes :=
    [42, 50, 13, 10] + ([36, 51, 13, 10] + GET + [13, 10]) + ([36, 53, 13, 10] + HELLO + [13, 10])

  const GET_HELLO: Frame := Array([BulkString(GET), BulkString(HELLO)])

  lemma GetHelloEncoding()
    ensures Encode(GET_HELLO) == GET_HELLO_BYTES
  {
    var items := GET_HELLO.items;
    assert Decimal(2) == [50] && Decimal(3) == [51] && Decimal(5) == [53];
    assert Encode(items[0]) == [36, 51, 13, 10] + GET + [13, 10];
    assert Encode(items[1]) == [36, 53, 13, 10] + HELLO + [13, 10];
    assert EncodeItems(items[1..][1..]) == [];
    assert EncodeItems(items[1..]) == Encode(items[1]);
    assert EncodeItems(items) == Encode(items[0]) + Encode(items[1]);
    assert Encode(GET_HELLO) == [42, 50, 13, 10] + EncodeItems(items);
  }

  /** The bytes decode to the array [get, hello], consuming all 24 of them. */
  lemma GetHelloDecodes()
    ensures DecodeFrame(GET_HELLO_BYTES) == Parsed(GET_HELLO, 24)
  {
    GetHelloEncoding();
    assert Encode(GET_HELLO) + [] == GET_HELLO_BYTES;
    FrameRoundTrip(GET_HELLO, []);
  }

  /** That array is the command GET hello. */
  lemma GetHelloParses()
    ensures FromFrame(GET_HELLO) == Accepted(Get(HELLO))
  {
    AsciiIsUtf8(HELLO);
    TwoBulks(Get(HELLO), GET, HELLO);
  }

  /** On an empty backend GET hello replies Null. */
  lemma GetOnEmptyBackend(env: Env)
    ensures Execute(Get(HELLO), EMPTY, env).frame == Null
  {
    AbsentIsNull(EMPTY, env, HELLO, [], false);
  }

  // ---------------------------------------------------------------------
  // Parsing hash commands and ECHO

  /** [hget, map, hello] is HGET of field "hello" in "map". */
  lemma HGetFromArray()
    ensures FromFrame(Array([BulkString(HGET), BulkString(MAP), BulkString(HELLO)])) == Accepted(HGet(MAP, HELLO))
  {
    AsciiIsUtf8(MAP);
    AsciiIsUtf8(HELLO);
    ThreeBulks(HGet(MAP, HELLO), HGET, MAP, HELLO);
  }

  /** [hgetall, map] is an unsorted HGETALL of "map". */
  lemma HGetAllFromArray()
    ensures FromFrame(Array([BulkString(HGETALL), BulkString(MAP)])) == Accepted(HGetAll(MAP, false))
  {
    AsciiIsUtf8(MAP);
    TwoBulks(HGetAll(MAP, false), HGETALL, MAP);
  }

  /** [hset, map, hello, world] sets field "hello" of "map" to the bulk string "world". */
  lemma HSetFromArray()
    ensures FromFrame(Array([BulkString(HSET), BulkString(MAP), BulkString(HELLO), BulkString(WORLD)])) ==
      Accepted(HSet(MAP, HELLO, BulkString(WORLD)))
  {
    AsciiIsUtf8(MAP);
    AsciiIsUtf8(HELLO);
    HSetWire(MAP, HELLO, BulkString(WORLD));
  }

  /** [echo, hello] is ECHO of "hello"; `Execute` replies with the message itself. */
  lemma EchoHello()
    ensures FromFrame(Array([BulkString(ECHO), BulkString(HELLO)])) == Accepted(Echo(HELLO))
  {
    AsciiIsUtf8(HELLO);
    TwoBulks(Echo(HELLO), ECHO, HELLO);
  }

  // Wire forms with symbolic arguments, so that the parse is shown once for all values

  lemma TwoBulks(c: Command, name: Bytes, a: Bytes)
    requires Sendable(c) && Render(c) == Array(Bulks([name, a]))
    ensures FromFrame(Array([BulkString(name), BulkString(a)])) == Accepted(c)
  {
    ParseRender(c);
    assert Bulks([name, a]) == [BulkString(name), BulkString(a)];
  }

  lemma ThreeBulks(c: Command, name: Bytes, a: Bytes, b: Bytes)
    requires Sendable(c) && Render(c) == Array(Bulks([name, a, b]))
    ensures FromFrame(Array([BulkString(name), BulkString(a), BulkString(b)])) == Accepted(c)
  {
    ParseRender(c);
    assert Bulks([name, a, b]) == [BulkString(name), BulkString(a), BulkString(b)];
  }

  lemma HSetWire(key: Bytes, field: Bytes, v: Frame)
    requires ValidUtf8(key) && ValidUtf8(field)
    ensures FromFrame(Array([BulkString(HSET), BulkString(key), BulkString(field), v])) == Accepted(HSet(key, field, v))
  {
    ParseRender(HSet(key, field, v));
    assert Bulks([HSET, key, field]) + [v] == [BulkString(HSET), BulkString(key), BulkString(field), v];
  }

  // ---------------------------------------------------------------------
  // HSET, HSET, HGET, HGETALL

  /** The hash "map" after both HSETs. */
  const MAP_FIELDS: map<Bytes, Frame> := map[HELLO := BulkString(WORLD), HELLO1 := BulkString(WORLD1)]

  /** Its fields in ascending order: "hello" is a proper prefix of "hello1". */
  const MAP_LISTING: seq<Entry> := [Entry(HELLO, BulkString(WORLD)), Entry(HELLO1, BulkString(WORLD1))]

  lemma MapListing()
    ensures Lists(MAP_LISTING, MAP_FIELDS) && SortedEntries(MAP_LISTING)
  {
    assert Less(HELLO, HELLO1) by {
      assert HELLO1[..5] == HELLO;
      PrefixLess(HELLO, HELLO1);
    }
    assert HELLO != HELLO1 by {
      assert |HELLO| != |HELLO1|;
    }
    KeysCons(MAP_LISTING[1], []);
    KeysCons(MAP_LISTING[0], [MAP_LISTING[1]]);
    assert MAP_LISTING == [MAP_LISTING[0]] + [MAP_LISTING[1]];
    assert Keys([]) == {};
    assert Keys(MAP_LISTING) == {HELLO, HELLO1};
  }

  /** A proper prefix sorts first. */
  lemma {:induction false} PrefixLess(a: Bytes, b: Bytes)
    requires |a| < |b| && b[..|a|] == a
    ensures Less(a, b)
    decreases |a|
  {
    if |a| > 0 {
      assert a[0] == b[0];
      assert b[1..][..|a| - 1] == a[1..];
      PrefixLess(a[1..], b[1..]);
    }
  }

  /** Two HSETs build the hash, and HGET reads back the first field. */
  lemma TwoHSets(env: Env)
    ensures var r1 := Execute(HSet(MAP, HELLO, BulkString(WORLD)), EMPTY, env);
      var r2 := Execute(HSet(MAP, HELLO1, BulkString(WORLD1)), r1.store, env);
      r1.frame == RESP_OK && r2.store.hashes[MAP] == MAP_FIELDS &&
      Execute(HGet(MAP, HELLO), r2.store, env).frame == BulkString(WORLD)
  {
  }

  /**
    A sorted HGETALL of that hash replies [hello, world, hello1, world1],
    whatever order the backend's map iterates in, as long as it names every
    field.
  */
  lemma SortedHGetAll(order: seq<Bytes>)
    requires HELLO in order && HELLO1 in order
    ensures HGetAllReply(MAP_FIELDS, order, true) ==
      Array([BulkString(HELLO), BulkString(WORLD), BulkString(HELLO1), BulkString(WORLD1)])
  {
    SortedListingIsUnique(order);
    FlattenTwo(Entry(HELLO, BulkString(WORLD)), Entry(HELLO1, BulkString(WORLD1)));
  }

  lemma FlattenTwo(x: Entry, y: Entry)
    ensures Flatten([x, y]) == [BulkString(x.key), x.value, BulkString(y.key), y.value]
  {
    assert [x, y][1..] == [y];
    assert Flatten([y]) == [BulkString(y.key), y.value];
  }

  /** The only ascending listing of the hash is MAP_LISTING. */
  lemma SortedListingIsUnique(order: seq<Bytes>)
    requires HELLO in order && HELLO1 in order
    ensures HGetAllReply(MAP_FIELDS, order, true) == Array(Flatten(MAP_LISTING))
  {
    MapListing();
    assert MAP_FIELDS.Keys == {HELLO, HELLO1};
    HGetAllSortedIs(MAP_FIELDS, order, MAP_LISTING);
  }

  /** The whole unit-test sequence on a fresh backend. */
  lemma HashScenario(env: Env)
    requires HELLO in env.iteration(MAP_FIELDS) && HELLO1 in env.iteration(MAP_FIELDS)
    ensures var r1 := Execute(HSet(MAP, HELLO, BulkString(WORLD)), EMPTY, env);
      var r2 := Execute(HSet(MAP, HELLO1, BulkString(WORLD1)), r1.store, env);
      Execute(HGetAll(MAP, true), r2.store, env).frame ==
        Array([BulkString(HELLO), BulkString(WORLD), BulkString(HELLO1), BulkString(WORLD1)])
  {
    TwoHSets(env);
    SortedHGetAll(env.iteration(MAP_FIELDS));
  }
}
