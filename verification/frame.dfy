/**
  The frame model shared by both codecs: the ten RESP2/RESP3 value types,
  codec errors, the result of a decode step, and the key-ordered map that
  backs the Map frame (a `BTreeMap<String, RespFrame>`).
*/
module Frames {
  import opened Bytes

  /**
    One wire value. Text is kept as raw bytes. A Map holds its entries in
    ascending key order, as the `BTreeMap` behind it iterates them. A Double
    carries its decimal literal: float formatting and parsing are not modelled.
  */
  datatype Frame =
    | SimpleString(text: Bytes)
    | Error(text: Bytes)
    | Integer(value: int)
    | BulkString(data: Bytes)
    | Array(items: seq<Frame>)
    | Null
    | Boolean(flag: bool)
    | Double(literal: Bytes)
    | Map(entries: seq<Entry>)
    | Set(items: seq<Frame>)

  datatype Entry = Entry(key: Bytes, value: Frame)

  // The prefix byte of each frame type.
  const SIMPLE_STRING_PREFIX: byte := 43  // '+'
  const ERROR_PREFIX: byte := 45          // '-'
  const INTEGER_PREFIX: byte := 58        // ':'
  const BULK_PREFIX: byte := 36           // '$'
  const ARRAY_PREFIX: byte := 42          // '*'
  const NULL_PREFIX: byte := 95           // '_'
  const BOOL_PREFIX: byte := 35           // '#'
  const DOUBLE_PREFIX: byte := 44         // ','
  const MAP_PREFIX: byte := 37            // '%'
  const SET_PREFIX: byte := 126           // '~'

  /** Every type byte a frame can start with. */
  const PREFIXES: set<byte> := {SIMPLE_STRING_PREFIX, ERROR_PREFIX, INTEGER_PREFIX, BULK_PREFIX, ARRAY_PREFIX,
    NULL_PREFIX, BOOL_PREFIX, DOUBLE_PREFIX, MAP_PREFIX, SET_PREFIX}

  /** The codec error kinds; only the variant matters, not its message. */
  datatype RespError =
    | NotComplete       // more bytes are needed
    | InvalidFrameType  // wrong prefix or wrong fixed bytes
    | ParseIntError     // a length or an integer body that does not parse
    | InvalidFrame      // the second pass of the batch decoder failed

  datatype Result<T> = Ok(value: T) | Err(error: RespError)

  /**
    Outcome of decoding from a growable buffer: `used` is the number of bytes
    already removed from the front of the buffer when the call returns, on
    success and on failure alike.
  */
  datatype Decoded<T> =
    | Parsed(value: T, used: nat)
    | Failed(error: RespError, used: nat)
  {
    predicate Incomplete() {
      Failed? && error == NotComplete
    }

    /** The same outcome with the decoded value converted by `f`. */
    function Convert<U>(f: T -> U): (r: Decoded<U>)
      ensures r.used == used && r.Parsed? == Parsed?
      ensures Parsed? ==> r.value == f(value)
      ensures Failed? ==> r.error == error
    {
      match this
      case Parsed(v, u) => Parsed(f(v), u)
      case Failed(e, u) => Failed(e, u)
    }

    /** The same outcome after `n` more bytes were removed before the call. */
    function After(n: nat): (r: Decoded<T>)
      ensures r.used == used + n && r.Parsed? == Parsed?
      ensures Parsed? ==> r.value == value
      ensures Failed? ==> r.error == error
    {
      match this
      case Parsed(v, u) => Parsed(v, u + n)
      case Failed(e, u) => Failed(e, u + n)
    }
  }

  // ---------------------------------------------------------------------
  // Byte-wise lexicographic order, the order of Rust's `String` keys

  predicate Less(a: Bytes, b: Bytes)
    decreases |a|
  {
    if |b| == 0 then false
    else if |a| == 0 then true
    else if a[0] != b[0] then a[0] < b[0]
    else Less(a[1..], b[1..])
  }

  lemma LessIrreflexive(a: Bytes)
    ensures !Less(a, a)
  {
  }

  lemma LessAsymmetric(a: Bytes, b: Bytes)
    ensures !(Less(a, b) && Less(b, a))
  {
  }

  lemma {:induction false} LessTransitive(a: Bytes, b: Bytes, c: Bytes)
    requires Less(a, b) && Less(b, c)
    ensures Less(a, c)
    decreases |a|
  {
    if |a| > 0 && a[0] == b[0] && b[0] == c[0] {
      LessTransitive(a[1..], b[1..], c[1..]);
    }
  }

  lemma {:induction false} LessTotal(a: Bytes, b: Bytes)
    ensures a == b || Less(a, b) || Less(b, a)
    decreases |a|
  {
    if |a| > 0 && |b| > 0 && a[0] == b[0] {
      LessTotal(a[1..], b[1..]);
      if a[1..] == b[1..] {
        assert a == [a[0]] + a[1..] && b == [b[0]] + b[1..];
      }
    }
  }

  // ---------------------------------------------------------------------
  // The ordered map behind the Map frame

  function Keys(es: seq<Entry>): set<Bytes> {
    set i | 0 <= i < |es| :: es[i].key
  }

  lemma KeysCons(e: Entry, es: seq<Entry>)
    ensures Keys([e] + es) == {e.key} + Keys(es)
  {
    var l := [e] + es;
    forall x | x in Keys(l) ensures x in {e.key} + Keys(es) {
      var i :| 0 <= i < |l| && l[i].key == x;
      if i > 0 { assert es[i - 1].key == x; }
    }
    forall x | x in Keys(es) ensures x in Keys(l) {
      var i :| 0 <= i < |es| && es[i].key == x;
      assert l[i + 1].key == x;
    }
    assert l[0].key == e.key;
  }

  lemma KeysSnoc(es: seq<Entry>, e: Entry)
    ensures Keys(es + [e]) == Keys(es) + {e.key}
  {
    var l := es + [e];
    forall x | x in Keys(l) ensures x in Keys(es) + {e.key} {
      var i :| 0 <= i < |l| && l[i].key == x;
      if i < |es| { assert es[i].key == x; }
    }
    forall x | x in Keys(es) ensures x in Keys(l) {
      var i :| 0 <= i < |es| && es[i].key == x;
      assert l[i].key == x;
    }
    assert l[|es|].key == e.key;
  }

  /** Keys strictly ascend, so each key occurs once. */
  predicate SortedEntries(es: seq<Entry>) {
    forall i, j :: 0 <= i < j < |es| ==> Less(es[i].key, es[j].key)
  }

  /** `BTreeMap::get`. */
  function Lookup(es: seq<Entry>, k: Bytes): Option<Frame> {
    if |es| == 0 then None
    else if es[0].key == k then Some(es[0].value)
    else Lookup(es[1..], k)
  }

  /**
    `BTreeMap::insert`: replaces the value of an existing key, otherwise adds
    the entry at its place in key order.
  */
  function MapInsert(es: seq<Entry>, k: Bytes, v: Frame): seq<Entry>
    decreases |es|
  {
    if |es| == 0 then [Entry(k, v)]
    else if es[0].key == k then [Entry(k, v)] + es[1..]
    else if Less(k, es[0].key) then [Entry(k, v)] + es
    else [es[0]] + MapInsert(es[1..], k, v)
  }

  /** Insertion keeps the keys ordered, adds exactly `k`, and changes only the value of `k`. */
  lemma MapInsertSpec(es: seq<Entry>, k: Bytes, v: Frame)
    requires SortedEntries(es)
    ensures SortedEntries(MapInsert(es, k, v))
    ensures Keys(MapInsert(es, k, v)) == Keys(es) + {k}
    ensures Lookup(MapInsert(es, k, v), k) == Some(v)
    ensures forall k' :: k' != k ==> Lookup(MapInsert(es, k, v), k') == Lookup(es, k')
  {
    MapInsertKeys(es, k, v);
    MapInsertLookup(es, k, v);
    MapInsertSorted(es, k, v);
  }

  lemma {:induction false} MapInsertKeys(es: seq<Entry>, k: Bytes, v: Frame)
    ensures Keys(MapInsert(es, k, v)) == Keys(es) + {k}
    decreases |es|
  {
    if |es| == 0 {
      KeysCons(Entry(k, v), []);
    } else {
      assert es == [es[0]] + es[1..];
      KeysCons(es[0], es[1..]);
      if es[0].key == k {
        KeysCons(Entry(k, v), es[1..]);
      } else if Less(k, es[0].key) {
        KeysCons(Entry(k, v), es);
      } else {
        MapInsertKeys(es[1..], k, v);
        KeysCons(es[0], MapInsert(es[1..], k, v));
      }
    }
  }

  lemma {:induction false} MapInsertLookup(es: seq<Entry>, k: Bytes, v: Frame)
    ensures Lookup(MapInsert(es, k, v), k) == Some(v)
    ensures forall k' :: k' != k ==> Lookup(MapInsert(es, k, v), k') == Lookup(es, k')
    decreases |es|
  {
    if |es| > 0 && es[0].key != k && !Less(k, es[0].key) {
      MapInsertLookup(es[1..], k, v);
      var r := MapInsert(es, k, v);
      assert r[1..] == MapInsert(es[1..], k, v);
    } else if |es| > 0 && es[0].key != k {
      assert ([Entry(k, v)] + es)[1..] == es;
    } else if |es| > 0 {
      assert ([Entry(k, v)] + es[1..])[1..] == es[1..];
    }
  }

  lemma {:induction false} MapInsertSorted(es: seq<Entry>, k: Bytes, v: Frame)
    requires SortedEntries(es)
    ensures SortedEntries(MapInsert(es, k, v))
    decreases |es|
  {
    if |es| == 0 {
    } else if es[0].key == k {
      var r := MapInsert(es, k, v);
      assert forall j :: 0 <= j < |r| ==> r[j].key == es[j].key;
    } else if Less(k, es[0].key) {
      forall j | 0 <= j < |es| ensures Less(k, es[j].key) {
        if j > 0 { LessTransitive(k, es[0].key, es[j].key); }
      }
      SortedCons(Entry(k, v), es);
    } else {
      LessTotal(k, es[0].key);
      MapInsertSorted(es[1..], k, v);
      MapInsertBelow(es, k, v);
      SortedCons(es[0], MapInsert(es[1..], k, v));
    }
  }

  /** Every key of the insertion into the tail lies above the head key. */
  lemma MapInsertBelow(es: seq<Entry>, k: Bytes, v: Frame)
    requires SortedEntries(es) && |es| > 0 && Less(es[0].key, k)
    ensures forall j :: 0 <= j < |MapInsert(es[1..], k, v)| ==> Less(es[0].key, MapInsert(es[1..], k, v)[j].key)
  {
    var rest := MapInsert(es[1..], k, v);
    MapInsertKeys(es[1..], k, v);
    forall j | 0 <= j < |rest| ensures Less(es[0].key, rest[j].key) {
      assert rest[j].key in Keys(rest);
      if rest[j].key != k {
        var i :| 0 <= i < |es[1..]| && es[1..][i].key == rest[j].key;
        assert es[i + 1].key == rest[j].key;
      }
    }
  }

  /** A sorted sequence stays sorted under a head below all its keys. */
  lemma SortedCons(e: Entry, es: seq<Entry>)
    requires SortedEntries(es)
    requires forall j :: 0 <= j < |es| ==> Less(e.key, es[j].key)
    ensures SortedEntries([e] + es)
  {
    var r := [e] + es;
    forall i, j | 0 <= i < j < |r| ensures Less(r[i].key, r[j].key) {
      assert r[j] == es[j - 1];
      if i > 0 { assert r[i] == es[i - 1]; }
    }
  }

  /** The value of the last pair with key `k`. */
  function LastValue(ps: seq<Entry>, k: Bytes): Option<Frame> {
    if |ps| == 0 then None
    else if ps[|ps| - 1].key == k then Some(ps[|ps| - 1].value)
    else LastValue(ps[..|ps| - 1], k)
  }

  /** The map obtained by inserting `ps` one after another into an empty map. */
  function FromPairs(ps: seq<Entry>): seq<Entry>
    decreases |ps|
  {
    if |ps| == 0 then []
    else MapInsert(FromPairs(ps[..|ps| - 1]), ps[|ps| - 1].key, ps[|ps| - 1].value)
  }

  /**
    A map built by successive inserts is ordered, holds exactly the inserted
    keys, and a repeated key keeps its last value.
  */
  lemma {:induction false} FromPairsSpec(ps: seq<Entry>)
    ensures SortedEntries(FromPairs(ps))
    ensures Keys(FromPairs(ps)) == Keys(ps)
    ensures forall k :: Lookup(FromPairs(ps), k) == LastValue(ps, k)
    decreases |ps|
  {
    if |ps| > 0 {
      var init := ps[..|ps| - 1];
      FromPairsSpec(init);
      MapInsertSpec(FromPairs(init), ps[|ps| - 1].key, ps[|ps| - 1].value);
      KeysSnoc(init, ps[|ps| - 1]);
      assert init + [ps[|ps| - 1]] == ps;
    }
  }

  /** Inserting a key above every present key appends it. */
  lemma {:induction false} InsertAboveAll(es: seq<Entry>, k: Bytes, v: Frame)
    requires SortedEntries(es)
    requires forall i :: 0 <= i < |es| ==> Less(es[i].key, k)
    ensures MapInsert(es, k, v) == es + [Entry(k, v)]
    decreases |es|
  {
    if |es| > 0 {
      LessIrreflexive(k);
      LessAsymmetric(k, es[0].key);
      InsertAboveAll(es[1..], k, v);
      assert [es[0]] + (es[1..] + [Entry(k, v)]) == es + [Entry(k, v)];
    }
  }

  /** Inserting already-sorted pairs in order rebuilds exactly those pairs. */
  lemma {:induction false} FromSortedPairs(es: seq<Entry>)
    requires SortedEntries(es)
    ensures FromPairs(es) == es
    decreases |es|
  {
    if |es| > 0 {
      var init := es[..|es| - 1];
      FromSortedPairs(init);
      InsertAboveAll(init, es[|es| - 1].key, es[|es| - 1].value);
      assert init + [es[|es| - 1]] == es;
    }
  }
}
