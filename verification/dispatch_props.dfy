/**
  Properties of command execution: reads see earlier writes and nothing
  else moves, and HGETALL lists exactly the fields of the hash, in ascending
  field order when sorting is asked for, whatever order the map iterates in.
*/
module DispatchProps {
  import opened Bytes
  import opened Frames
  import opened Commands
  import opened Backend
  import opened Dispatch

  // ---------------------------------------------------------------------
  // Reads after writes

  /** GET after SET on the same key returns the value set; other keys read as before. */
  lemma GetAfterSet(st: Store, env: Env, key: Bytes, v: Frame, other: Bytes)
    ensures Execute(Get(key), Execute(Command.Set(key, v), st, env).store, env).frame == v
    ensures other != key ==>
      Execute(Get(other), Execute(Command.Set(key, v), st, env).store, env) ==
      Execute(Get(other), st, env).(store := Execute(Command.Set(key, v), st, env).store)
  {
    SetThenGet(st, key, v, other);
  }

  /** HGET after HSET of the same field returns the value set; every other field reads as before. */
  lemma HGetAfterHSet(st: Store, env: Env, key: Bytes, field: Bytes, v: Frame, k: Bytes, f: Bytes)
    ensures Execute(HGet(key, field), Execute(HSet(key, field, v), st, env).store, env).frame == v
    ensures (k, f) != (key, field) ==>
      Execute(HGet(k, f), Execute(HSet(key, field, v), st, env).store, env).frame ==
      Execute(HGet(k, f), st, env).frame
  {
    SetFieldThenGet(st, key, field, v, k, f);
  }

  /**
    A GET of an absent key and an HGET of an absent key or field reply Null;
    HGETALL of an absent key replies the empty array.
  */
  lemma AbsentIsNull(st: Store, env: Env, key: Bytes, field: Bytes, sort: bool)
    ensures key !in st.strings ==> Execute(Get(key), st, env).frame == Null
    ensures GetField(st, key, field).None? ==> Execute(HGet(key, field), st, env).frame == Null
    ensures key !in st.hashes ==> Execute(HGetAll(key, sort), st, env).frame == Array([])
  {
  }

  /** GET and HGET reply what the store holds, on any store. */
  lemma ReadsReplyStored(st: Store, env: Env, key: Bytes, field: Bytes)
    ensures Execute(Get(key), st, env).frame == match GetString(st, key) case Some(v) => v case None => Null
    ensures Execute(HGet(key, field), st, env).frame == match GetField(st, key, field) case Some(v) => v case None => Null
  {
  }

  /** ADDMEMBER adds exactly the member to the key's set and leaves every other set alone. */
  lemma AddMemberEffect(st: Store, env: Env, key: Bytes, member: Bytes, other: Bytes)
    ensures MembersOf(Execute(AddMember(key, member), st, env).store, key) == MembersOf(st, key) + {member}
    ensures other != key ==>
      MembersOf(Execute(AddMember(key, member), st, env).store, other) == MembersOf(st, other)
  {
    AddThenMember(st, key, member, other);
  }

  // ---------------------------------------------------------------------
  // HGETALL

  /** `es` lists the fields of `h`, each once, with its value. */
  predicate Lists(es: seq<Entry>, h: map<Bytes, Frame>) {
    (forall i :: 0 <= i < |es| ==> es[i].key in h && es[i].value == h[es[i].key]) &&
    (forall i, j :: 0 <= i < j < |es| ==> es[i].key != es[j].key) &&
    Keys(es) == h.Keys
  }

  /** The map iteration names every field once. */
  predicate Enumerates(order: seq<Bytes>, h: map<Bytes, Frame>) {
    (forall i, j :: 0 <= i < j < |order| ==> order[i] != order[j]) &&
    (forall k :: k in h ==> k in order) &&
    (forall i :: 0 <= i < |order| ==> order[i] in h)
  }

  lemma {:induction false} LookupSome(es: seq<Entry>, k: Bytes)
    ensures Lookup(es, k).Some? <==> k in Keys(es)
    decreases |es|
  {
    if |es| > 0 {
      LookupSome(es[1..], k);
      KeysCons(es[0], es[1..]);
      assert [es[0]] + es[1..] == es;
    }
  }

  /** In a listing, looking a field up finds its value in the hash. */
  lemma {:induction false} ListsLookup(es: seq<Entry>, h: map<Bytes, Frame>, k: Bytes)
    requires forall i :: 0 <= i < |es| ==> es[i].key in h && es[i].value == h[es[i].key]
    ensures Lookup(es, k).Some? ==> k in h && Lookup(es, k).value == h[k]
    decreases |es|
  {
    if |es| > 0 && es[0].key != k {
      ListsLookup(es[1..], h, k);
    }
  }

  /** Sorted entry sequences that agree on every lookup are the same sequence. */
  lemma {:induction false} SortedUnique(a: seq<Entry>, b: seq<Entry>)
    requires SortedEntries(a) && SortedEntries(b)
    requires forall k :: Lookup(a, k) == Lookup(b, k)
    ensures a == b
    decreases |a|
  {
    if |a| == 0 {
      assert |b| > 0 ==> Lookup(b, b[0].key).Some?;
    } else {
      LookupSome(a, a[0].key);
      LookupSome(b, a[0].key);
      assert Lookup(a, a[0].key).Some?;
      assert |b| > 0;
      LookupSome(a, b[0].key);
      LookupSome(b, b[0].key);
      assert b[0].key == a[0].key by {
        var j :| 0 <= j < |b| && b[j].key == a[0].key;
        var i :| 0 <= i < |a| && a[i].key == b[0].key;
        if j > 0 {
          LessAsymmetric(a[0].key, b[0].key);
          LessIrreflexive(a[0].key);
        }
      }
      forall k ensures Lookup(a[1..], k) == Lookup(b[1..], k) {
        if k == a[0].key {
          TailLacksHead(a);
          TailLacksHead(b);
        } else {
          assert Lookup(a, k) == Lookup(a[1..], k);
          assert Lookup(b, k) == Lookup(b[1..], k);
        }
      }
      SortedTail(a);
      SortedTail(b);
      SortedUnique(a[1..], b[1..]);
      assert a == [a[0]] + a[1..] && b == [b[0]] + b[1..];
    }
  }

  /** The head key of a sorted sequence does not occur in its tail. */
  lemma TailLacksHead(es: seq<Entry>)
    requires SortedEntries(es) && |es| > 0
    ensures Lookup(es[1..], es[0].key) == None
  {
    LookupSome(es[1..], es[0].key);
    if es[0].key in Keys(es[1..]) {
      var i :| 0 <= i < |es[1..]| && es[1..][i].key == es[0].key;
      assert es[i + 1].key == es[0].key;
      LessIrreflexive(es[0].key);
    }
  }

  lemma SortedTail(es: seq<Entry>)
    requires SortedEntries(es) && |es| > 0
    ensures SortedEntries(es[1..])
  {
    forall i, j | 0 <= i < j < |es[1..]| ensures Less(es[1..][i].key, es[1..][j].key) {
      assert es[1..][i] == es[i + 1] && es[1..][j] == es[j + 1];
    }
  }

  /** The snapshot of an enumerating iteration lists the hash. */
  lemma {:induction false} SnapshotLists(h: map<Bytes, Frame>, order: seq<Bytes>)
    requires forall i, j :: 0 <= i < j < |order| ==> order[i] != order[j]
    ensures Keys(Snapshot(h, order)) == set k | k in order && k in h
    ensures forall i, j :: 0 <= i < j < |Snapshot(h, order)| ==> Snapshot(h, order)[i].key != Snapshot(h, order)[j].key
    decreases |order|
  {
    if |order| > 0 {
      var rest := Snapshot(h, order[1..]);
      SnapshotLists(h, order[1..]);
      assert forall k :: k in order <==> k == order[0] || k in order[1..];
      if order[0] in h {
        var e := Entry(order[0], h[order[0]]);
        KeysCons(e, rest);
        assert order[0] !in Keys(rest);
        var r := [e] + rest;
        forall i, j | 0 <= i < j < |r| ensures r[i].key != r[j].key {
          assert r[j] == rest[j - 1];
          if i == 0 {
            assert rest[j - 1].key in Keys(rest);
          } else {
            assert r[i] == rest[i - 1];
          }
        }
      }
    }
  }

  /** Any key order of a listing lists the hash; its lookups are the hash's. */
  lemma ListsLookupAll(es: seq<Entry>, h: map<Bytes, Frame>)
    requires Lists(es, h)
    ensures forall k :: Lookup(es, k) == if k in h then Some(h[k]) else None
  {
    forall k ensures Lookup(es, k) == if k in h then Some(h[k]) else None {
      LookupSome(es, k);
      ListsLookup(es, h, k);
    }
  }

  /** An unsorted HGETALL lists every field once, with its value, in iteration order. */
  lemma HGetAllUnsorted(h: map<Bytes, Frame>, order: seq<Bytes>)
    requires Enumerates(order, h)
    ensures exists es :: Lists(es, h) && HGetAllReply(h, order, false) == Array(Flatten(es))
  {
    var es := Snapshot(h, order);
    SnapshotLists(h, order);
    assert Lists(es, h);
  }

  /**
    A sorted HGETALL lists every field once, with its value, in strictly
    ascending field order.
  */
  lemma HGetAllSorted(h: map<Bytes, Frame>, order: seq<Bytes>)
    requires forall k :: k in h ==> k in order
    ensures exists es :: Lists(es, h) && SortedEntries(es) && HGetAllReply(h, order, true) == Array(Flatten(es))
  {
    var data := Snapshot(h, order);
    SnapshotKeysCover(h, order);
    SortedListing(data, h);
    assert HGetAllReply(h, order, true) == Array(Flatten(FromPairs(data)));
  }

  /** Inserting pairs that agree with `h` and name all its fields into an ordered map lists `h`. */
  lemma SortedListing(data: seq<Entry>, h: map<Bytes, Frame>)
    requires forall i :: 0 <= i < |data| ==> data[i].key in h && data[i].value == h[data[i].key]
    requires Keys(data) == h.Keys
    ensures Lists(FromPairs(data), h) && SortedEntries(FromPairs(data))
  {
    var es := FromPairs(data);
    FromPairsSpec(data);
    forall i | 0 <= i < |es| ensures es[i].key in h && es[i].value == h[es[i].key] {
      LookupAt(es, i);
      LastValueOf(data, h, es[i].key);
    }
    forall i, j | 0 <= i < j < |es| ensures es[i].key != es[j].key {
      LessIrreflexive(es[i].key);
    }
  }

  /**
    The sorted reply is determined by the hash alone: it is the flattening of
    the one ascending listing of its fields.
  */
  lemma HGetAllSortedIs(h: map<Bytes, Frame>, order: seq<Bytes>, es: seq<Entry>)
    requires forall k :: k in h ==> k in order
    requires Lists(es, h) && SortedEntries(es)
    ensures HGetAllReply(h, order, true) == Array(Flatten(es))
  {
    HGetAllSorted(h, order);
    var sorted :| Lists(sorted, h) && SortedEntries(sorted) && HGetAllReply(h, order, true) == Array(Flatten(sorted));
    ListsLookupAll(sorted, h);
    ListsLookupAll(es, h);
    SortedUnique(sorted, es);
  }

  /** A sorted HGETALL reply does not depend on the order the map iterates in. */
  lemma HGetAllOrderFree(h: map<Bytes, Frame>, order1: seq<Bytes>, order2: seq<Bytes>)
    requires forall k :: k in h ==> k in order1
    requires forall k :: k in h ==> k in order2
    ensures HGetAllReply(h, order1, true) == HGetAllReply(h, order2, true)
  {
    HGetAllSorted(h, order1);
    var es :| Lists(es, h) && SortedEntries(es) && HGetAllReply(h, order1, true) == Array(Flatten(es));
    HGetAllSortedIs(h, order2, es);
  }

  // Helpers for HGetAllSorted

  lemma {:induction false} SnapshotKeysCover(h: map<Bytes, Frame>, order: seq<Bytes>)
    requires forall k :: k in h ==> k in order
    ensures Keys(Snapshot(h, order)) == h.Keys
  {
    SnapshotKeys(h, order);
  }

  lemma {:induction false} SnapshotKeys(h: map<Bytes, Frame>, order: seq<Bytes>)
    ensures Keys(Snapshot(h, order)) == set k | k in order && k in h
    decreases |order|
  {
    if |order| > 0 {
      SnapshotKeys(h, order[1..]);
      assert forall k :: k in order <==> k == order[0] || k in order[1..];
      if order[0] in h {
        KeysCons(Entry(order[0], h[order[0]]), Snapshot(h, order[1..]));
      }
    }
  }

  lemma {:induction false} LastValueOf(ps: seq<Entry>, h: map<Bytes, Frame>, k: Bytes)
    requires forall i :: 0 <= i < |ps| ==> ps[i].key in h && ps[i].value == h[ps[i].key]
    ensures LastValue(ps, k).Some? ==> k in h && LastValue(ps, k).value == h[k]
    decreases |ps|
  {
    if |ps| > 0 && ps[|ps| - 1].key != k {
      LastValueOf(ps[..|ps| - 1], h, k);
    }
  }

  lemma {:induction false} LookupAt(es: seq<Entry>, i: nat)
    requires SortedEntries(es) && i < |es|
    ensures Lookup(es, es[i].key) == Some(es[i].value)
    decreases i
  {
    if i > 0 {
      LessIrreflexive(es[0].key);
      SortedTail(es);
      LookupAt(es[1..], i - 1);
    }
  }
}
