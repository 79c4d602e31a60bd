/**
  Command execution: each command reads or updates the store and yields the
  reply frame. The store is threaded through explicitly, so a command's
  effect is the store it returns.
*/
module Dispatch {
  import opened Bytes
  import opened Frames
  import opened Commands
  import opened Backend

  /** The shared `RESP_OK` reply, the simple string "OK". */
  const RESP_OK: Frame := SimpleString([79, 75])

  /**
    What the command code delegates to the backend without showing it: the
    replies of `hmget` and `sis_member`, and the order in which a hash's
    concurrent map lists its fields.
  */
  datatype Env = Env(
    hmget: (Store, Bytes, seq<Bytes>) -> Frame,
    sisMember: (Store, Bytes, Bytes) -> Frame,
    iteration: map<Bytes, Frame> -> seq<Bytes>)

  datatype Reply = Reply(frame: Frame, store: Store)

  /** The (field, value) pairs of `h` in the listed order; names `h` lacks are skipped. */
  function Snapshot(h: map<Bytes, Frame>, order: seq<Bytes>): (r: seq<Entry>)
    ensures |r| <= |order|
    ensures forall i :: 0 <= i < |r| ==> r[i].key in h && r[i].value == h[r[i].key]
  {
    if |order| == 0 then []
    else if order[0] in h then [Entry(order[0], h[order[0]])] + Snapshot(h, order[1..])
    else Snapshot(h, order[1..])
  }

  /** The pairs laid out as alternating BulkString(field) and value frames. */
  function Flatten(es: seq<Entry>): (r: seq<Frame>)
    ensures |r| == 2 * |es|
    ensures forall i :: 0 <= i < |es| ==> r[2 * i] == BulkString(es[i].key) && r[2 * i + 1] == es[i].value
  {
    if |es| == 0 then []
    else [BulkString(es[0].key), es[0].value] + Flatten(es[1..])
  }

  /**
    HGETALL on a present hash: the pairs in iteration order, sorted by field
    when asked to. Sorting distinct fields is inserting them into an ordered
    map, which is how the sort is expressed here.
  */
  function HGetAllReply(h: map<Bytes, Frame>, order: seq<Bytes>, sort: bool): Frame {
    var data := Snapshot(h, order);
    Array(Flatten(if sort then FromPairs(data) else data))
  }

  /** `CommandExecutor::execute` for every command. */
  function Execute(c: Command, st: Store, env: Env): (r: Reply)
    ensures !(c.Set? || c.HSet? || c.AddMember?) ==> r.store == st
    ensures c.Set? || c.HSet? || c.Unrecognized? ==> r.frame == RESP_OK
    ensures c.AddMember? ==> r.frame == Integer(1)
    ensures c.Echo? ==> r.frame == BulkString(c.message)
    ensures c.HGetAll? ==> r.frame.Array?
    ensures c.Get? ==> r.frame == (if c.key in st.strings then st.strings[c.key] else Null)
    ensures c.HGet? ==>
      r.frame == (if c.key in st.hashes && c.field in st.hashes[c.key] then st.hashes[c.key][c.field] else Null)
    ensures c.HGetAll? && c.key !in st.hashes ==> r.frame == Array([])
    ensures c.HMGet? ==> r.frame == env.hmget(st, c.key, c.fields)
    ensures c.SisMember? ==> r.frame == env.sisMember(st, c.key, c.member)
    ensures c.Set? ==> r.store == st.(strings := st.strings[c.key := c.value])
    ensures c.HSet? ==> r.store == st.(hashes := st.hashes[c.key := FieldsOf(st, c.key)[c.field := c.value]])
    ensures c.AddMember? ==> r.store == st.(sets := st.sets[c.key := MembersOf(st, c.key) + {c.member}])
  {
    match c
    case Get(k) => Reply(match GetString(st, k) case Some(v) => v case None => Null, st)
    case Set(k, v) => Reply(RESP_OK, SetString(st, k, v))
    case HGet(k, f) => Reply(match GetField(st, k, f) case Some(v) => v case None => Null, st)
    case HMGet(k, fs) => Reply(env.hmget(st, k, fs), st)
    case HSet(k, f, v) => Reply(RESP_OK, SetField(st, k, f, v))
    case HGetAll(k, sort) =>
      if k in st.hashes then
        var h := st.hashes[k];
        Reply(HGetAllReply(h, env.iteration(h), sort), st)
      else Reply(Array([]), st)
    case Unrecognized => Reply(RESP_OK, st)
    case Echo(m) => Reply(BulkString(m), st)
    case SisMember(k, m) => Reply(env.sisMember(st, k, m), st)
    case AddMember(k, m) => Reply(Integer(1), AddToSet(st, k, m))
  }
}
