/**
  Properties of command parsing: every command a client can send comes back
  from its wire form, unknown names are accepted as `Unrecognized`, and
  arguments past the ones a command reads change nothing.
*/
module CommandProps {
  import opened Bytes
  import opened Frames
  import opened Commands

  /** Bytes with no upper-case ASCII letter are their own lower-case form. */
  lemma LowerOfLower(s: Bytes)
    requires forall i :: 0 <= i < |s| ==> !(65 <= s[i] <= 90)
    ensures AsciiLower(s) == s
  {
  }

  /** The names of the table are lower case, so `validate_command` accepts them as sent. */
  lemma NamesAreLowerCase(name: Bytes)
    requires KnownName(name)
    ensures AsciiLower(name) == name
  {
    LowerOfLower(name);
  }

  // ---------------------------------------------------------------------
  // The wire form of a command

  function Bulks(texts: seq<Bytes>): (r: seq<Frame>)
    ensures |r| == |texts|
    ensures forall i :: 0 <= i < |texts| ==> r[i] == BulkString(texts[i])
  {
    seq(|texts|, i requires 0 <= i < |texts| => BulkString(texts[i]))
  }

  /**
    The array a client sends for `c`: its name and its arguments as
    BulkStrings, raw values as they are. `Unrecognized` is sent under the
    empty name, which names no command.
  */
  function Render(c: Command): Frame {
    match c
    case Get(k) => Array(Bulks([GET, k]))
    case Set(k, v) => Array(Bulks([SET, k]) + [v])
    case HGet(k, f) => Array(Bulks([HGET, k, f]))
    case HMGet(k, fs) => Array(Bulks([HMGET, k] + fs))
    case HSet(k, f, v) => Array(Bulks([HSET, k, f]) + [v])
    case HGetAll(k, _) => Array(Bulks([HGETALL, k]))
    case Unrecognized => Array(Bulks([[]]))
    case Echo(m) => Array(Bulks([ECHO, m]))
    case SisMember(k, m) => Array(Bulks([SISMEMBER, k, m]))
    case AddMember(k, m) => Array(Bulks([ADDMEMBER, k, m]))
  }

  /**
    The commands a wire array can produce: text arguments are UTF-8, HMGET
    names at least one field, and HGETALL never asks for sorting.
  */
  predicate Sendable(c: Command) {
    match c
    case Get(k) => ValidUtf8(k)
    case Set(k, _) => ValidUtf8(k)
    case HGet(k, f) => ValidUtf8(k) && ValidUtf8(f)
    case HMGet(k, fs) => ValidUtf8(k) && |fs| > 0 && forall i :: 0 <= i < |fs| ==> ValidUtf8(fs[i])
    case HSet(k, f, _) => ValidUtf8(k) && ValidUtf8(f)
    case HGetAll(k, sort) => ValidUtf8(k) && !sort
    case Unrecognized => true
    case Echo(m) => ValidUtf8(m)
    case SisMember(k, m) => ValidUtf8(k) && ValidUtf8(m)
    case AddMember(k, m) => ValidUtf8(k) && ValidUtf8(m)
  }

  /** Parsing the wire form of a sendable command gives the command back. */
  lemma ParseRender(c: Command)
    requires Sendable(c)
    ensures FromFrame(Render(c)) == Accepted(c)
  {
    if c.HMGet? {
      ParseRenderHMGet(c.key, c.fields);
    } else if c.Set? || c.HSet? {
      ParseRenderValue(c);
    } else {
      ParseRenderText(c);
    }
  }

  lemma ParseRenderText(c: Command)
    requires Sendable(c) && !c.HMGet? && !c.Set? && !c.HSet?
    ensures FromFrame(Render(c)) == Accepted(c)
  {
    var items := Render(c).items;
    if !c.Unrecognized? {
      NamesAreLowerCase(items[0].data);
      assert NameAt(items, 0, items[0].data);
    }
  }

  lemma ParseRenderValue(c: Command)
    requires Sendable(c) && (c.Set? || c.HSet?)
    ensures FromFrame(Render(c)) == Accepted(c)
  {
    var items := Render(c).items;
    NamesAreLowerCase(items[0].data);
    assert NameAt(items, 0, items[0].data);
  }

  lemma ParseRenderHMGet(k: Bytes, fs: seq<Bytes>)
    requires Sendable(HMGet(k, fs))
    ensures FromFrame(Render(HMGet(k, fs))) == Accepted(HMGet(k, fs))
  {
    var items := Render(HMGet(k, fs)).items;
    NamesAreLowerCase(HMGET);
    assert NameAt(items, 0, HMGET);
    assert forall i :: 2 <= i < |items| ==> items[i] == BulkString(fs[i - 2]);
    assert forall i :: 1 <= i < |items| ==> ParseStringArg(items[i]).Accepted?;
    var r := ParseHMGet(items);
    assert r.Accepted?;
    assert r.value.fields == fs;
  }

  // ---------------------------------------------------------------------
  // Unknown names

  /** The parse yields `Unrecognized` exactly when the name is a BulkString outside the table. */
  lemma UnrecognizedIff(frames: seq<Frame>)
    ensures FromArray(frames) == Accepted(Unrecognized) <==>
      |frames| > 0 && frames[0].BulkString? && !KnownName(frames[0].data)
  {
  }

  /** The table match is case-sensitive: `GET` is not `get`. */
  lemma UpperCaseIsUnrecognized(key: Bytes)
    ensures FromArray([BulkString(Ascii("GET")), BulkString(key)]) == Accepted(Unrecognized)
  {
    assert Ascii("GET") == [71, 69, 84];
    assert !KnownName([71, 69, 84]);
  }

  // ---------------------------------------------------------------------
  // Trailing arguments

  /**
    Arguments after the ones a command reads are ignored, for every command
    but HMGET, whose trailing arguments are all fields.
  */
  lemma ExtraArgsIgnored(frames: seq<Frame>, more: seq<Frame>)
    requires FromArray(frames).Accepted? && !FromArray(frames).value.HMGet?
    ensures FromArray(frames + more) == FromArray(frames)
  {
    var all := frames + more;
    assert forall i :: 0 <= i < |frames| ==> all[i] == frames[i];
  }

  /** Trailing arguments of HMGET become further fields, in wire order. */
  lemma ExtraFields(key: Bytes, fields: seq<Bytes>, more: seq<Bytes>)
    requires Sendable(HMGet(key, fields))
    requires forall i :: 0 <= i < |more| ==> ValidUtf8(more[i])
    ensures FromFrame(Array(Render(HMGet(key, fields)).items + Bulks(more))) == Accepted(HMGet(key, fields + more))
  {
    var c := HMGet(key, fields + more);
    assert Render(HMGet(key, fields)).items + Bulks(more) == Render(c).items;
    ParseRender(c);
  }
}
