/**
  Command parsing: an array frame becomes a typed command after a name
  lookup, an arity check, and BulkString and UTF-8 checks on its arguments.
  Strings are kept as their bytes; `String::from_utf8` accepts exactly the
  well-formed UTF-8 ones and leaves the bytes as they are.
*/
module Commands {
  import opened Bytes
  import opened Frames

  /** The parse errors; only the variant matters, not its message. */
  datatype CommandError = InvalidCommand | InvalidArgument | Utf8Error

  /** A parse step either yields a value or stops with the first error. */
  datatype Outcome<+T> = Accepted(value: T) | Rejected(error: CommandError)

  datatype Command =
    | Get(key: Bytes)
    | Set(key: Bytes, value: Frame)
    | HGet(key: Bytes, field: Bytes)
    | HMGet(key: Bytes, fields: seq<Bytes>)
    | HSet(key: Bytes, field: Bytes, value: Frame)
    | HGetAll(key: Bytes, sort: bool)
    | Unrecognized
    | Echo(message: Bytes)
    | SisMember(key: Bytes, member: Bytes)
    | AddMember(key: Bytes, member: Bytes)

  // The command table: the lower-case ASCII bytes the dispatch matches.
  const ECHO: Bytes := [101, 99, 104, 111]                           // "echo"
  const GET: Bytes := [103, 101, 116]                                // "get"
  const SET: Bytes := [115, 101, 116]                                // "set"
  const HGET: Bytes := [104, 103, 101, 116]                          // "hget"
  const HMGET: Bytes := [104, 109, 103, 101, 116]                    // "hmget"
  const HSET: Bytes := [104, 115, 101, 116]                          // "hset"
  const HGETALL: Bytes := [104, 103, 101, 116, 97, 108, 108]         // "hgetall"
  const ADDMEMBER: Bytes := [97, 100, 100, 109, 101, 109, 98, 101, 114]  // "addmember"
  const SISMEMBER: Bytes := [115, 105, 115, 109, 101, 109, 98, 101, 114] // "sismember"

  predicate KnownName(name: Bytes) {
    name in {ECHO, GET, SET, HGET, HMGET, HSET, HGETALL, ADDMEMBER, SISMEMBER}
  }

  /** `String::from_utf8`. */
  function FromUtf8(b: Bytes): (r: Outcome<Bytes>)
    ensures r.Accepted? <==> ValidUtf8(b)
    ensures r.Accepted? ==> r.value == b
    ensures r.Rejected? ==> r.error == Utf8Error
  {
    if ValidUtf8(b) then Accepted(b) else Rejected(Utf8Error)
  }

  // ---------------------------------------------------------------------
  // validate_command and extract_args

  /** Position `i` holds a BulkString whose ASCII-lowercased bytes are `name`. */
  predicate NameAt(frames: seq<Frame>, i: nat, name: Bytes)
    requires i < |frames|
  {
    frames[i].BulkString? && AsciiLower(frames[i].data) == name
  }

  /** The name positions from `i` on, checked in order. */
  function CheckNames(frames: seq<Frame>, names: seq<Bytes>, i: nat): (r: Outcome<()>)
    requires |names| <= |frames| && i <= |names|
    ensures r.Accepted? <==> forall j :: i <= j < |names| ==> NameAt(frames, j, names[j])
    ensures r.Rejected? ==> r.error == InvalidCommand
    decreases |names| - i
  {
    if i == |names| then Accepted(())
    else if !NameAt(frames, i, names[i]) then Rejected(InvalidCommand)
    else CheckNames(frames, names, i + 1)
  }

  /**
    `validate_command`: at least `|names| + argCount` elements, and each name
    position spells its name in any letter case.
  */
  function ValidateCommand(frames: seq<Frame>, names: seq<Bytes>, argCount: nat): (r: Outcome<()>)
    ensures r.Accepted? <==>
      |frames| >= |names| + argCount && forall j :: 0 <= j < |names| ==> NameAt(frames, j, names[j])
    ensures r.Rejected? ==> r.error == InvalidCommand
  {
    if |frames| < |names| + argCount then Rejected(InvalidCommand)
    else CheckNames(frames, names, 0)
  }

  /** `extract_args`: the elements after the first `start`, in order; it never fails. */
  function ExtractArgs(frames: seq<Frame>, start: nat): (r: seq<Frame>)
    ensures |r| == if start <= |frames| then |frames| - start else 0
    ensures forall i :: 0 <= i < |r| ==> r[i] == frames[start + i]
  {
    if start <= |frames| then frames[start..] else []
  }

  // ---------------------------------------------------------------------
  // String arguments

  /** `parse_string_arg`: a BulkString holding UTF-8 text. */
  function ParseStringArg(f: Frame): (r: Outcome<Bytes>)
    ensures r.Accepted? <==> f.BulkString? && ValidUtf8(f.data)
    ensures r.Accepted? ==> f == BulkString(r.value)
    ensures !f.BulkString? ==> r == Rejected(InvalidArgument)
    ensures f.BulkString? && !ValidUtf8(f.data) ==> r == Rejected(Utf8Error)
  {
    match f
    case BulkString(data) => FromUtf8(data)
    case _ => Rejected(InvalidArgument)
  }

  /**
    Every argument through `parse_string_arg`, collected in order; the first
    failing argument decides the error.
  */
  function ParseStringArgs(args: seq<Frame>): (r: Outcome<seq<Bytes>>)
    ensures r.Accepted? <==> forall i :: 0 <= i < |args| ==> ParseStringArg(args[i]).Accepted?
    ensures r.Accepted? ==> |r.value| == |args| && forall i :: 0 <= i < |args| ==> args[i] == BulkString(r.value[i])
    ensures r.Rejected? && (forall i :: 0 <= i < |args| ==> args[i].BulkString?) ==> r.error == Utf8Error
    decreases |args|
  {
    if |args| == 0 then Accepted([])
    else match ParseStringArg(args[0])
      case Rejected(e) => Rejected(e)
      case Accepted(head) =>
        match ParseStringArgs(args[1..])
        case Rejected(e) => Rejected(e)
        case Accepted(tail) => Accepted([head] + tail)
  }

  /** The arguments before `i` all convert and the one at `i` does not. */
  predicate FirstBadArg(args: seq<Frame>, i: nat)
    requires i < |args|
  {
    ParseStringArg(args[i]).Rejected? && forall j :: 0 <= j < i ==> ParseStringArg(args[j]).Accepted?
  }

  /** A failed collection reports the error of its first failing argument. */
  lemma {:induction false} StringArgsFirstError(args: seq<Frame>)
    requires ParseStringArgs(args).Rejected?
    ensures exists i ::
      0 <= i < |args| && FirstBadArg(args, i) && ParseStringArgs(args).error == ParseStringArg(args[i]).error
    decreases |args|
  {
    if ParseStringArg(args[0]).Rejected? {
      assert FirstBadArg(args, 0);
    } else {
      StringArgsFirstError(args[1..]);
      var i :| 0 <= i < |args[1..]| && FirstBadArg(args[1..], i) &&
        ParseStringArgs(args[1..]).error == ParseStringArg(args[1..][i]).error;
      assert args[1..][i] == args[i + 1];
      forall j | 0 <= j < i + 1 ensures ParseStringArg(args[j]).Accepted? {
        if j > 0 { assert args[j] == args[1..][j - 1]; }
      }
      assert FirstBadArg(args, i + 1);
    }
  }

  // ---------------------------------------------------------------------
  // The argument shape every command but HMGET shares

  /** The array names `name` at position 0 and holds at least `arity` arguments after it. */
  predicate Admits(frames: seq<Frame>, name: Bytes, arity: nat) {
    |frames| >= 1 + arity && NameAt(frames, 0, name)
  }

  /** Arguments 1 through `count` are all BulkStrings. */
  predicate BulkArgs(frames: seq<Frame>, count: nat)
    requires count < |frames|
  {
    forall i :: 1 <= i <= count ==> frames[i].BulkString?
  }

  /** Arguments 1 through `count` are all BulkStrings holding UTF-8 text. */
  predicate TextArgs(frames: seq<Frame>, count: nat)
    requires count < |frames|
  {
    forall i :: 1 <= i <= count ==> frames[i].BulkString? && ValidUtf8(frames[i].data)
  }

  /**
    `validate_command(value, &[name], arity)`, then the first `texts`
    arguments matched as BulkStrings (`shape` when one is not) and converted
    to strings in order.
  */
  function Leading(frames: seq<Frame>, name: Bytes, arity: nat, texts: nat, shape: CommandError): (r: Outcome<seq<Bytes>>)
    requires texts <= arity
    ensures r.Accepted? <==> Admits(frames, name, arity) && TextArgs(frames, texts)
    ensures r.Accepted? ==> |r.value| == texts && forall i :: 0 <= i < texts ==> frames[i + 1] == BulkString(r.value[i])
    ensures r.Rejected? && !Admits(frames, name, arity) ==> r.error == InvalidCommand
    ensures r.Rejected? && Admits(frames, name, arity) && !BulkArgs(frames, texts) ==> r.error == shape
    ensures r.Rejected? && Admits(frames, name, arity) && BulkArgs(frames, texts) ==> r.error == Utf8Error
  {
    match ValidateCommand(frames, [name], arity)
    case Rejected(e) => Rejected(e)
    case Accepted(_) =>
      var args := ExtractArgs(frames, 1)[..texts];
      if forall i :: 0 <= i < texts ==> args[i].BulkString? then
        var r := ParseStringArgs(args);
        assert r.Accepted? <==> TextArgs(frames, texts) by {
          assert forall i :: 0 <= i < texts ==> args[i] == frames[i + 1];
        }
        r
      else
        assert !BulkArgs(frames, texts) by {
          var i :| 0 <= i < texts && !args[i].BulkString?;
          assert args[i] == frames[i + 1];
        }
        Rejected(shape)
  }

  // ---------------------------------------------------------------------
  // One parser per command

  function ParseEcho(frames: seq<Frame>): (r: Outcome<Command>)
    ensures r.Accepted? <==> Admits(frames, ECHO, 1) && TextArgs(frames, 1)
    ensures r.Accepted? ==> r.value == Echo(frames[1].data)
    ensures !Admits(frames, ECHO, 1) ==> r == Rejected(InvalidCommand)
    ensures Admits(frames, ECHO, 1) && !BulkArgs(frames, 1) ==> r == Rejected(InvalidCommand)
    ensures Admits(frames, ECHO, 1) && BulkArgs(frames, 1) && !TextArgs(frames, 1) ==> r == Rejected(Utf8Error)
  {
    match Leading(frames, ECHO, 1, 1, InvalidCommand)
    case Rejected(e) => Rejected(e)
    case Accepted(t) => Accepted(Echo(t[0]))
  }

  function ParseGet(frames: seq<Frame>): (r: Outcome<Command>)
    ensures r.Accepted? <==> Admits(frames, GET, 1) && TextArgs(frames, 1)
    ensures r.Accepted? ==> r.value == Get(frames[1].data)
    ensures !Admits(frames, GET, 1) ==> r == Rejected(InvalidCommand)
    ensures Admits(frames, GET, 1) && !BulkArgs(frames, 1) ==> r == Rejected(InvalidArgument)
    ensures Admits(frames, GET, 1) && BulkArgs(frames, 1) && !TextArgs(frames, 1) ==> r == Rejected(Utf8Error)
  {
    match Leading(frames, GET, 1, 1, InvalidArgument)
    case Rejected(e) => Rejected(e)
    case Accepted(t) => Accepted(Get(t[0]))
  }

  function ParseSet(frames: seq<Frame>): (r: Outcome<Command>)
    ensures r.Accepted? <==> Admits(frames, SET, 2) && TextArgs(frames, 1)
    ensures r.Accepted? ==> r.value == Command.Set(frames[1].data, frames[2])
    ensures !Admits(frames, SET, 2) ==> r == Rejected(InvalidCommand)
    ensures Admits(frames, SET, 2) && !BulkArgs(frames, 1) ==> r == Rejected(InvalidArgument)
    ensures Admits(frames, SET, 2) && BulkArgs(frames, 1) && !TextArgs(frames, 1) ==> r == Rejected(Utf8Error)
  {
    match Leading(frames, SET, 2, 1, InvalidArgument)
    case Rejected(e) => Rejected(e)
    case Accepted(t) => Accepted(Command.Set(t[0], frames[2]))
  }

  function ParseHGet(frames: seq<Frame>): (r: Outcome<Command>)
    ensures r.Accepted? <==> Admits(frames, HGET, 2) && TextArgs(frames, 2)
    ensures r.Accepted? ==> r.value == HGet(frames[1].data, frames[2].data)
    ensures !Admits(frames, HGET, 2) ==> r == Rejected(InvalidCommand)
    ensures Admits(frames, HGET, 2) && !BulkArgs(frames, 2) ==> r == Rejected(InvalidArgument)
    ensures Admits(frames, HGET, 2) && BulkArgs(frames, 2) && !TextArgs(frames, 2) ==> r == Rejected(Utf8Error)
  {
    match Leading(frames, HGET, 2, 2, InvalidArgument)
    case Rejected(e) => Rejected(e)
    case Accepted(t) => Accepted(HGet(t[0], t[1]))
  }

  /** HMGET: a key and at least one field, every one a UTF-8 BulkString. */
  function ParseHMGet(frames: seq<Frame>): (r: Outcome<Command>)
    ensures r.Accepted? <==>
      Admits(frames, HMGET, 2) && forall i :: 1 <= i < |frames| ==> ParseStringArg(frames[i]).Accepted?
    ensures r.Accepted? ==>
      r.value.HMGet? && frames[1] == BulkString(r.value.key) &&
      |r.value.fields| == |frames| - 2 &&
      forall i :: 0 <= i < |r.value.fields| ==> frames[i + 2] == BulkString(r.value.fields[i])
    ensures !Admits(frames, HMGET, 2) ==> r == Rejected(InvalidCommand)
    ensures Admits(frames, HMGET, 2) && r.Rejected? ==>
      exists i :: 0 <= i < |frames| - 1 && FirstBadArg(frames[1..], i) && r.error == ParseStringArg(frames[1..][i]).error
  {
    match ValidateCommand(frames, [HMGET], 2)
    case Rejected(e) => Rejected(e)
    case Accepted(_) =>
      var args := ExtractArgs(frames, 1);
      if |args| < 2 then Rejected(InvalidArgument)
      else match ParseStringArg(args[0])
        case Rejected(e) =>
          assert FirstBadArg(args, 0);
          Rejected(e)
        case Accepted(key) =>
          match ParseStringArgs(args[1..])
          case Rejected(e) =>
            FieldsFirstError(args);
            assert !forall i :: 1 <= i < |frames| ==> ParseStringArg(frames[i]).Accepted? by {
              var i :| 0 <= i < |args[1..]| && !ParseStringArg(args[1..][i]).Accepted?;
              assert args[1..][i] == frames[i + 2];
            }
            Rejected(e)
          case Accepted(fields) =>
            assert forall i :: 1 <= i < |frames| ==> ParseStringArg(frames[i]).Accepted? by {
              forall i | 1 <= i < |frames| ensures ParseStringArg(frames[i]).Accepted? {
                if i > 1 { assert frames[i] == args[1..][i - 2]; }
              }
            }
            assert forall i :: 0 <= i < |fields| ==> frames[i + 2] == args[1..][i];
            Accepted(HMGet(key, fields))
  }

  /**
    Once the key converts, the first failing field is the first failing
    argument after the name, and its error is the error of the fields.
  */
  lemma FieldsFirstError(args: seq<Frame>)
    requires |args| > 0 && ParseStringArg(args[0]).Accepted? && ParseStringArgs(args[1..]).Rejected?
    ensures exists i ::
      0 <= i < |args| && FirstBadArg(args, i) && ParseStringArgs(args[1..]).error == ParseStringArg(args[i]).error
  {
    StringArgsFirstError(args[1..]);
    var j :| 0 <= j < |args[1..]| && FirstBadArg(args[1..], j) &&
      ParseStringArgs(args[1..]).error == ParseStringArg(args[1..][j]).error;
    forall m | 0 <= m < j + 1 ensures ParseStringArg(args[m]).Accepted? {
      if m > 0 { assert args[m] == args[1..][m - 1]; }
    }
    assert FirstBadArg(args, j + 1);
  }

  /** HGETALL: the parsed command never asks for sorted output. */
  function ParseHGetAll(frames: seq<Frame>): (r: Outcome<Command>)
    ensures r.Accepted? <==> Admits(frames, HGETALL, 1) && TextArgs(frames, 1)
    ensures r.Accepted? ==> r.value == HGetAll(frames[1].data, false)
    ensures !Admits(frames, HGETALL, 1) ==> r == Rejected(InvalidCommand)
    ensures Admits(frames, HGETALL, 1) && !BulkArgs(frames, 1) ==> r == Rejected(InvalidArgument)
    ensures Admits(frames, HGETALL, 1) && BulkArgs(frames, 1) && !TextArgs(frames, 1) ==> r == Rejected(Utf8Error)
  {
    match Leading(frames, HGETALL, 1, 1, InvalidArgument)
    case Rejected(e) => Rejected(e)
    case Accepted(t) => Accepted(HGetAll(t[0], false))
  }

  /** HSET: the value argument is kept as whatever frame it is. */
  function ParseHSet(frames: seq<Frame>): (r: Outcome<Command>)
    ensures r.Accepted? <==> Admits(frames, HSET, 3) && TextArgs(frames, 2)
    ensures r.Accepted? ==> r.value == HSet(frames[1].data, frames[2].data, frames[3])
    ensures !Admits(frames, HSET, 3) ==> r == Rejected(InvalidCommand)
    ensures Admits(frames, HSET, 3) && !BulkArgs(frames, 2) ==> r == Rejected(InvalidArgument)
    ensures Admits(frames, HSET, 3) && BulkArgs(frames, 2) && !TextArgs(frames, 2) ==> r == Rejected(Utf8Error)
  {
    match Leading(frames, HSET, 3, 2, InvalidArgument)
    case Rejected(e) => Rejected(e)
    case Accepted(t) => Accepted(HSet(t[0], t[1], frames[3]))
  }

  function ParseAddMember(frames: seq<Frame>): (r: Outcome<Command>)
    ensures r.Accepted? <==> Admits(frames, ADDMEMBER, 2) && TextArgs(frames, 2)
    ensures r.Accepted? ==> r.value == AddMember(frames[1].data, frames[2].data)
    ensures !(Admits(frames, ADDMEMBER, 2) && BulkArgs(frames, 2)) ==> r == Rejected(InvalidCommand)
    ensures Admits(frames, ADDMEMBER, 2) && BulkArgs(frames, 2) && !TextArgs(frames, 2) ==> r == Rejected(Utf8Error)
  {
    match Leading(frames, ADDMEMBER, 2, 2, InvalidCommand)
    case Rejected(e) => Rejected(e)
    case Accepted(t) => Accepted(AddMember(t[0], t[1]))
  }

  function ParseSisMember(frames: seq<Frame>): (r: Outcome<Command>)
    ensures r.Accepted? <==> Admits(frames, SISMEMBER, 2) && TextArgs(frames, 2)
    ensures r.Accepted? ==> r.value == SisMember(frames[1].data, frames[2].data)
    ensures !(Admits(frames, SISMEMBER, 2) && BulkArgs(frames, 2)) ==> r == Rejected(InvalidCommand)
    ensures Admits(frames, SISMEMBER, 2) && BulkArgs(frames, 2) && !TextArgs(frames, 2) ==> r == Rejected(Utf8Error)
  {
    match Leading(frames, SISMEMBER, 2, 2, InvalidCommand)
    case Rejected(e) => Rejected(e)
    case Accepted(t) => Accepted(SisMember(t[0], t[1]))
  }

  // ---------------------------------------------------------------------
  // Command::try_from

  /** `TryFrom<RespArray>`: an exact, case-sensitive match on the first element's bytes. */
  function FromArray(frames: seq<Frame>): (r: Outcome<Command>)
    ensures |frames| == 0 || !frames[0].BulkString? ==> r == Rejected(InvalidCommand)
    ensures |frames| > 0 && frames[0].BulkString? && !KnownName(frames[0].data) ==> r == Accepted(Unrecognized)
    ensures |frames| > 0 && frames[0] == BulkString(ECHO) ==> r == ParseEcho(frames)
    ensures |frames| > 0 && frames[0] == BulkString(GET) ==> r == ParseGet(frames)
    ensures |frames| > 0 && frames[0] == BulkString(SET) ==> r == ParseSet(frames)
    ensures |frames| > 0 && frames[0] == BulkString(HGET) ==> r == ParseHGet(frames)
    ensures |frames| > 0 && frames[0] == BulkString(HMGET) ==> r == ParseHMGet(frames)
    ensures |frames| > 0 && frames[0] == BulkString(HSET) ==> r == ParseHSet(frames)
    ensures |frames| > 0 && frames[0] == BulkString(HGETALL) ==> r == ParseHGetAll(frames)
    ensures |frames| > 0 && frames[0] == BulkString(ADDMEMBER) ==> r == ParseAddMember(frames)
    ensures |frames| > 0 && frames[0] == BulkString(SISMEMBER) ==> r == ParseSisMember(frames)
  {
    if |frames| == 0 || !frames[0].BulkString? then Rejected(InvalidCommand)
    else
      var name := frames[0].data;
      if name == ECHO then ParseEcho(frames)
      else if name == GET then ParseGet(frames)
      else if name == SET then ParseSet(frames)
      else if name == HGET then ParseHGet(frames)
      else if name == HMGET then ParseHMGet(frames)
      else if name == HSET then ParseHSet(frames)
      else if name == HGETALL then ParseHGetAll(frames)
      else if name == ADDMEMBER then ParseAddMember(frames)
      else if name == SISMEMBER then ParseSisMember(frames)
      else Accepted(Unrecognized)
  }

  /** `TryFrom<RespFrame>`: only an array can be a command. */
  function FromFrame(f: Frame): (r: Outcome<Command>)
    ensures !f.Array? ==> r == Rejected(InvalidCommand)
    ensures f.Array? && |f.items| == 0 ==> r == Rejected(InvalidCommand)
    ensures f.Array? ==> r == FromArray(f.items)
  {
    match f
    case Array(items) => FromArray(items)
    case _ => Rejected(InvalidCommand)
  }
}
