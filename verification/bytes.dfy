/**
  Raw bytes as they travel on the wire, the CRLF line terminator, the ASCII
  letters the protocol and the command table use, and UTF-8 well-formedness
  (what `String::from_utf8` accepts).
*/
module Bytes {

  datatype Option<+T> = None | Some(value: T)

  newtype byte = x: int | 0 <= x < 256

  type Bytes = seq<byte>

  const CR: byte := 13
  const LF: byte := 10
  const CRLF: Bytes := [CR, LF]

  /** The bytes of an ASCII string literal. */
  function Ascii(s: string): (r: Bytes)
    requires forall i :: 0 <= i < |s| ==> s[i] as int < 128
    ensures |r| == |s|
    ensures forall i :: 0 <= i < |s| ==> r[i] as int == s[i] as int
  {
    if |s| == 0 then [] else [s[0] as int as byte] + Ascii(s[1..])
  }

  /** A CR immediately followed by an LF starts at index `i`. */
  predicate IsCrlfAt(s: Bytes, i: int) {
    0 <= i && i + 1 < |s| && s[i] == CR && s[i + 1] == LF
  }

  /** No CRLF starts anywhere in `s`. */
  predicate NoCrlf(s: Bytes) {
    forall i :: 0 <= i < |s| ==> !IsCrlfAt(s, i)
  }

  /** `s` contains neither a CR nor an LF byte. */
  predicate NoLineBreak(s: Bytes) {
    forall i :: 0 <= i < |s| ==> s[i] != CR && s[i] != LF
  }

  /** `end` is the first CRLF of `s` at or after index `from`. */
  predicate FirstCrlfFrom(s: Bytes, from: nat, end: nat) {
    from <= end && IsCrlfAt(s, end) && forall j :: from <= j < end ==> !IsCrlfAt(s, j)
  }

  /** Index of the first CRLF at or after `from`, if any (`FindCrlfSpec` says which). */
  function FindCrlf(s: Bytes, from: nat): (r: Option<nat>)
    ensures r.Some? ==> from <= r.value && IsCrlfAt(s, r.value)
    decreases |s| - from
  {
    if from + 1 >= |s| then None
    else if IsCrlfAt(s, from) then Some(from)
    else FindCrlf(s, from + 1)
  }

  /**
    `FindCrlf` finds a CRLF exactly when there is one at or after `from`, and
    the one it finds is the first.
  */
  lemma {:induction false} FindCrlfSpec(s: Bytes, from: nat)
    ensures FindCrlf(s, from).Some? <==> exists j :: from <= j && IsCrlfAt(s, j)
    ensures FindCrlf(s, from).Some? ==> FirstCrlfFrom(s, from, FindCrlf(s, from).value)
    decreases |s| - from
  {
    if from + 1 < |s| && !IsCrlfAt(s, from) {
      FindCrlfSpec(s, from + 1);
      if exists j :: from <= j && IsCrlfAt(s, j) {
        var j :| from <= j && IsCrlfAt(s, j);
        assert j != from;
      }
    }
  }

  /** First index at or after `from` holding a CR or an LF, or `|s|`. */
  function FindLineBreak(s: Bytes, from: nat): (r: nat)
    requires from <= |s|
    ensures from <= r <= |s|
    ensures r < |s| ==> s[r] == CR || s[r] == LF
    ensures forall j :: from <= j < r ==> s[j] != CR && s[j] != LF
    decreases |s| - from
  {
    if from == |s| || s[from] == CR || s[from] == LF then from
    else FindLineBreak(s, from + 1)
  }

  lemma NoLineBreakNoCrlf(s: Bytes)
    requires NoLineBreak(s)
    ensures NoCrlf(s)
  {
    forall i | 0 <= i < |s| ensures !IsCrlfAt(s, i) {
      assert s[i] != CR;
    }
  }

  /**
    When `pre` holds no CRLF from `head` on, the first CRLF of
    `pre + CRLF + tail` from `head` is the appended one.
  */
  lemma FirstCrlfOf(pre: Bytes, tail: Bytes, head: nat)
    requires head <= |pre|
    requires forall i :: head <= i < |pre| ==> !IsCrlfAt(pre, i)
    ensures FirstCrlfFrom(pre + CRLF + tail, head, |pre|)
    ensures FindCrlf(pre + CRLF + tail, head) == Some(|pre|)
  {
    var s := pre + CRLF + tail;
    FindCrlfSpec(s, head);
    forall j | head <= j < |pre| ensures !IsCrlfAt(s, j) {
      if j + 1 < |pre| {
        assert !IsCrlfAt(pre, j);
      } else {
        assert s[j + 1] == CR;
      }
    }
    assert IsCrlfAt(s, |pre|);
  }

  /** A prefix byte followed by a CRLF-free body holds no CRLF after the prefix. */
  lemma NoCrlfAfterPrefix(p: byte, body: Bytes)
    requires NoCrlf(body)
    ensures forall i :: 1 <= i < |[p] + body| ==> !IsCrlfAt([p] + body, i)
  {
    forall i | 1 <= i < |[p] + body| ensures !IsCrlfAt([p] + body, i) {
      if IsCrlfAt([p] + body, i) {
        assert IsCrlfAt(body, i - 1);
      }
    }
  }

  // ---------------------------------------------------------------------
  // ASCII case folding

  function LowerByte(b: byte): (r: byte)
    ensures 65 <= b <= 90 ==> r == b + 32
    ensures !(65 <= b <= 90) ==> r == b
  {
    if 65 <= b <= 90 then b + 32 else b
  }

  /** `<[u8]>::to_ascii_lowercase`: maps 'A'..'Z' to 'a'..'z', keeps every other byte. */
  function AsciiLower(s: Bytes): (r: Bytes)
    ensures |r| == |s|
    ensures forall i :: 0 <= i < |s| ==> r[i] == LowerByte(s[i])
  {
    seq(|s|, i requires 0 <= i < |s| => LowerByte(s[i]))
  }

  // ---------------------------------------------------------------------
  // UTF-8 well-formedness (Unicode Standard, Table 3-7)

  predicate InRange(b: byte, lo: int, hi: int) {
    lo <= b as int <= hi
  }

  predicate Continuation(b: byte) {
    InRange(b, 0x80, 0xBF)
  }

  /**
    Length of the well-formed UTF-8 sequence that starts `s`, or 0 when the
    first bytes of `s` are not one.
  */
  function ScalarLength(s: Bytes): (n: nat)
    requires |s| > 0
    ensures n <= |s| && n <= 4
  {
    var b := s[0];
    if b < 0x80 then 1
    else if InRange(b, 0xC2, 0xDF) then
      (if |s| >= 2 && Continuation(s[1]) then 2 else 0)
    else if InRange(b, 0xE0, 0xEF) then
      (if |s| >= 3 && Continuation(s[2]) &&
          (if b == 0xE0 then InRange(s[1], 0xA0, 0xBF)
           else if b == 0xED then InRange(s[1], 0x80, 0x9F)
           else Continuation(s[1]))
       then 3 else 0)
    else if InRange(b, 0xF0, 0xF4) then
      (if |s| >= 4 && Continuation(s[2]) && Continuation(s[3]) &&
          (if b == 0xF0 then InRange(s[1], 0x90, 0xBF)
           else if b == 0xF4 then InRange(s[1], 0x80, 0x8F)
           else Continuation(s[1]))
       then 4 else 0)
    else 0
  }

  /** `s` is a sequence of well-formed UTF-8 scalar encodings. */
  predicate ValidUtf8(s: Bytes)
    decreases |s|
  {
    |s| == 0 || (var n := ScalarLength(s); n > 0 && ValidUtf8(s[n..]))
  }

  /** Every 7-bit ASCII byte string is valid UTF-8. */
  lemma {:induction false} AsciiIsUtf8(s: Bytes)
    requires forall i :: 0 <= i < |s| ==> s[i] < 0x80
    ensures ValidUtf8(s)
    decreases |s|
  {
    if |s| > 0 {
      assert ScalarLength(s) == 1;
      AsciiIsUtf8(s[1..]);
    }
  }
}
