/** The byte buffer under the codecs (lib/sc/sc_buf.c). Reading is a cursor over bytes: what lies
    behind it, what lies ahead, and whether a read has failed, which sticks. */
module Buf {
  import opened Entry
  import opened Basics

  /** A C string, or none. */
  type Str = Option<seq<byte>>

  datatype In = In(behind: seq<byte>, ahead: seq<byte>, ok: bool)

  /** sc_buf_get_8, _32 and _64: `n` bytes, least significant first; zero when they are not there. */
  function Get(s: In, n: nat): (nat, In) {
    if n > |s.ahead| then (0, s.(ok := false))
    else (Value(s.ahead[..n]), In(s.behind + s.ahead[..n], s.ahead[n..], s.ok))
  }

  /** sc_buf_get_bool. */
  function GetBool(s: In): (bool, In) {
    var r := Get(s, 1);
    (r.0 != 0, r.1)
  }

  /** The C string that starts here: the bytes up to the first zero. */
  function CString(s: seq<byte>): seq<byte> {
    if s == [] || s[0] == 0 then [] else [s[0]] + CString(s[1..])
  }

  /** Where a cursor moved to position `pos` of all its bytes stands. */
  function MoveTo(s: In, pos: nat): In {
    var all := s.behind + s.ahead;
    if pos <= |all| then In(all[..pos], all[pos..], s.ok) else s
  }

  /** sc_buf_get_str; positions are 32-bit. */
  function GetStr(s: In): (Str, In) {
    var (len, t) := Get(s, 4);
    var pos := (|t.behind| + len + 1) % U32;
    if len == U32 - 1 then (None, t)
    else if pos > |t.behind| + |t.ahead| then (None, t.(ok := false))
    else (Some(CString(t.ahead)), MoveTo(t, pos))
  }

  /** What is left, taken as it is. */
  function GetRest(s: In): (seq<byte>, In) {
    (s.ahead, In(s.behind + s.ahead, [], s.ok))
  }

  /** sc_buf_put_bool and sc_buf_put_str. */
  function PutBool(b: bool): seq<byte> {
    Le(if b then 1 else 0, 1)
  }

  function PutStr(s: Str): seq<byte> {
    if s.None? then Le(U32 - 1, 4) else Le(|s.value|, 4) + (s.value + [0])
  }

  /** A string as C has them: no zero inside, and a length that is not the mark of a missing one. */
  ghost predicate Proper(s: Str) {
    s.Some? ==> |s.value| < U32 - 1 && forall i :: 0 <= i < |s.value| ==> s.value[i] != 0
  }

  lemma GetPut(b: seq<byte>, x: nat, n: nat, rest: seq<byte>)
    requires x < Pow256(n)
    ensures Get(In(b, Le(x, n) + rest, true), n) == (x, In(b + Le(x, n), rest, true))
  {
    hide Le, Value;
    var a := Le(x, n) + rest;
    assert a[..n] == Le(x, n) && a[n..] == rest;
    LeValue(x, n);
  }

  lemma GetPutBool(b: seq<byte>, x: bool, rest: seq<byte>)
    ensures GetBool(In(b, PutBool(x) + rest, true)) == (x, In(b + PutBool(x), rest, true))
  {
    hide Le, Get;
    PowSizes();
    GetPut(b, if x then 1 else 0, 1, rest);
  }

  lemma {:induction false} CStringOf(s: seq<byte>, rest: seq<byte>)
    requires forall i :: 0 <= i < |s| ==> s[i] != 0
    ensures CString(s + ([0] + rest)) == s
  {
    if s == [] {
      assert s + ([0] + rest) == [0] + rest;
    } else {
      CStringOf(s[1..], rest);
      assert (s + ([0] + rest))[1..] == s[1..] + ([0] + rest);
    }
  }

  lemma GetPutStr(b: seq<byte>, x: Str, rest: seq<byte>)
    requires Proper(x) && |b| + |PutStr(x)| + |rest| < U32
    ensures GetStr(In(b, PutStr(x) + rest, true)) == (x, In(b + PutStr(x), rest, true))
  {
    hide Le, Get, CString;
    PowSizes();
    if x.None? {
      GetPut(b, U32 - 1, 4, rest);
    } else {
      var s, tail := x.value, x.value + ([0] + rest);
      assert PutStr(x) + rest == Le(|s|, 4) + tail;
      GetPut(b, |s|, 4, tail);
      CStringOf(s, rest);
      var t := In(b + Le(|s|, 4), tail, true);
      var all := t.behind + t.ahead;
      assert all == (b + PutStr(x)) + rest;
      assert |b + PutStr(x)| == |t.behind| + |s| + 1;
    }
  }
}
