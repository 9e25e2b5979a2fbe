/** Messages on the wire (src/msg.c): a 32-bit length, a type byte and the fields. */
module Message {
  import opened Entry
  import opened Basics
  import opened Buf

  const MAX_MESSAGE := 2_000_000_000  // MSG_MAX_SIZE
  const FIXED := 5                    // MSG_FIXED_LEN

  datatype Msg =
    | ConnectReq(flags: nat, protocol: Str, cluster: Str, name: Str)
    | ConnectResp(rc: nat, sequence: nat, term: nat, nodes: Str)
    | DisconnectReq(rc: nat, flags: nat)
    | DisconnectResp(rc: nat, flags: nat)
    | ClientReq(readonly: bool, sequence: nat, buf: seq<byte>)
    | ClientResp(buf: seq<byte>)
    | AppendReq(term: nat, prevIndex: nat, prevTerm: nat, commit: nat, round: nat, buf: seq<byte>)
    | AppendResp(term: nat, index: nat, round: nat, success: bool)
    | PrevoteReq(term: nat, lastTerm: nat, lastIndex: nat)
    | PrevoteResp(term: nat, index: nat, granted: bool)
    | ReqvoteReq(term: nat, lastTerm: nat, lastIndex: nat)
    | ReqvoteResp(term: nat, index: nat, granted: bool)
    | SnapshotReq(term: nat, round: nat, ssTerm: nat, ssIndex: nat, offset: nat, done: bool, buf: seq<byte>)
    | SnapshotResp(term: nat, round: nat, success: bool, done: bool)
    | InfoReq(buf: seq<byte>)
    | ShutdownReq(now: bool)
    | Unknown(type_: nat)

  function TypeOf(m: Msg): nat {
    match m
    case ConnectReq(_, _, _, _) => 0
    case ConnectResp(_, _, _, _) => 1
    case DisconnectReq(_, _) => 2
    case DisconnectResp(_, _) => 3
    case ClientReq(_, _, _) => 4
    case ClientResp(_) => 5
    case AppendReq(_, _, _, _, _, _) => 6
    case AppendResp(_, _, _, _) => 7
    case PrevoteReq(_, _, _) => 8
    case PrevoteResp(_, _, _) => 9
    case ReqvoteReq(_, _, _) => 10
    case ReqvoteResp(_, _, _) => 11
    case SnapshotReq(_, _, _, _, _, _, _) => 12
    case SnapshotResp(_, _, _, _) => 13
    case InfoReq(_) => 14
    case ShutdownReq(_) => 15
    case Unknown(t) => t
  }

  /** The fields in the order the msg_create functions put them. */
  function Body(m: Msg): seq<byte> {
    match m
    case ConnectReq(flags, protocol, cluster, name) =>
      Le(flags, 4) + (PutStr(protocol) + (PutStr(cluster) + (PutStr(name) + [])))
    case ConnectResp(rc, sequence, term, nodes) => Le(rc, 1) + (Le(sequence, 8) + (Le(term, 8) + (PutStr(nodes) + [])))
    case DisconnectReq(rc, flags) => Le(rc, 1) + (Le(flags, 4) + [])
    case DisconnectResp(rc, flags) => Le(rc, 1) + (Le(flags, 4) + [])
    case ClientReq(readonly, sequence, buf) => PutBool(readonly) + (Le(sequence, 8) + buf)
    case ClientResp(buf) => buf
    case AppendReq(term, prevIndex, prevTerm, commit, round, buf) =>
      Le(term, 8) + (Le(prevIndex, 8) + (Le(prevTerm, 8) + (Le(commit, 8) + (Le(round, 8) + buf))))
    case AppendResp(term, index, round, success) =>
      Le(term, 8) + (Le(index, 8) + (Le(round, 8) + (PutBool(success) + [])))
    case PrevoteReq(term, lastTerm, lastIndex) => Le(term, 8) + (Le(lastTerm, 8) + (Le(lastIndex, 8) + []))
    case PrevoteResp(term, index, granted) => Le(term, 8) + (Le(index, 8) + (PutBool(granted) + []))
    case ReqvoteReq(term, lastTerm, lastIndex) => Le(term, 8) + (Le(lastTerm, 8) + (Le(lastIndex, 8) + []))
    case ReqvoteResp(term, index, granted) => Le(term, 8) + (Le(index, 8) + (PutBool(granted) + []))
    case SnapshotReq(term, round, ssTerm, ssIndex, offset, done, buf) =>
      Le(term, 8) + (Le(round, 8) + (Le(ssTerm, 8) + (Le(ssIndex, 8) + (Le(offset, 8) + (PutBool(done) + buf)))))
    case SnapshotResp(term, round, success, done) =>
      Le(term, 8) + (Le(round, 8) + (PutBool(success) + (PutBool(done) + [])))
    case InfoReq(buf) => buf
    case ShutdownReq(now) => PutBool(now) + []
    case Unknown(_) => []
  }

  /** sc_buf_str_len. */
  function StrLen(s: Str): nat {
    if s.None? then 4 else 4 + |s.value| + 1
  }

  /** The length the msg_create functions compute and write first. */
  function DeclaredLen(m: Msg): nat {
    match m
    case ConnectReq(_, protocol, cluster, name) => FIXED + 4 + StrLen(protocol) + StrLen(cluster) + StrLen(name)
    case ConnectResp(_, _, _, nodes) => FIXED + 1 + 8 + 8 + StrLen(nodes)
    case DisconnectReq(_, _) => FIXED + 1 + 4
    case DisconnectResp(_, _) => FIXED + 1 + 4
    case ClientReq(_, _, buf) => FIXED + 1 + 8 + |buf|
    case ClientResp(buf) => FIXED + |buf|
    case AppendReq(_, _, _, _, _, buf) => FIXED + 8 + 8 + 8 + 8 + 8 + |buf|
    case AppendResp(_, _, _, _) => FIXED + 8 + 8 + 8 + 1
    case PrevoteReq(_, _, _) => FIXED + 8 + 8 + 8
    case PrevoteResp(_, _, _) => FIXED + 8 + 8 + 1
    case ReqvoteReq(_, _, _) => FIXED + 8 + 8 + 8
    case ReqvoteResp(_, _, _) => FIXED + 8 + 8 + 1
    case SnapshotReq(_, _, _, _, _, _, buf) => FIXED + 8 + 8 + 8 + 8 + 8 + 1 + |buf|
    case SnapshotResp(_, _, _, _) => FIXED + 8 + 8 + 1 + 1
    case InfoReq(buf) => FIXED + |buf|
    case ShutdownReq(_) => FIXED + 1
    case Unknown(_) => FIXED
  }

  function Encode(m: Msg): seq<byte> {
    Le(DeclaredLen(m), 4) + (Le(TypeOf(m), 1) + Body(m))
  }

  lemma DeclaredLenExact(m: Msg)
    ensures |Encode(m)| == DeclaredLen(m)
  {
    hide Le;
  }

  /** The fields fit their widths; strings are C strings. */
  ghost predicate Fits(m: Msg) {
    && DeclaredLen(m) <= MAX_MESSAGE
    && match m
       case ConnectReq(flags, protocol, cluster, name) =>
         flags < U32 && Proper(protocol) && Proper(cluster) && Proper(name)
       case ConnectResp(rc, sequence, term, nodes) => rc < 256 && sequence < U64 && term < U64 && Proper(nodes)
       case DisconnectReq(rc, flags) => rc < 256 && flags < U32
       case DisconnectResp(rc, flags) => rc < 256 && flags < U32
       case ClientReq(_, sequence, _) => sequence < U64
       case ClientResp(_) => true
       case AppendReq(term, prevIndex, prevTerm, commit, round, _) =>
         term < U64 && prevIndex < U64 && prevTerm < U64 && commit < U64 && round < U64
       case AppendResp(term, index, round, _) => term < U64 && index < U64 && round < U64
       case PrevoteReq(term, lastTerm, lastIndex) => term < U64 && lastTerm < U64 && lastIndex < U64
       case PrevoteResp(term, index, _) => term < U64 && index < U64
       case ReqvoteReq(term, lastTerm, lastIndex) => term < U64 && lastTerm < U64 && lastIndex < U64
       case ReqvoteResp(term, index, _) => term < U64 && index < U64
       case SnapshotReq(term, round, ssTerm, ssIndex, offset, _, _) =>
         term < U64 && round < U64 && ssTerm < U64 && ssIndex < U64 && offset < U64
       case SnapshotResp(term, round, _, _) => term < U64 && round < U64
       case InfoReq(_) => true
       case ShutdownReq(_) => true
       case Unknown(t) => 16 <= t < 256
  }

  /** The switch of msg_parse. */
  function ReadBody(type_: nat, s: In): (Msg, In) {
    match type_
    case 0 =>
      var (flags, s) := Get(s, 4);
      var (protocol, s) := GetStr(s);
      var (cluster, s) := GetStr(s);
      var (name, s) := GetStr(s);
      (ConnectReq(flags, protocol, cluster, name), s)
    case 1 =>
      var (rc, s) := Get(s, 1);
      var (sequence, s) := Get(s, 8);
      var (term, s) := Get(s, 8);
      var (nodes, s) := GetStr(s);
      (ConnectResp(rc, sequence, term, nodes), s)
    case 2 =>
      var (rc, s) := Get(s, 1);
      var (flags, s) := Get(s, 4);
      (DisconnectReq(rc, flags), s)
    case 3 =>
      var (rc, s) := Get(s, 1);
      var (flags, s) := Get(s, 4);
      (DisconnectResp(rc, flags), s)
    case 4 =>
      var (readonly, s) := GetBool(s);
      var (sequence, s) := Get(s, 8);
      var (buf, s) := GetRest(s);
      (ClientReq(readonly, sequence, buf), s)
    case 5 =>
      (ClientResp(s.ahead), s)
    case 6 =>
      var (term, s) := Get(s, 8);
      var (prevIndex, s) := Get(s, 8);
      var (prevTerm, s) := Get(s, 8);
      var (commit, s) := Get(s, 8);
      var (round, s) := Get(s, 8);
      var (buf, s) := GetRest(s);
      (AppendReq(term, prevIndex, prevTerm, commit, round, buf), s)
    case 7 =>
      var (term, s) := Get(s, 8);
      var (index, s) := Get(s, 8);
      var (round, s) := Get(s, 8);
      var (success, s) := GetBool(s);
      (AppendResp(term, index, round, success), s)
    case 8 =>
      var (term, s) := Get(s, 8);
      var (lastTerm, s) := Get(s, 8);
      var (lastIndex, s) := Get(s, 8);
      (PrevoteReq(term, lastTerm, lastIndex), s)
    case 9 =>
      var (term, s) := Get(s, 8);
      var (index, s) := Get(s, 8);
      var (granted, s) := GetBool(s);
      (PrevoteResp(term, index, granted), s)
    case 10 =>
      var (term, s) := Get(s, 8);
      var (lastTerm, s) := Get(s, 8);
      var (lastIndex, s) := Get(s, 8);
      (ReqvoteReq(term, lastTerm, lastIndex), s)
    case 11 =>
      var (term, s) := Get(s, 8);
      var (index, s) := Get(s, 8);
      var (granted, s) := GetBool(s);
      (ReqvoteResp(term, index, granted), s)
    case 12 =>
      var (term, s) := Get(s, 8);
      var (round, s) := Get(s, 8);
      var (ssTerm, s) := Get(s, 8);
      var (ssIndex, s) := Get(s, 8);
      var (offset, s) := Get(s, 8);
      var (done, s) := GetBool(s);
      var (buf, s) := GetRest(s);
      (SnapshotReq(term, round, ssTerm, ssIndex, offset, done, buf), s)
    case 13 =>
      var (term, s) := Get(s, 8);
      var (round, s) := Get(s, 8);
      var (success, s) := GetBool(s);
      var (done, s) := GetBool(s);
      (SnapshotResp(term, round, success, done), s)
    case 14 =>
      var (buf, s) := GetRest(s);
      (InfoReq(buf), s)
    case 15 =>
      var (now, s) := GetBool(s);
      (ShutdownReq(now), s)
    case _ =>
      (Unknown(type_), s)
  }

  // Reading what was put, as rewriting rules

  lemma Reads()
    ensures forall b: seq<byte>, x: nat, rest: seq<byte> {:trigger Get(In(b, Le(x, 1) + rest, true), 1)} ::
              x < 256 ==> Get(In(b, Le(x, 1) + rest, true), 1) == (x, In(b + Le(x, 1), rest, true))
    ensures forall b: seq<byte>, x: nat, rest: seq<byte> {:trigger Get(In(b, Le(x, 4) + rest, true), 4)} ::
              x < U32 ==> Get(In(b, Le(x, 4) + rest, true), 4) == (x, In(b + Le(x, 4), rest, true))
    ensures forall b: seq<byte>, x: nat, rest: seq<byte> {:trigger Get(In(b, Le(x, 8) + rest, true), 8)} ::
              x < U64 ==> Get(In(b, Le(x, 8) + rest, true), 8) == (x, In(b + Le(x, 8), rest, true))
    ensures forall b: seq<byte>, x: bool, rest: seq<byte> {:trigger GetBool(In(b, PutBool(x) + rest, true))} ::
              GetBool(In(b, PutBool(x) + rest, true)) == (x, In(b + PutBool(x), rest, true))
  {
    hide Le, Get, Pow256, PutBool, GetBool;
    PowSizes();
    forall b: seq<byte>, x: nat, rest: seq<byte> | x < 256
      ensures Get(In(b, Le(x, 1) + rest, true), 1) == (x, In(b + Le(x, 1), rest, true))
    {
      GetPut(b, x, 1, rest);
    }
    forall b: seq<byte>, x: nat, rest: seq<byte> | x < U32
      ensures Get(In(b, Le(x, 4) + rest, true), 4) == (x, In(b + Le(x, 4), rest, true))
    {
      GetPut(b, x, 4, rest);
    }
    forall b: seq<byte>, x: nat, rest: seq<byte> | x < U64
      ensures Get(In(b, Le(x, 8) + rest, true), 8) == (x, In(b + Le(x, 8), rest, true))
    {
      GetPut(b, x, 8, rest);
    }
    forall b: seq<byte>, x: bool, rest: seq<byte>
      ensures GetBool(In(b, PutBool(x) + rest, true)) == (x, In(b + PutBool(x), rest, true))
    {
      GetPutBool(b, x, rest);
    }
  }

  /** The message is read back from its fields. */
  ghost predicate ReadsBack(m: Msg, b: seq<byte>) {
    var r := ReadBody(TypeOf(m), In(b, Body(m), true));
    r.0 == m && r.1.ok
  }

  lemma VoteBody(m: Msg, b: seq<byte>)
    requires Fits(m) && (m.PrevoteReq? || m.PrevoteResp? || m.ReqvoteReq? || m.ReqvoteResp?)
    ensures ReadsBack(m, b)
  {
    hide Le, Get, PutBool, GetBool, GetStr, PutStr, DeclaredLen;
    Reads();
  }

  lemma LogBody(m: Msg, b: seq<byte>)
    requires Fits(m) && (m.AppendReq? || m.AppendResp?)
    ensures ReadsBack(m, b)
  {
    hide Le, Get, PutBool, GetBool, GetStr, PutStr, DeclaredLen;
    Reads();
  }

  lemma SnapshotBody(m: Msg, b: seq<byte>)
    requires Fits(m) && (m.SnapshotReq? || m.SnapshotResp?)
    ensures ReadsBack(m, b)
  {
    hide Le, Get, PutBool, GetBool, GetStr, PutStr, DeclaredLen;
    Reads();
  }

  lemma ShortBody(m: Msg, b: seq<byte>)
    requires Fits(m) && (m.DisconnectReq? || m.DisconnectResp? || m.ClientReq? || m.ClientResp? || m.InfoReq?
              || m.ShutdownReq? || m.Unknown?)
    ensures ReadsBack(m, b)
  {
    hide Le, Get, PutBool, GetBool, GetStr, PutStr, DeclaredLen;
    Reads();
  }

  lemma PutStrLen(s: Str)
    ensures |PutStr(s)| == StrLen(s)
  {
    hide Le;
  }

  lemma ConnectReqBody(m: Msg, b: seq<byte>)
    requires Fits(m) && m.ConnectReq? && |b| == FIXED
    ensures ReadsBack(m, b)
  {
    hide Le, Get, GetStr, PutStr, Proper;
    Reads();
    var b1 := b + Le(m.flags, 4);
    var b2, b3 := b1 + PutStr(m.protocol), b1 + PutStr(m.protocol) + PutStr(m.cluster);
    PutStrLen(m.protocol);
    PutStrLen(m.cluster);
    PutStrLen(m.name);
    GetPutStr(b1, m.protocol, PutStr(m.cluster) + (PutStr(m.name) + []));
    GetPutStr(b2, m.cluster, PutStr(m.name) + []);
    GetPutStr(b3, m.name, []);
  }

  lemma ConnectRespBody(m: Msg, b: seq<byte>)
    requires Fits(m) && m.ConnectResp? && |b| == FIXED
    ensures ReadsBack(m, b)
  {
    hide Le, Get, GetStr, PutStr, Proper;
    Reads();
    PutStrLen(m.nodes);
    GetPutStr(b + Le(m.rc, 1) + Le(m.sequence, 8) + Le(m.term, 8), m.nodes, []);
  }

  lemma BodyReadsBack(m: Msg, b: seq<byte>)
    requires Fits(m) && |b| == FIXED
    ensures ReadsBack(m, b)
  {
    hide Fits, ReadsBack;
    match m
    case ConnectReq(_, _, _, _) => ConnectReqBody(m, b);
    case ConnectResp(_, _, _, _) => ConnectRespBody(m, b);
    case AppendReq(_, _, _, _, _, _) => LogBody(m, b);
    case AppendResp(_, _, _, _) => LogBody(m, b);
    case PrevoteReq(_, _, _) => VoteBody(m, b);
    case PrevoteResp(_, _, _) => VoteBody(m, b);
    case ReqvoteReq(_, _, _) => VoteBody(m, b);
    case ReqvoteResp(_, _, _) => VoteBody(m, b);
    case SnapshotReq(_, _, _, _, _, _, _) => SnapshotBody(m, b);
    case SnapshotResp(_, _, _, _) => SnapshotBody(m, b);
    case _ => ShortBody(m, b);
  }

  // Framing

  datatype Parsed = Partial | Invalid | Ok(msg: Msg, len: nat)

  /** The bytes of one message, its length known. */
  function Decode(bytes: seq<byte>): Parsed {
    var (len, s) := Get(In([], bytes, true), 4);
    var (type_, s) := Get(s, 1);
    var (m, s) := ReadBody(type_, s);
    if s.ok then Ok(m, |bytes|) else Invalid
  }

  /** msg_parse on what a connection has received. */
  function Parse(data: seq<byte>): (r: Parsed)
    ensures r.Ok? ==> 0 < r.len <= |data|
  {
    if |data| < 4 then Partial
    else
      var len := U32At(data, 0);
      if len > MAX_MESSAGE then Invalid
      else if len == 0 then Partial
      else if len > |data| then Partial
      else Decode(data[..len])
  }

  // Which bytes are no message

  /** A number of so many bytes, a string, or whatever is left. */
  datatype Field = Num(n: nat) | Text | Rest

  /** The fields of each message type on the wire. */
  ghost function Layout(type_: nat): seq<Field> {
    match type_
    case 0 => [Num(4), Text, Text, Text]
    case 1 => [Num(1), Num(8), Num(8), Text]
    case 2 => [Num(1), Num(4)]
    case 3 => [Num(1), Num(4)]
    case 4 => [Num(1), Num(8), Rest]
    case 6 => [Num(8), Num(8), Num(8), Num(8), Num(8), Rest]
    case 7 => [Num(8), Num(8), Num(8), Num(1)]
    case 8 => [Num(8), Num(8), Num(8)]
    case 9 => [Num(8), Num(8), Num(1)]
    case 10 => [Num(8), Num(8), Num(8)]
    case 11 => [Num(8), Num(8), Num(1)]
    case 12 => [Num(8), Num(8), Num(8), Num(8), Num(8), Num(1), Rest]
    case 13 => [Num(8), Num(8), Num(1), Num(1)]
    case 14 => [Rest]
    case 15 => [Num(1)]
    case _ => []
  }

  /** Where a field that starts at `pos` ends, if it is there. A string has its length in front and a zero
      behind it; its end is computed in 32 bits. */
  ghost function FieldEnd(f: Field, bytes: seq<byte>, pos: nat): Option<nat> {
    match f
    case Num(n) => if pos + n <= |bytes| then Some(pos + n) else None
    case Text =>
      if pos + 4 > |bytes| then None
      else
        var len := U32At(bytes, pos);
        var end := (pos + 4 + len + 1) % U32;
        if len == U32 - 1 then Some(pos + 4) else if end > |bytes| then None else Some(end)
    case Rest => if pos <= |bytes| then Some(|bytes|) else None
  }

  ghost predicate Present(fields: seq<Field>, bytes: seq<byte>, pos: nat) {
    fields == [] ||
    (FieldEnd(fields[0], bytes, pos).Some? && Present(fields[1..], bytes, FieldEnd(fields[0], bytes, pos).value))
  }

  /** Reading one field of whatever kind. */
  ghost function Skip(f: Field, s: In): In {
    match f
    case Num(n) => Get(s, n).1
    case Text => GetStr(s).1
    case Rest => GetRest(s).1
  }

  ghost function SkipAll(fields: seq<Field>, s: In): In
    decreases |fields|
  {
    if fields == [] then s else SkipAll(fields[1..], Skip(fields[0], s))
  }

  lemma SkipIs(f: Field, s: In)
    requires s.ok
    ensures var end := FieldEnd(f, s.behind + s.ahead, |s.behind|);
            && (Skip(f, s).ok <==> end.Some?)
            && (end.Some? ==> Skip(f, s).behind + Skip(f, s).ahead == s.behind + s.ahead
                              && |Skip(f, s).behind| == end.value)
  {
    hide Value, CString;
    var all := s.behind + s.ahead;
    if f.Text? && 4 <= |s.ahead| {
      assert all[|s.behind|..|s.behind| + 4] == s.ahead[..4];
      var t := Get(s, 4).1;
      assert t.behind + t.ahead == all;
    }
  }

  lemma SkipFails(f: Field, s: In)
    requires !s.ok
    ensures !Skip(f, s).ok
  {
  }

  lemma {:induction false} SkipAllIs(fields: seq<Field>, s: In)
    ensures SkipAll(fields, s).ok <==> s.ok && Present(fields, s.behind + s.ahead, |s.behind|)
    decreases |fields|
  {
    hide Skip, FieldEnd;
    if fields != [] {
      if s.ok {
        SkipIs(fields[0], s);
      } else {
        SkipFails(fields[0], s);
      }
      SkipAllIs(fields[1..], Skip(fields[0], s));
    }
  }

  lemma SkipTwo(a: Field, b: Field, rest: seq<Field>, s: In)
    ensures SkipAll([a] + rest, s) == SkipAll(rest, Skip(a, s))
    ensures SkipAll([a, b] + rest, s) == SkipAll(rest, Skip(b, Skip(a, s)))
  {
    hide Skip;
    assert ([a] + rest)[1..] == rest && ([a, b] + rest)[1..] == [b] + rest && ([b] + rest)[1..] == rest;
  }

  lemma SkipFew(a: Field, b: Field, c: Field, d: Field, s: In)
    ensures SkipAll([], s) == s && SkipAll([a], s) == Skip(a, s) && SkipAll([a, b], s) == Skip(b, Skip(a, s))
    ensures SkipAll([a, b, c], s) == Skip(c, Skip(b, Skip(a, s)))
    ensures SkipAll([a, b, c, d], s) == Skip(d, Skip(c, Skip(b, Skip(a, s))))
  {
    hide Skip;
    var t := Skip(b, Skip(a, s));
    assert [a] == [a] + [] && [a, b] == [a, b] + [] && [a, b, c] == [a, b] + [c] && [a, b, c, d] == [a, b] + [c, d];
    assert [c] == [c] + [] && [c, d] == [c, d] + [];
    SkipTwo(a, b, [], s);
    SkipTwo(a, b, [c], s);
    SkipTwo(a, b, [c, d], s);
    SkipTwo(c, d, [], t);
  }

  lemma SkipMany(a: Field, b: Field, c: Field, d: Field, e: Field, f: Field, g: Field, s: In)
    ensures var t := Skip(d, Skip(c, Skip(b, Skip(a, s))));
            && SkipAll([a, b, c, d, e, f], s) == Skip(f, Skip(e, t))
            && SkipAll([a, b, c, d, e, f, g], s) == Skip(g, Skip(f, Skip(e, t)))
  {
    hide Skip;
    var t := Skip(b, Skip(a, s));
    var u := Skip(d, Skip(c, t));
    assert [a, b, c, d, e, f] == [a, b] + ([c, d] + [e, f]);
    assert [a, b, c, d, e, f, g] == [a, b] + ([c, d] + [e, f, g]);
    SkipTwo(a, b, [c, d] + [e, f], s);
    SkipTwo(a, b, [c, d] + [e, f, g], s);
    SkipTwo(c, d, [e, f], t);
    SkipTwo(c, d, [e, f, g], t);
    SkipFew(e, f, g, g, u);
  }

  /** The switch of msg_parse reads exactly these fields. */
  lemma LayoutRead(type_: nat, s: In)
    ensures ReadBody(type_, s).1 == SkipAll(Layout(type_), s)
  {
    hide Get, GetStr, GetRest, SkipAll;
    match type_
    case 0 => SkipFew(Num(4), Text, Text, Text, s);
    case 1 => SkipFew(Num(1), Num(8), Num(8), Text, s);
    case 2 => SkipFew(Num(1), Num(4), Rest, Rest, s);
    case 3 => SkipFew(Num(1), Num(4), Rest, Rest, s);
    case 4 => SkipFew(Num(1), Num(8), Rest, Rest, s);
    case 6 => SkipMany(Num(8), Num(8), Num(8), Num(8), Num(8), Rest, Rest, s);
    case 7 => SkipFew(Num(8), Num(8), Num(8), Num(1), s);
    case 8 => SkipFew(Num(8), Num(8), Num(8), Rest, s);
    case 9 => SkipFew(Num(8), Num(8), Num(1), Rest, s);
    case 10 => SkipFew(Num(8), Num(8), Num(8), Rest, s);
    case 11 => SkipFew(Num(8), Num(8), Num(1), Rest, s);
    case 12 => SkipMany(Num(8), Num(8), Num(8), Num(8), Num(8), Num(1), Rest, s);
    case 13 => SkipFew(Num(8), Num(8), Num(1), Num(1), s);
    case 14 => SkipFew(Rest, Rest, Rest, Rest, s);
    case 15 => SkipFew(Num(1), Rest, Rest, Rest, s);
    case _ => SkipFew(Rest, Rest, Rest, Rest, s);
  }

  /** A whole message decodes if and only if its type byte and the fields of that type are there. */
  lemma DecodeExactly(bytes: seq<byte>)
    requires |bytes| >= 4
    ensures Decode(bytes).Ok? <==> |bytes| >= 5 && Present(Layout(bytes[4]), bytes, 5)
    ensures !Decode(bytes).Partial?
  {
    hide ReadBody, Layout, Present;
    var s := In(bytes[..4], bytes[4..], true);
    assert [] + bytes[..4] == bytes[..4];
    if |bytes| >= 5 {
      assert Value(bytes[4..][..1]) == bytes[4];
      var t := In(bytes[..5], bytes[5..], true);
      assert bytes[..4] + bytes[4..][..1] == bytes[..5] && bytes[4..][1..] == bytes[5..];
      LayoutRead(bytes[4], t);
      SkipAllIs(Layout(bytes[4]), t);
      assert t.behind + t.ahead == bytes;
    } else {
      var t := Get(s, 1);
      LayoutRead(t.0, t.1);
      SkipAllIs(Layout(t.0), t.1);
    }
  }

  /** Data that does not parse: longer than allowed, or whole but without one of its fields. */
  lemma InvalidExactly(data: seq<byte>)
    ensures Parse(data).Invalid? <==>
              |data| >= 4 &&
              var len := U32At(data, 0);
              len > 2_000_000_000 ||
              (0 < len <= |data| && (len < 5 || !Present(Layout(data[4]), data[..len], 5)))
  {
    hide Decode, Layout, Present, U32At;
    if |data| >= 4 {
      var len := U32At(data, 0);
      if 4 <= len <= |data| {
        DecodeExactly(data[..len]);
      } else if 0 < len < 4 && len <= |data| {
        DecodeShort(data[..len]);
      }
    }
  }

  lemma DecodeShort(bytes: seq<byte>)
    requires |bytes| < 4
    ensures Decode(bytes).Invalid?
  {
    hide ReadBody, Layout, Present;
    var s := Get(In([], bytes, true), 4);
    var t := Get(s.1, 1);
    LayoutRead(t.0, t.1);
    SkipAllIs(Layout(t.0), t.1);
  }

  lemma DecodeEncode(m: Msg)
    requires Fits(m)
    ensures Decode(Encode(m)) == Ok(m, DeclaredLen(m))
  {
    hide Le, Get, Body, ReadBody, Fits, Value;
    DeclaredLenExact(m);
    FitsBounds(m);
    Reads();
    var b := [] + Le(DeclaredLen(m), 4) + Le(TypeOf(m), 1);
    BodyReadsBack(m, b);
  }

  lemma FitsBounds(m: Msg)
    requires Fits(m)
    ensures FIXED <= DeclaredLen(m) <= MAX_MESSAGE && TypeOf(m) < 256
  {
  }

  /** A message is parsed back whatever follows it. */
  lemma RoundTrip(m: Msg, more: seq<byte>)
    requires Fits(m)
    ensures Parse(Encode(m) + more) == Ok(m, |Encode(m)|)
  {
    hide Le, Decode, Fits, Value, Body, TypeOf, DeclaredLen;
    DeclaredLenExact(m);
    FitsBounds(m);
    EncodedLen(m, more);
    DecodeEncode(m);
    assert (Encode(m) + more)[..|Encode(m)|] == Encode(m);
  }

  lemma EncodedLen(m: Msg, more: seq<byte>)
    requires DeclaredLen(m) < U32
    ensures |Encode(m)| >= 4 && U32At(Encode(m) + more, 0) == DeclaredLen(m)
  {
    hide Le, Value, Body, TypeOf, DeclaredLen;
    PowSizes();
    LeValue(DeclaredLen(m), 4);
    assert (Encode(m) + more)[0..4] == Le(DeclaredLen(m), 4);
  }

  /** A strict prefix of a message is partial. */
  lemma PrefixIsPartial(m: Msg, n: nat)
    requires Fits(m) && n < |Encode(m)|
    ensures Parse(Encode(m)[..n]) == Partial
  {
    hide Le, Decode, Fits, Value, Encode;
    DeclaredLenExact(m);
    FitsBounds(m);
    if n >= 4 {
      EncodedLen(m, []);
      assert Encode(m) + [] == Encode(m);
      assert Encode(m)[..n][0..4] == Encode(m)[0..4];
    }
  }

  /** Once decided, more bytes change nothing. */
  lemma ParseStable(data: seq<byte>, more: seq<byte>)
    requires Parse(data) != Partial
    ensures Parse(data + more) == Parse(data)
  {
    hide Decode, Value;
    var len := U32At(data, 0);
    assert (data + more)[0..4] == data[0..4];
    if len <= |data| {
      assert (data + more)[..len] == data[..len];
    }
  }
}
