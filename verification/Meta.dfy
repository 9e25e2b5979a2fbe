/** The membership codec (src/meta.c): a configuration with its nodes, their addresses and, while it
    is changing, the configuration before it, nested to any depth. */
module Meta {
  import opened Entry
  import opened Basics
  import opened Buf

  datatype Node = Node(name: Str, role: nat, uris: seq<Str>)

  datatype Config = Config(name: Str, uris: Str, term: nat, index: nat, voter: nat, nodes: seq<Node>,
      prev: Option<Config>)

  // What the encoder writes

  function UrisBytes(uris: seq<Str>): seq<byte> {
    if uris == [] then [] else PutStr(uris[0]) + UrisBytes(uris[1..])
  }

  function NodeBytes(n: Node): seq<byte> {
    PutStr(n.name) + (Le(n.role, 1) + (Le(|n.uris|, 4) + UrisBytes(n.uris)))
  }

  function NodesBytes(nodes: seq<Node>): seq<byte> {
    if nodes == [] then [] else NodeBytes(nodes[0]) + NodesBytes(nodes[1..])
  }

  function HeadBytes(m: Config): seq<byte> {
    PutStr(m.name) + (PutStr(m.uris) + (Le(m.term, 8) + (Le(m.index, 8) + (Le(m.voter, 4) + Le(|m.nodes|, 4)))))
  }

  function Bytes(m: Config): seq<byte>
    decreases m
  {
    HeadBytes(m) + (NodesBytes(m.nodes) +
                    (if m.prev.None? then PutBool(false) else PutBool(true) + Bytes(m.prev.value)))
  }

  /** meta_node_encode. */
  method EncodeNode(n: Node, out: seq<byte>) returns (r: seq<byte>)
    ensures r == out + NodeBytes(n)
  {
    hide PutStr, Le, UrisBytes;
    var head := PutStr(n.name) + (Le(n.role, 1) + Le(|n.uris|, 4));
    r := out + head;
    UrisEnd(n.uris);
    var i := 0;
    while i < |n.uris|
      invariant i <= |n.uris| && r + UrisBytes(n.uris[i..]) == out + head + UrisBytes(n.uris)
    {
      UrisStep(n.uris, i);
      Assoc(r, PutStr(n.uris[i]), UrisBytes(n.uris[i + 1..]));
      r, i := r + PutStr(n.uris[i]), i + 1;
    }
    assert head + UrisBytes(n.uris) == NodeBytes(n);
    Assoc(out, head, UrisBytes(n.uris));
  }

  /** meta_encode. */
  method Encode(m: Config, out: seq<byte>) returns (r: seq<byte>)
    ensures r == out + Bytes(m)
    decreases m
  {
    hide HeadBytes, NodeBytes, NodesBytes, PutBool;
    r := out + HeadBytes(m);
    NodesEnd(m.nodes);
    var i := 0;
    while i < |m.nodes|
      invariant i <= |m.nodes| && r + NodesBytes(m.nodes[i..]) == out + HeadBytes(m) + NodesBytes(m.nodes)
    {
      NodesStep(m.nodes, i);
      Assoc(r, NodeBytes(m.nodes[i]), NodesBytes(m.nodes[i + 1..]));
      r := EncodeNode(m.nodes[i], r);
      i := i + 1;
    }
    ghost var prev := PrevBytes(m.prev);
    Assoc(out + HeadBytes(m), NodesBytes(m.nodes), prev);
    Assoc(out, HeadBytes(m), NodesBytes(m.nodes) + prev);
    r := r + PutBool(m.prev.Some?);
    if m.prev.Some? {
      Assoc(out + HeadBytes(m) + NodesBytes(m.nodes), PutBool(true), Bytes(m.prev.value));
      r := Encode(m.prev.value, r);
    }
  }

  /** Fields fit their widths, strings are C strings, and counts fit 32 bits. */
  ghost predicate NodeFits(n: Node) {
    Proper(n.name) && n.role < 256 && |n.uris| < U32 && forall i :: 0 <= i < |n.uris| ==> Proper(n.uris[i])
  }

  ghost predicate Fits(m: Config)
    decreases m
  {
    && Proper(m.name) && Proper(m.uris) && m.term < U64 && m.index < U64 && m.voter < U32 && |m.nodes| < U32
    && (forall i :: 0 <= i < |m.nodes| ==> NodeFits(m.nodes[i]))
    && (m.prev.Some? ==> Fits(m.prev.value))
  }

  /** The cursor stands before `x` and then `rest`. */
  ghost predicate Before(s: In, x: seq<byte>, rest: seq<byte>) {
    s.ok && s.ahead == x + rest && |s.behind| + |s.ahead| < U32
  }

  /** The cursor has read `x` and stands before `rest`. */
  ghost predicate After(s: In, t: In, x: seq<byte>, rest: seq<byte>) {
    t == In(s.behind + x, rest, true)
  }

  method ReadStr(s: In, ghost x: Str, ghost rest: seq<byte>) returns (r: Str, t: In)
    requires Before(s, PutStr(x), rest) && Proper(x)
    ensures r == x && After(s, t, PutStr(x), rest)
  {
    hide PutStr, GetStr;
    GetPutStr(s.behind, x, rest);
    var got := GetStr(s);
    r, t := got.0, got.1;
  }

  method ReadInt(s: In, n: nat, ghost x: nat, ghost rest: seq<byte>) returns (r: nat, t: In)
    requires Before(s, Le(x, n), rest) && x < Pow256(n)
    ensures r == x && After(s, t, Le(x, n), rest)
  {
    hide Le, Get;
    GetPut(s.behind, x, n, rest);
    var got := Get(s, n);
    r, t := got.0, got.1;
  }

  method ReadBool(s: In, ghost x: bool, ghost rest: seq<byte>) returns (r: bool, t: In)
    requires Before(s, PutBool(x), rest)
    ensures r == x && After(s, t, PutBool(x), rest)
  {
    hide PutBool, GetBool;
    GetPutBool(s.behind, x, rest);
    var got := GetBool(s);
    r, t := got.0, got.1;
  }

  lemma Assoc(a: seq<byte>, b: seq<byte>, c: seq<byte>)
    ensures (a + b) + c == a + (b + c)
  {
  }

  /** Two reads one after the other. */
  lemma AfterAfter(s: In, t: In, u: In, x: seq<byte>, y: seq<byte>, rest: seq<byte>)
    requires After(s, t, x, y + rest) && After(t, u, y, rest)
    ensures After(s, u, x + y, rest)
  {
    Assoc(s.behind, x, y);
  }

  /** What is left to read after the first part. */
  lemma BeforeNext(s: In, t: In, x: seq<byte>, y: seq<byte>, rest: seq<byte>)
    requires Before(s, x + y, rest)
    ensures Before(s, x, y + rest)
    ensures After(s, t, x, y + rest) ==> Before(t, y, rest)
  {
    Assoc(x, y, rest);
  }

  /** The address loop of meta_node_decode. */
  method DecodeUris(s: In, count: nat, ghost uris: seq<Str>, ghost rest: seq<byte>) returns (r: seq<Str>, t: In)
    requires Before(s, UrisBytes(uris), rest) && count == |uris| && forall i :: 0 <= i < |uris| ==> Proper(uris[i])
    ensures r == uris && After(s, t, UrisBytes(uris), rest)
  {
    hide PutStr, UrisBytes, Proper;
    r, t := [], s;
    var i := 0;
    UrisEnd(uris);
    ghost var d: seq<byte> := [];
    assert s.behind + d == s.behind;
    while i < count
      invariant i <= count && r == uris[..i]
      invariant Before(t, UrisBytes(uris[i..]), rest)
      invariant After(s, t, d, UrisBytes(uris[i..]) + rest) && d + UrisBytes(uris[i..]) == UrisBytes(uris)
    {
      ghost var x, more, t0 := PutStr(uris[i]), UrisBytes(uris[i + 1..]), t;
      UrisStep(uris, i);
      BeforeNext(t, t, x, more, rest);
      var uri;
      uri, t := ReadStr(t, uris[i], more + rest);
      BeforeNext(t0, t, x, more, rest);
      Assoc(x, more, rest);
      AfterAfter(s, t0, t, d, x, more + rest);
      Assoc(d, x, more);
      r, i, d := r + [uri], i + 1, d + x;
    }
  }

  lemma UrisEnd(uris: seq<Str>)
    ensures uris[0..] == uris && uris[|uris|..] == [] && UrisBytes([]) == [] && uris[..|uris|] == uris
  {
  }

  lemma UrisStep(uris: seq<Str>, i: nat)
    requires i < |uris|
    ensures UrisBytes(uris[i..]) == PutStr(uris[i]) + UrisBytes(uris[i + 1..]) && uris[..i + 1] == uris[..i] + [uris[i]]
  {
    hide PutStr;
    assert uris[i..][1..] == uris[i + 1..];
  }

  /** meta_node_decode. */
  method DecodeNode(s: In, ghost n: Node, ghost rest: seq<byte>) returns (r: Node, t: In)
    requires Before(s, NodeBytes(n), rest) && NodeFits(n)
    ensures r == n && After(s, t, NodeBytes(n), rest)
  {
    hide PutStr, UrisBytes, Proper, Le, Pow256;
    PowSizes();
    ghost var a, b, c, d := PutStr(n.name), Le(n.role, 1), Le(|n.uris|, 4), UrisBytes(n.uris);
    ghost var cd, bcd := c + d, b + (c + d);
    BeforeNext(s, s, a, bcd, rest);
    var name, s1 := ReadStr(s, n.name, bcd + rest);
    BeforeNext(s, s1, a, bcd, rest);
    BeforeNext(s1, s1, b, cd, rest);
    var role, s2 := ReadInt(s1, 1, n.role, cd + rest);
    BeforeNext(s1, s2, b, cd, rest);
    BeforeNext(s2, s2, c, d, rest);
    var count, s3 := ReadInt(s2, 4, |n.uris|, d + rest);
    BeforeNext(s2, s3, c, d, rest);
    var uris, s4 := DecodeUris(s3, count, n.uris, rest);
    AfterAfter(s2, s3, s4, c, d, rest);
    AfterAfter(s1, s2, s4, b, cd, rest);
    AfterAfter(s, s1, s4, a, bcd, rest);
    r, t := Node(name, role, uris), s4;
  }

  lemma NodesStep(nodes: seq<Node>, i: nat)
    requires i < |nodes|
    ensures NodesBytes(nodes[i..]) == NodeBytes(nodes[i]) + NodesBytes(nodes[i + 1..])
              && nodes[..i + 1] == nodes[..i] + [nodes[i]]
  {
    hide NodeBytes;
    assert nodes[i..][1..] == nodes[i + 1..];
  }

  lemma NodesEnd(nodes: seq<Node>)
    ensures nodes[0..] == nodes && nodes[|nodes|..] == [] && NodesBytes([]) == [] && nodes[..|nodes|] == nodes
  {
  }

  /** The node loop of meta_decode. */
  method DecodeNodes(s: In, count: nat, ghost nodes: seq<Node>, ghost rest: seq<byte>) returns (r: seq<Node>, t: In)
    requires Before(s, NodesBytes(nodes), rest) && count == |nodes|
    requires forall i :: 0 <= i < |nodes| ==> NodeFits(nodes[i])
    ensures r == nodes && After(s, t, NodesBytes(nodes), rest)
  {
    hide NodeBytes, NodesBytes, NodeFits;
    r, t := [], s;
    var i := 0;
    NodesEnd(nodes);
    ghost var d: seq<byte> := [];
    assert s.behind + d == s.behind;
    while i < count
      invariant i <= count && r == nodes[..i]
      invariant Before(t, NodesBytes(nodes[i..]), rest)
      invariant After(s, t, d, NodesBytes(nodes[i..]) + rest) && d + NodesBytes(nodes[i..]) == NodesBytes(nodes)
    {
      ghost var x, more, t0 := NodeBytes(nodes[i]), NodesBytes(nodes[i + 1..]), t;
      NodesStep(nodes, i);
      BeforeNext(t, t, x, more, rest);
      var node;
      node, t := DecodeNode(t, nodes[i], more + rest);
      BeforeNext(t0, t, x, more, rest);
      Assoc(x, more, rest);
      AfterAfter(s, t0, t, d, x, more + rest);
      Assoc(d, x, more);
      r, i, d := r + [node], i + 1, d + x;
    }
  }

  /** The fixed fields of meta_decode. */
  method DecodeHead(s: In, ghost m: Config, ghost rest: seq<byte>)
    returns (name: Str, uris: Str, term: nat, index: nat, voter: nat, count: nat, t: In)
    requires Before(s, HeadBytes(m), rest) && Fits(m)
    ensures name == m.name && uris == m.uris && term == m.term && index == m.index && voter == m.voter
              && count == |m.nodes|
    ensures After(s, t, HeadBytes(m), rest)
  {
    hide PutStr, Proper, Le, Pow256;
    PowSizes();
    ghost var a, b, c, d, e, f := PutStr(m.name), PutStr(m.uris), Le(m.term, 8), Le(m.index, 8), Le(m.voter, 4),
        Le(|m.nodes|, 4);
    ghost var ef, def, cdef, bcdef := e + f, d + (e + f), c + (d + (e + f)), b + (c + (d + (e + f)));
    BeforeNext(s, s, a, bcdef, rest);
    var s1, s2, s3, s4, s5;
    name, s1 := ReadStr(s, m.name, bcdef + rest);
    BeforeNext(s, s1, a, bcdef, rest);
    BeforeNext(s1, s1, b, cdef, rest);
    uris, s2 := ReadStr(s1, m.uris, cdef + rest);
    BeforeNext(s1, s2, b, cdef, rest);
    BeforeNext(s2, s2, c, def, rest);
    term, s3 := ReadInt(s2, 8, m.term, def + rest);
    BeforeNext(s2, s3, c, def, rest);
    BeforeNext(s3, s3, d, ef, rest);
    index, s4 := ReadInt(s3, 8, m.index, ef + rest);
    BeforeNext(s3, s4, d, ef, rest);
    BeforeNext(s4, s4, e, f, rest);
    voter, s5 := ReadInt(s4, 4, m.voter, f + rest);
    BeforeNext(s4, s5, e, f, rest);
    count, t := ReadInt(s5, 4, |m.nodes|, rest);
    AfterAfter(s4, s5, t, e, f, rest);
    AfterAfter(s3, s4, t, d, ef, rest);
    AfterAfter(s2, s3, t, c, def, rest);
    AfterAfter(s1, s2, t, b, cdef, rest);
    AfterAfter(s, s1, t, a, bcdef, rest);
  }

  function PrevBytes(prev: Option<Config>): seq<byte> {
    if prev.None? then PutBool(false) else PutBool(true) + Bytes(prev.value)
  }

  /** meta_decode: an encoded configuration is restored, and what follows it is left to be read. */
  method Decode(s: In, ghost m: Config, ghost rest: seq<byte>) returns (r: Config, t: In)
    requires Before(s, Bytes(m), rest) && Fits(m)
    ensures r == m && After(s, t, Bytes(m), rest)
    decreases m
  {
    hide HeadBytes, NodesBytes, PutBool, NodeFits, Proper;
    ghost var a, b, c := HeadBytes(m), NodesBytes(m.nodes), PrevBytes(m.prev);
    assert Bytes(m) == a + (b + c);
    BeforeNext(s, s, a, b + c, rest);
    var name, uris, term, index, voter, count, s1 := DecodeHead(s, m, b + c + rest);
    BeforeNext(s, s1, a, b + c, rest);
    BeforeNext(s1, s1, b, c, rest);
    var nodes, s2 := DecodeNodes(s1, count, m.nodes, c + rest);
    BeforeNext(s1, s2, b, c, rest);
    var prev;
    prev, t := DecodePrev(s2, m.prev, rest);
    AfterAfter(s1, s2, t, b, c, rest);
    AfterAfter(s, s1, t, a, b + c, rest);
    r := Config(name, uris, term, index, voter, nodes, prev);
  }

  /** The end of meta_decode. */
  method DecodePrev(s: In, ghost prev: Option<Config>, ghost rest: seq<byte>) returns (r: Option<Config>, t: In)
    requires Before(s, PrevBytes(prev), rest) && (prev.Some? ==> Fits(prev.value))
    ensures r == prev && After(s, t, PrevBytes(prev), rest)
    decreases prev
  {
    hide PutBool, Bytes, Fits;
    ghost var x := PutBool(prev.Some?);
    if prev.Some? {
      BeforeNext(s, s, x, Bytes(prev.value), rest);
    }
    var more, s1 := ReadBool(s, prev.Some?, if prev.Some? then Bytes(prev.value) + rest else rest);
    if !more {
      return None, s1;
    }
    BeforeNext(s, s1, x, Bytes(prev.value), rest);
    var m;
    m, t := Decode(s1, prev.value, rest);
    AfterAfter(s, s1, t, x, Bytes(prev.value), rest);
    r := Some(m);
  }
}
