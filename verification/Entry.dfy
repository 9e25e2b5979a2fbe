/** Little-endian integers and the log entry layout of src/entry.c. */
module Entry {
  import Crc32c

  type byte = x: int | 0 <= x < 256

  // Little-endian integers

  /** `n` bytes of `v`, lowest first. */
  function Le(v: nat, n: nat): (s: seq<byte>)
    ensures |s| == n
    decreases n
  {
    if n == 0 then [] else [v % 256] + Le(v / 256, n - 1)
  }

  function Value(s: seq<byte>): (v: nat) {
    if s == [] then 0 else s[0] + 256 * Value(s[1..])
  }

  function Pow256(n: nat): nat {
    if n == 0 then 1 else 256 * Pow256(n - 1)
  }

  const U32 := 0x1_0000_0000
  const U64 := 0x1_0000_0000_0000_0000

  lemma PowSizes()
    ensures Pow256(1) == 256 && Pow256(4) == U32 && Pow256(8) == U64
  {
    assert Pow256(2) == 65536;
    assert Pow256(6) == 0x1_0000_0000_0000;
  }

  lemma {:induction false} LeValue(v: nat, n: nat)
    requires v < Pow256(n)
    ensures Value(Le(v, n)) == v
    decreases n
  {
    if n > 0 {
      LeValue(v / 256, n - 1);
      assert Le(v, n)[1..] == Le(v / 256, n - 1);
    }
  }

  lemma {:induction false} LeOfValue(s: seq<byte>)
    ensures Le(Value(s), |s|) == s
  {
    if s != [] {
      LeOfValue(s[1..]);
      assert Value(s) % 256 == s[0] && Value(s) / 256 == Value(s[1..]);
      assert s == [s[0]] + s[1..];
    }
  }

  lemma {:induction false} ValueBelow(s: seq<byte>)
    ensures Value(s) < Pow256(|s|)
  {
    if s != [] {
      ValueBelow(s[1..]);
    }
  }

  lemma {:induction false} ValueZero(s: seq<byte>)
    ensures Value(s) == 0 <==> forall i :: 0 <= i < |s| ==> s[i] == 0
  {
    if s != [] {
      ValueZero(s[1..]);
    }
  }

  /** A 32-bit and a 64-bit field of a byte image. */
  function U32At(img: seq<byte>, pos: nat): nat
    requires pos + 4 <= |img|
  {
    Value(img[pos..pos + 4])
  }

  function U64At(img: seq<byte>, pos: nat): nat
    requires pos + 8 <= |img|
  {
    Value(img[pos..pos + 8])
  }

  // Entries

  const CRC_LEN := 4
  const HEADER := 36  // ENTRY_HEADER_SIZE

  /** The bytes as machine words. */
  function Words(s: seq<byte>): (r: seq<bv8>)
    ensures |r| == |s|
  {
    seq(|s|, i requires 0 <= i < |s| => s[i] as bv8)
  }

  /** Machine words as bytes. */
  function Ints(s: seq<bv8>): (r: seq<byte>)
    ensures |r| == |s|
  {
    seq(|s|, i requires 0 <= i < |s| => s[i] as byte)
  }

  function Checksum(s: seq<byte>): (c: nat)
    ensures c < U32
  {
    var c := Crc32c.Crc(0, Words(s));
    WordBelow(c);
    c as nat
  }

  lemma WordBelow(c: bv32)
    ensures (c as nat) < U32
  {
  }

  /** Everything after the checksum. */
  function Body(term: nat, sequence: nat, cid: nat, flags: nat, data: seq<byte>): (s: seq<byte>)
    ensures |s| == HEADER - CRC_LEN + |data|
  {
    Le(HEADER + |data|, 4) + Le(term, 8) + Le(sequence, 8) + Le(cid, 8) + Le(flags, 4) + data
  }

  /** entry_encode. */
  function Encode(term: nat, sequence: nat, cid: nat, flags: nat, data: seq<byte>): (e: seq<byte>)
    ensures |e| == HEADER + |data|
  {
    var body := Body(term, sequence, cid, flags, data);
    Le(Checksum(body), 4) + body
  }

  // The accessors entry_crc, entry_len, entry_term, entry_seq, entry_cid, entry_flags, entry_data

  function CrcOf(e: seq<byte>): nat
    requires |e| >= HEADER
  {
    U32At(e, 0)
  }

  function LenOf(e: seq<byte>): nat
    requires |e| >= HEADER
  {
    U32At(e, 4)
  }

  function TermOf(e: seq<byte>): nat
    requires |e| >= HEADER
  {
    U64At(e, 8)
  }

  function SeqOf(e: seq<byte>): nat
    requires |e| >= HEADER
  {
    U64At(e, 16)
  }

  function CidOf(e: seq<byte>): nat
    requires |e| >= HEADER
  {
    U64At(e, 24)
  }

  function FlagsOf(e: seq<byte>): nat
    requires |e| >= HEADER
  {
    U32At(e, 32)
  }

  function DataOf(e: seq<byte>): seq<byte>
    requires |e| >= HEADER
  {
    e[HEADER..]
  }

  /** A complete entry: its length field is its length and its checksum matches. */
  predicate WellFormed(e: seq<byte>) {
    |e| >= HEADER && LenOf(e) == |e| && CrcOf(e) == Checksum(e[CRC_LEN..])
  }

  /** Field after field: what was encoded is read back. */
  lemma BodyFields(c: seq<byte>, len: nat, term: nat, sequence: nat, cid: nat, flags: nat, data: seq<byte>)
    requires |c| == 4 && len < U32 && term < U64 && sequence < U64 && cid < U64 && flags < U32
    ensures var e := c + (Le(len, 4) + Le(term, 8) + Le(sequence, 8) + Le(cid, 8) + Le(flags, 4) + data);
            && Value(e[4..8]) == len && Value(e[8..16]) == term && Value(e[16..24]) == sequence
            && Value(e[24..32]) == cid && Value(e[32..36]) == flags && e[36..] == data
  {
    hide Le, Value, Pow256;
    PowSizes();
    LeValue(len, 4);
    LeValue(term, 8);
    LeValue(sequence, 8);
    LeValue(cid, 8);
    LeValue(flags, 4);
    FieldSlices(c, Le(len, 4), Le(term, 8), Le(sequence, 8), Le(cid, 8), Le(flags, 4), data);
  }

  lemma FieldSlices(c: seq<byte>, l: seq<byte>, t: seq<byte>, s: seq<byte>, i: seq<byte>, f: seq<byte>, d: seq<byte>)
    requires |c| == |l| == |f| == 4 && |t| == |s| == |i| == 8
    ensures var e := c + (l + t + s + i + f + d);
            e[4..8] == l && e[8..16] == t && e[16..24] == s && e[24..32] == i && e[32..36] == f && e[36..] == d
  {
  }

  /** Every accessor returns the field that was encoded, and the entry decodes. */
  lemma EncodeFields(term: nat, sequence: nat, cid: nat, flags: nat, data: seq<byte>)
    requires term < U64 && sequence < U64 && cid < U64 && flags < U32 && HEADER + |data| < U32
    ensures var e := Encode(term, sequence, cid, flags, data);
            && WellFormed(e)
            && TermOf(e) == term && SeqOf(e) == sequence && CidOf(e) == cid
            && FlagsOf(e) == flags && DataOf(e) == data
  {
    hide Le, Checksum, Value;
    var body := Body(term, sequence, cid, flags, data);
    var c := Le(Checksum(body), 4);
    BodyFields(c, HEADER + |data|, term, sequence, cid, flags, data);
    assert (c + body)[0..4] == c && (c + body)[CRC_LEN..] == body;
    PowSizes();
    LeValue(Checksum(body), 4);
  }

  /** What stands between the checksum and the last four bytes of an entry with four bytes more. */
  function Front(term: nat, sequence: nat, cid: nat, flags: nat, data: seq<byte>): seq<byte> {
    Le(HEADER + |data| + 4, 4) + Le(term, 8) + Le(sequence, 8) + Le(cid, 8) + Le(flags, 4) + data
  }

  function TailTo(w: bv32, term: nat, sequence: nat, cid: nat, flags: nat, data: seq<byte>): (tail: seq<byte>)
    ensures |tail| == 4
  {
    Ints(Crc32c.Tail(Words(Front(term, sequence, cid, flags, data)), w))
  }

  /** Four bytes of data that make the checksum zero. */
  function ZeroTail(term: nat, sequence: nat, cid: nat, flags: nat, data: seq<byte>): (tail: seq<byte>)
    ensures |tail| == 4
  {
    TailTo(Crc32c.BEFORE_ONES, term, sequence, cid, flags, data)
  }

  /** Four bytes of data that make it all ones. */
  function LiveTail(term: nat, sequence: nat, cid: nat, flags: nat, data: seq<byte>): (tail: seq<byte>)
    ensures |tail| == 4
  {
    TailTo(0, term, sequence, cid, flags, data)
  }

  lemma TailBody(head: seq<byte>, w: bv32)
    ensures Checksum(head + Ints(Crc32c.Tail(Words(head), w))) == 0 <==>
              Crc32c.Crc(0, Words(head) + Crc32c.Tail(Words(head), w)) == 0
  {
    hide Crc32c.Crc, Crc32c.Tail;
    var words := Crc32c.Tail(Words(head), w);
    assert Words(Ints(words)) == words;
    assert Words(head + Ints(words)) == Words(head) + words;
    WordZero(Crc32c.Crc(0, Words(head) + words));
  }

  lemma WordZero(c: bv32)
    ensures c as nat == 0 <==> c == 0
  {
  }

  /** The encoded entry with such a tail. */
  lemma TailEntry(w: bv32, term: nat, sequence: nat, cid: nat, flags: nat, data: seq<byte>)
    requires term < U64 && sequence < U64 && cid < U64 && flags < U32 && HEADER + |data| + 4 < U32
    ensures var e := Encode(term, sequence, cid, flags, data + TailTo(w, term, sequence, cid, flags, data));
            var head := Words(Front(term, sequence, cid, flags, data));
            WellFormed(e) && (CrcOf(e) == 0 <==> Crc32c.Crc(0, head + Crc32c.Tail(head, w)) == 0)
  {
    hide Le, Checksum, Value, Words, Ints, Crc32c.Tail, Crc32c.Crc;
    var tail := TailTo(w, term, sequence, cid, flags, data);
    var body := Body(term, sequence, cid, flags, data + tail);
    EncodeFields(term, sequence, cid, flags, data + tail);
    TailBody(Front(term, sequence, cid, flags, data), w);
    assert body == Front(term, sequence, cid, flags, data) + tail;
    assert Encode(term, sequence, cid, flags, data + tail)[CRC_LEN..] == body;
  }

  /** Whatever the fields and the data of an entry are, four more bytes of data make its checksum zero. */
  lemma ZeroChecksum(term: nat, sequence: nat, cid: nat, flags: nat, data: seq<byte>)
    requires term < U64 && sequence < U64 && cid < U64 && flags < U32 && HEADER + |data| + 4 < U32
    ensures var e := Encode(term, sequence, cid, flags, data + ZeroTail(term, sequence, cid, flags, data));
            WellFormed(e) && CrcOf(e) == 0
  {
    hide Encode, WellFormed, CrcOf, Crc32c.Tail, Crc32c.Crc, Words, Front, TailTo;
    TailEntry(Crc32c.BEFORE_ONES, term, sequence, cid, flags, data);
    Crc32c.ZeroAhead(Words(Front(term, sequence, cid, flags, data)));
  }

  /** And four others make it something else. */
  lemma LiveChecksum(term: nat, sequence: nat, cid: nat, flags: nat, data: seq<byte>)
    requires term < U64 && sequence < U64 && cid < U64 && flags < U32 && HEADER + |data| + 4 < U32
    ensures var e := Encode(term, sequence, cid, flags, data + LiveTail(term, sequence, cid, flags, data));
            WellFormed(e) && CrcOf(e) != 0
  {
    hide Encode, WellFormed, CrcOf, Crc32c.Tail, Crc32c.Crc, Words, Front, TailTo;
    TailEntry(0, term, sequence, cid, flags, data);
    Crc32c.OnesBehind(Words(Front(term, sequence, cid, flags, data)));
  }
}
