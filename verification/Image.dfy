/** The byte image of a log page (src/page.c): a header, entries end to end, an end mark. */
module Image {
  import opened Entry

  const PAGE_HEADER := 32
  const END_LEN := 4
  const MAX_SIZE := 0x8000_0000       // PAGE_MAX_SIZE
  const INITIAL_SIZE := 0x200_0000    // PAGE_INITIAL_SIZE
  const RESERVED := 40                // ENTRY_HEADER_SIZE + PAGE_END_MARK_LEN

  /** The header bytes page_clear writes before their checksum: version one and the previous index. */
  function HeaderBody(prev: nat): (s: seq<byte>)
    ensures |s| == 28
  {
    Le(1, 4) + Le(0, 4) + Le(prev, 8) + Le(0, 12)
  }

  function Header(prev: nat): (s: seq<byte>)
    ensures |s| == PAGE_HEADER
  {
    HeaderBody(prev) + Le(Checksum(HeaderBody(prev)), 4)
  }

  /** The check of page_init. */
  predicate HeaderOk(img: seq<byte>)
    requires |img| >= PAGE_HEADER
  {
    U32At(img, 28) == Checksum(img[..28])
  }

  lemma HeaderReads(img: seq<byte>, prev: nat)
    requires prev < U64 && |img| >= PAGE_HEADER && img[..PAGE_HEADER] == Header(prev)
    ensures HeaderOk(img) && U64At(img, 8) == prev
  {
    hide Le, Value, Checksum, Pow256;
    PowSizes();
    var body := HeaderBody(prev);
    assert img[..28] == img[..PAGE_HEADER][..28] == body;
    assert img[28..32] == img[..PAGE_HEADER][28..32] == Le(Checksum(body), 4);
    LeValue(Checksum(body), 4);
    assert img[8..16] == img[..PAGE_HEADER][8..16] == Le(prev, 8);
    LeValue(prev, 8);
  }

  /** A header is accepted if and only if its last four bytes are those page_clear would have written
      behind the others. */
  lemma HeaderExact(img: seq<byte>)
    requires |img| >= PAGE_HEADER
    ensures HeaderOk(img) <==> img[..PAGE_HEADER] == img[..28] + Le(Checksum(img[..28]), 4)
  {
    hide Le, Value, Checksum, Pow256;
    PowSizes();
    var c := Le(Checksum(img[..28]), 4);
    LeValue(Checksum(img[..28]), 4);
    assert img[..PAGE_HEADER] == img[..28] + img[28..32];
    assert (img[..28] + c)[28..] == c;
    if HeaderOk(img) {
      LeOfValue(img[28..32]);
    }
  }

  // Scanning

  /** entry_decode succeeds at `pos`: the length is at least the checksum's and stays inside the
      image, and the checksum matches. A length below four wraps around and fails. */
  predicate Decodes(img: seq<byte>, pos: nat)
    requires pos + HEADER <= |img|
  {
    var len := U32At(img, pos + 4);
    CRC_LEN <= len && pos + len <= |img| && U32At(img, pos) == Checksum(img[pos + CRC_LEN..pos + len])
  }

  /** page_read stops at `pos`: nothing left, an end mark, less than a header, or no entry. */
  predicate Stops(img: seq<byte>, pos: nat)
    requires pos <= |img|
  {
    || pos == |img|
    || (pos + END_LEN <= |img| && U32At(img, pos) == 0)
    || pos + HEADER > |img|
    || !Decodes(img, pos)
  }

  /** The positions of the entries page_read finds from `pos` on. */
  function Scan(img: seq<byte>, pos: nat): (ps: seq<nat>)
    requires pos <= |img|
    decreases |img| - pos
  {
    if Stops(img, pos) then [] else [pos] + Scan(img, pos + U32At(img, pos + 4))
  }

  function ScanEnd(img: seq<byte>, pos: nat): (e: nat)
    requires pos <= |img|
    ensures pos <= e <= |img|
    decreases |img| - pos
  {
    if Stops(img, pos) then pos else ScanEnd(img, pos + U32At(img, pos + 4))
  }

  /** `ps` tiles `[a, b)` without gaps by entries that decode and are not end marks. */
  ghost predicate Tiles(img: seq<byte>, ps: seq<nat>, a: nat, b: nat)
    decreases |ps|
  {
    if ps == [] then a == b <= |img|
    else
      && ps[0] == a && a + HEADER <= |img| && Decodes(img, a) && U32At(img, a) != 0
      && Tiles(img, ps[1..], a + U32At(img, a + 4), b)
  }

  /** On any image the scan finds a gapless tiling by valid entries that ends where the scan stops. */
  lemma {:induction false} ScanTiles(img: seq<byte>, pos: nat)
    requires pos <= |img|
    ensures Tiles(img, Scan(img, pos), pos, ScanEnd(img, pos)) && Stops(img, ScanEnd(img, pos))
    decreases |img| - pos
  {
    hide Decodes, U32At;
    if !Stops(img, pos) {
      DecodesAhead(img, pos);
      var next := pos + U32At(img, pos + 4);
      ScanTiles(img, next);
      assert Scan(img, pos)[1..] == Scan(img, next);
    }
  }

  lemma DecodesAhead(img: seq<byte>, pos: nat)
    requires pos + HEADER <= |img| && Decodes(img, pos)
    ensures CRC_LEN <= U32At(img, pos + 4) <= |img| - pos
  {
  }

  lemma {:induction false} ScanReadable(img: seq<byte>, pos: nat)
    requires pos <= |img|
    ensures var ps := Scan(img, pos); ps != [] ==> ps[|ps| - 1] + HEADER <= |img|
    decreases |img| - pos
  {
    hide Decodes, U32At;
    if !Stops(img, pos) {
      DecodesAhead(img, pos);
      ScanReadable(img, pos + U32At(img, pos + 4));
    }
  }

  /** The tiling is unique: whatever tiles the image up to a stop is what the scan returns. */
  lemma {:induction false} TilesUnique(img: seq<byte>, ps: seq<nat>, a: nat, b: nat)
    requires Tiles(img, ps, a, b) && b <= |img| && Stops(img, b)
    ensures a <= |img| && ps == Scan(img, a) && b == ScanEnd(img, a)
    decreases |ps|
  {
    hide Decodes, U32At;
    if ps != [] {
      DecodesAhead(img, a);
      TilesUnique(img, ps[1..], a + U32At(img, a + 4), b);
      assert ps == [a] + ps[1..];
    }
  }

  // Images made of whole entries

  function Flatten(es: seq<seq<byte>>): seq<byte> {
    if es == [] then [] else es[0] + Flatten(es[1..])
  }

  function Offsets(pos: nat, es: seq<seq<byte>>): (ps: seq<nat>)
    ensures |ps| == |es|
    decreases |es|
  {
    if es == [] then [] else [pos] + Offsets(pos + |es[0]|, es[1..])
  }

  ghost predicate AllWellFormed(es: seq<seq<byte>>) {
    forall i :: 0 <= i < |es| ==> WellFormed(es[i])
  }

  /** A scan stops at this entry: its checksum reads as the end mark. */
  predicate EndsScan(e: seq<byte>) {
    |e| < HEADER || CrcOf(e) == 0
  }

  /** How many leading entries have a non-zero checksum. */
  function Live(es: seq<seq<byte>>): (n: nat)
    ensures n <= |es|
    ensures forall i :: 0 <= i < n ==> !EndsScan(es[i])
    ensures n < |es| ==> EndsScan(es[n])
  {
    if es == [] || EndsScan(es[0]) then 0 else 1 + Live(es[1..])
  }

  lemma {:induction false} FlattenSnoc(es: seq<seq<byte>>, e: seq<byte>)
    ensures Flatten(es + [e]) == Flatten(es) + e
  {
    if es == [] {
      assert Flatten([e]) == e + Flatten([]);
    } else {
      FlattenSnoc(es[1..], e);
      assert (es + [e])[1..] == es[1..] + [e];
    }
  }

  lemma {:induction false} OffsetsSnoc(pos: nat, es: seq<seq<byte>>, e: seq<byte>)
    ensures Offsets(pos, es + [e]) == Offsets(pos, es) + [pos + |Flatten(es)|]
    decreases |es|
  {
    if es != [] {
      OffsetsSnoc(pos + |es[0]|, es[1..], e);
      assert (es + [e])[1..] == es[1..] + [e];
    }
  }

  /** A prefix of the entries is a prefix of the bytes and of the offsets. */
  lemma {:induction false} FlattenTake(pos: nat, es: seq<seq<byte>>, n: nat)
    requires n <= |es|
    ensures |Flatten(es[..n])| <= |Flatten(es)|
    ensures Flatten(es[..n]) == Flatten(es)[..|Flatten(es[..n])|]
    ensures Offsets(pos, es[..n]) == Offsets(pos, es)[..n]
    ensures n < |es| ==> Offsets(pos, es)[n] == pos + |Flatten(es[..n])|
    decreases |es|
  {
    if n > 0 {
      FlattenTake(pos + |es[0]|, es[1..], n - 1);
      assert es[..n][1..] == es[1..][..n - 1];
    }
  }

  /** Entry `n` sits in the image at its offset. */
  lemma {:induction false} FlattenAt(pos: nat, es: seq<seq<byte>>, n: nat)
    requires n < |es|
    ensures var p := Offsets(pos, es)[n] - pos;
            0 <= p && p + |es[n]| <= |Flatten(es)| && Flatten(es)[p..p + |es[n]|] == es[n]
    decreases |es|
  {
    var p := Offsets(pos, es)[n] - pos;
    if n > 0 {
      FlattenAt(pos + |es[0]|, es[1..], n - 1);
      SliceRight(es[0], Flatten(es[1..]), p - |es[0]|, p - |es[0]| + |es[n]|);
    } else {
      SliceLeft(es[0], Flatten(es[1..]));
    }
  }

  lemma SliceRight(a: seq<byte>, b: seq<byte>, c: nat, d: nat)
    requires c <= d <= |b|
    ensures (a + b)[|a| + c..|a| + d] == b[c..d]
  {
    var x, y := (a + b)[|a| + c..|a| + d], b[c..d];
    assert forall i :: 0 <= i < d - c ==> x[i] == (a + b)[|a| + c + i] == b[c + i] == y[i];
  }

  lemma SliceLeft(a: seq<byte>, b: seq<byte>)
    ensures (a + b)[0..|a|] == a
  {
  }

  lemma Slice(img: seq<byte>, a: nat, b: nat, c: nat, d: nat)
    requires a <= b <= |img| && c <= d <= b - a
    ensures img[a..b][c..d] == img[a + c..a + d]
  {
    var x, y := img[a..b][c..d], img[a + c..a + d];
    assert forall i :: 0 <= i < d - c ==> x[i] == img[a..b][c + i] == img[a + c + i] == y[i];
  }

  lemma TermInside(img: seq<byte>, pos: nat, e: seq<byte>)
    requires |e| >= HEADER && pos + |e| <= |img| && img[pos..pos + |e|] == e
    ensures U64At(img, pos + 8) == TermOf(e)
  {
    hide Value;
    Slice(img, pos, pos + |e|, 8, 16);
  }

  lemma EntryDecodes(img: seq<byte>, pos: nat, e: seq<byte>)
    requires WellFormed(e) && pos + |e| <= |img| && img[pos..pos + |e|] == e
    ensures U32At(img, pos) == CrcOf(e) && U32At(img, pos + 4) == |e| && Decodes(img, pos)
  {
    hide Value, Checksum;
    var at := img[pos..pos + |e|];
    Slice(img, pos, pos + |e|, 0, 4);
    Slice(img, pos, pos + |e|, 4, 8);
    Slice(img, pos, pos + |e|, CRC_LEN, |e|);
  }

  /** Where entries lie end to end the scan returns them up to the first zero checksum, which it takes
      for the end mark; if there is none it goes on behind them. */
  lemma {:induction false} ScanThrough(img: seq<byte>, pos: nat, es: seq<seq<byte>>)
    requires AllWellFormed(es) && pos + |Flatten(es)| <= |img|
    requires img[pos..pos + |Flatten(es)|] == Flatten(es)
    ensures var end := pos + |Flatten(es)|;
            if Live(es) == |es|
            then Scan(img, pos) == Offsets(pos, es) + Scan(img, end) && ScanEnd(img, pos) == ScanEnd(img, end)
            else Scan(img, pos) == Offsets(pos, es[..Live(es)]) && ScanEnd(img, pos) == pos + |Flatten(es[..Live(es)])|
    decreases |es|
  {
    hide Value, U32At, Scan, ScanEnd, WellFormed, Offsets, Flatten, CrcOf, Live;
    NoEntries(pos);
    if es == [] {
      assert Live(es) == 0;
    } else {
      var e, rest := es[0], es[1..];
      LiveCons(es);
      ConsEntries(pos, e, rest);
      assert es == [e] + rest;
      EntryHeader(e);
      Slice(img, pos, pos + |Flatten(es)|, 0, |e|);
      assert img[pos..pos + |e|] == e;
      if CrcOf(e) != 0 {
        ScanStep(img, pos, e);
        Slice(img, pos, pos + |Flatten(es)|, |e|, |Flatten(es)|);
        assert img[pos + |e|..pos + |e| + |Flatten(rest)|] == Flatten(rest);
        ScanThrough(img, pos + |e|, rest);
        ConsEntries(pos, e, rest[..Live(rest)]);
      } else {
        EntryDecodes(img, pos, e);
        ScanStop(img, pos);
      }
    }
  }

  /** On an image of whole entries and an end mark the scan returns them up to the first zero checksum. */
  lemma ScanLive(img: seq<byte>, pos: nat, es: seq<seq<byte>>)
    requires AllWellFormed(es) && pos + |Flatten(es)| + END_LEN <= |img|
    requires img[pos..pos + |Flatten(es)|] == Flatten(es)
    requires U32At(img, pos + |Flatten(es)|) == 0
    ensures Scan(img, pos) == Offsets(pos, es[..Live(es)])
    ensures ScanEnd(img, pos) == pos + |Flatten(es[..Live(es)])|
  {
    hide Value, U32At, Scan, ScanEnd, WellFormed, Offsets, Flatten, CrcOf, Live;
    ScanThrough(img, pos, es);
    if Live(es) == |es| {
      ScanStop(img, pos + |Flatten(es)|);
      assert es[..Live(es)] == es;
    }
  }

  lemma NoEntries(pos: nat)
    ensures Offsets(pos, []) == [] && Flatten([]) == []
  {
  }

  lemma ConsEntries(pos: nat, e: seq<byte>, rest: seq<seq<byte>>)
    ensures Offsets(pos, [e] + rest) == [pos] + Offsets(pos + |e|, rest)
    ensures Flatten([e] + rest) == e + Flatten(rest)
  {
    assert ([e] + rest)[1..] == rest;
  }

  lemma LiveCons(es: seq<seq<byte>>)
    requires es != [] && WellFormed(es[0])
    ensures CrcOf(es[0]) == 0 ==> Live(es) == 0 && es[..Live(es)] == []
    ensures CrcOf(es[0]) != 0 ==>
              Live(es) == 1 + Live(es[1..]) && es[..Live(es)] == [es[0]] + es[1..][..Live(es[1..])]
  {
    hide WellFormed, CrcOf;
    EntryHeader(es[0]);
  }

  lemma ScanStop(img: seq<byte>, pos: nat)
    requires pos + END_LEN <= |img| && U32At(img, pos) == 0
    ensures Scan(img, pos) == [] && ScanEnd(img, pos) == pos
  {
  }

  lemma ScanStep(img: seq<byte>, pos: nat, e: seq<byte>)
    requires WellFormed(e) && CrcOf(e) != 0 && pos + |e| <= |img| && img[pos..pos + |e|] == e
    ensures Scan(img, pos) == [pos] + Scan(img, pos + |e|)
    ensures ScanEnd(img, pos) == ScanEnd(img, pos + |e|)
  {
    hide Value, Checksum, Decodes, U32At, Scan, ScanEnd, CrcOf;
    EntryDecodes(img, pos, e);
    ScanNext(img, pos);
  }

  lemma ScanLast(img: seq<byte>, pos: nat)
    requires pos <= |img| && Stops(img, pos)
    ensures Scan(img, pos) == [] && ScanEnd(img, pos) == pos
  {
  }

  lemma ScanNext(img: seq<byte>, pos: nat)
    requires pos <= |img| && !Stops(img, pos)
    ensures Scan(img, pos) == [pos] + Scan(img, pos + U32At(img, pos + 4))
    ensures ScanEnd(img, pos) == ScanEnd(img, pos + U32At(img, pos + 4))
  {
  }

  lemma EntryHeader(e: seq<byte>)
    requires WellFormed(e)
    ensures |e| >= HEADER
  {
  }

  /** A scan returns exactly the kept entries if and only if none of their checksums is zero. */
  lemma ScanExact(img: seq<byte>, pos: nat, es: seq<seq<byte>>)
    requires AllWellFormed(es) && pos + |Flatten(es)| + END_LEN <= |img|
    requires img[pos..pos + |Flatten(es)|] == Flatten(es)
    requires U32At(img, pos + |Flatten(es)|) == 0
    ensures Scan(img, pos) == Offsets(pos, es) <==> forall i :: 0 <= i < |es| ==> CrcOf(es[i]) != 0
  {
    ScanLive(img, pos, es);
    assert Live(es) == |es| ==> es[..Live(es)] == es;
  }

  /** `s` written over the image at `pos`. */
  function Patch(img: seq<byte>, pos: nat, s: seq<byte>): (r: seq<byte>)
    requires pos + |s| <= |img|
    ensures |r| == |img|
  {
    img[..pos] + s + img[pos + |s|..]
  }

  /** sc_buf_put_raw and sc_buf_set_*_at: copies bytes into the buffer. */
  method Write(a: array<byte>, pos: nat, s: seq<byte>)
    requires pos + |s| <= a.Length
    modifies a
    ensures a[..] == Patch(old(a[..]), pos, s)
  {
    ghost var img := a[..];
    for i := 0 to |s|
      invariant a[..] == Patch(img, pos, s[..i])
    {
      PatchNext(img, pos, s, i);
      a[pos + i] := s[i];
    }
    assert s[..|s|] == s;
  }

  lemma PatchNext(img: seq<byte>, pos: nat, s: seq<byte>, i: nat)
    requires pos + |s| <= |img| && i < |s|
    ensures Patch(img, pos, s[..i])[pos + i := s[i]] == Patch(img, pos, s[..i + 1])
  {
    var x, y := Patch(img, pos, s[..i])[pos + i := s[i]], Patch(img, pos, s[..i + 1]);
    forall j | 0 <= j < |img|
      ensures x[j] == y[j]
    {
    }
  }

  /** Positions and bytes determine the entries. */
  lemma {:induction false} SameEntries(pos: nat, a: seq<seq<byte>>, b: seq<seq<byte>>)
    requires Offsets(pos, a) == Offsets(pos, b) && Flatten(a) == Flatten(b)
    ensures a == b
    decreases |a|
  {
    if a != [] {
      assert |Offsets(pos, a)| == |a| == |b|;
      assert Offsets(pos, a)[1..] == Offsets(pos + |a[0]|, a[1..]);
      assert Offsets(pos, b)[1..] == Offsets(pos + |b[0]|, b[1..]);
      if |a| == 1 {
        assert a[1..] == [] && b[1..] == [] && a[0] == Flatten(a) == b[0];
      } else {
        assert Offsets(pos, a)[1..][0] == pos + |a[0]| && Offsets(pos, b)[1..][0] == pos + |b[0]|;
        assert a[0] == Flatten(a)[..|a[0]|] == b[0];
        assert Flatten(a[1..]) == Flatten(a)[|a[0]|..] == Flatten(b[1..]);
        SameEntries(pos + |a[0]|, a[1..], b[1..]);
      }
      assert a == [a[0]] + a[1..] && b == [b[0]] + b[1..];
    }
  }
}
