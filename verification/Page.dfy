/** One log page (src/page.c). The bytes live in `mem`, the mapped file; `Log` is the sequence of
    entries they stand for. Flush positions are not modelled: the bytes are treated as memory. */
module Page {
  import opened Bits
  import opened Entry
  import opened Image
  import opened Basics

  datatype Rc = Ok | Full | Error

  const END_MARK: seq<byte> := [0, 0, 0, 0]

  /** The page state a scan or an append leaves: header, whole entries, and room for the reserved
      bytes, so that the unsigned quota does not wrap. What follows the entries may be the end mark or
      the remains of an entry that was never completed. */
  ghost predicate Laid(img: seq<byte>, prev: nat, entries: seq<nat>, wpos: nat, log: seq<seq<byte>>) {
    && prev < U64
    && PAGE_HEADER + RESERVED <= |img| <= MAX_SIZE
    && wpos == PAGE_HEADER + |Flatten(log)| && wpos + RESERVED <= |img|
    && HeaderOk(img) && U64At(img, 8) == prev
    && img[PAGE_HEADER..wpos] == Flatten(log)
    && entries == Offsets(PAGE_HEADER, log)
    && AllWellFormed(log)
  }

  /** The end mark follows the entries. */
  ghost predicate EndsAt(img: seq<byte>, wpos: nat) {
    wpos + END_LEN <= |img| && img[wpos..wpos + END_LEN] == END_MARK
  }

  lemma PatchParts(img: seq<byte>, pos: nat, s: seq<byte>)
    requires pos + |s| <= |img|
    ensures Patch(img, pos, s)[..pos] == img[..pos]
    ensures Patch(img, pos, s)[pos..pos + |s|] == s
    ensures Patch(img, pos, s)[pos + |s|..] == img[pos + |s|..]
  {
  }

  lemma ZeroMark(img: seq<byte>, pos: nat)
    requires pos + 4 <= |img| && img[pos..pos + 4] == Le(0, 4)
    ensures EndsAt(img, pos)
  {
    LeZeros(4);
  }

  /** page_clear lays out an empty page. */
  lemma LaidEmpty(img: seq<byte>, prev: nat)
    requires prev < U64 && PAGE_HEADER + RESERVED <= |img| <= MAX_SIZE
    requires img[..PAGE_HEADER] == Header(prev) && img[PAGE_HEADER..PAGE_HEADER + 4] == Le(0, 4)
    ensures Laid(img, prev, [], PAGE_HEADER, []) && EndsAt(img, PAGE_HEADER)
  {
    hide Header, Le, Value;
    ZeroMark(img, PAGE_HEADER);
    HeaderReads(img, prev);
  }

  lemma HeaderSame(img: seq<byte>, img': seq<byte>)
    requires |img| >= PAGE_HEADER && |img'| >= PAGE_HEADER && img'[..PAGE_HEADER] == img[..PAGE_HEADER]
    ensures HeaderOk(img') <==> HeaderOk(img)
    ensures U64At(img', 8) == U64At(img, 8)
  {
    hide Value, Checksum;
    var h, h' := img[..PAGE_HEADER], img'[..PAGE_HEADER];
    assert img[..28] == h[..28] && img'[..28] == h'[..28];
    assert img[28..32] == h[28..32] && img'[28..32] == h'[28..32];
    assert img[8..16] == h[8..16] && img'[8..16] == h'[8..16];
  }

  /** Appending an entry at the write position, then the end mark. */
  lemma LaidAppend(img: seq<byte>, prev: nat, entries: seq<nat>, wpos: nat, log: seq<seq<byte>>, e: seq<byte>,
      img': seq<byte>)
    requires Laid(img, prev, entries, wpos, log) && WellFormed(e) && wpos + |e| + RESERVED <= |img|
    requires img' == Patch(Patch(img, wpos, e), wpos + |e|, Le(0, 4))
    ensures Laid(img', prev, entries + [wpos], wpos + |e|, log + [e]) && EndsAt(img', wpos + |e|)
  {
    hide Le, Flatten, Offsets, WellFormed, Value, HeaderOk;
    FlattenSnoc(log, e);
    OffsetsSnoc(PAGE_HEADER, log, e);
    var mid := Patch(img, wpos, e);
    PatchParts(img, wpos, e);
    PatchParts(mid, wpos + |e|, Le(0, 4));
    ZeroMark(img', wpos + |e|);
    assert img'[..wpos + |e|] == mid[..wpos + |e|] == img[..wpos] + e;
    assert img'[..PAGE_HEADER] == img[..wpos][..PAGE_HEADER] == img[..PAGE_HEADER];
    HeaderSame(img, img');
    assert img'[PAGE_HEADER..wpos + |e|] == img[PAGE_HEADER..wpos] + e;
    AppendWellFormed(log, e);
  }

  lemma AppendWellFormed(log: seq<seq<byte>>, e: seq<byte>)
    requires AllWellFormed(log) && WellFormed(e)
    ensures AllWellFormed(log + [e])
  {
  }

  /** Cutting back to the first `n` entries and putting the end mark there. */
  lemma LaidTake(img: seq<byte>, prev: nat, entries: seq<nat>, wpos: nat, log: seq<seq<byte>>, n: nat, img': seq<byte>)
    requires Laid(img, prev, entries, wpos, log) && n < |log|
    requires entries[n] + 4 <= |img| && img' == Patch(img, entries[n], Le(0, 4))
    ensures Laid(img', prev, entries[..n], entries[n], log[..n]) && EndsAt(img', entries[n])
  {
    hide Le, Flatten, Offsets, WellFormed, Value, HeaderOk;
    FlattenTake(PAGE_HEADER, log, n);
    var p := entries[n];
    PatchParts(img, p, Le(0, 4));
    ZeroMark(img', p);
    assert img'[..PAGE_HEADER] == img[..p][..PAGE_HEADER] == img[..PAGE_HEADER];
    HeaderSame(img, img');
    assert img'[PAGE_HEADER..p] == img[PAGE_HEADER..wpos][..p - PAGE_HEADER];
  }

  /** Scanning a laid-out page again, perhaps after zeros were added behind it: the entries come back
      unless one has a zero checksum, and the scan stops behind them if it finds no entry there. */
  lemma LaidScan(img: seq<byte>, prev: nat, entries: seq<nat>, wpos: nat, log: seq<seq<byte>>, img': seq<byte>)
    requires Laid(img, prev, entries, wpos, log) && |img| <= |img'| <= MAX_SIZE && img'[..|img|] == img
    ensures HeaderOk(img') && U64At(img', 8) == prev
    ensures EndsAt(img, wpos) <==> EndsAt(img', wpos)
    ensures EndsAt(img', wpos) ==> Stops(img', wpos)
    ensures |Scan(img', PAGE_HEADER)| == |log| <==> Live(log) == |log| && Stops(img', wpos)
    ensures Live(log) == |log| && Stops(img', wpos) ==>
              && ScanEnd(img', PAGE_HEADER) == wpos
              && Laid(img', prev, Scan(img', PAGE_HEADER), ScanEnd(img', PAGE_HEADER), log)
  {
    hide Le, Flatten, Offsets, WellFormed, Value, Checksum, Scan, ScanEnd, HeaderOk, Live, CrcOf, Stops;
    Extended(img, img', 0, PAGE_HEADER);
    HeaderSame(img, img');
    Extended(img, img', PAGE_HEADER, wpos);
    Extended(img, img', wpos, wpos + 4);
    ScanThrough(img', PAGE_HEADER, log);
    StopsHere(img', wpos);
    assert log[..|log|] == log;
  }

  lemma StopsHere(img: seq<byte>, pos: nat)
    requires pos <= |img|
    ensures EndsAt(img, pos) ==> Stops(img, pos)
    ensures Stops(img, pos) ==> Scan(img, pos) == [] && ScanEnd(img, pos) == pos
    ensures !Stops(img, pos) ==> |Scan(img, pos)| > 0
  {
    hide Decodes;
    if EndsAt(img, pos) {
      ValueZero(img[pos..pos + 4]);
    }
  }

  lemma Extended(img: seq<byte>, img': seq<byte>, a: nat, b: nat)
    requires a <= b <= |img| <= |img'| && img'[..|img|] == img
    ensures img'[a..b] == img[a..b]
  {
    assert forall i :: a <= i < b ==> img'[i] == img'[..|img|][i];
  }

  /** Two adjacent writes are one. */
  lemma PatchPatch(img: seq<byte>, pos: nat, a: seq<byte>, b: seq<byte>)
    requires pos + |a| + |b| <= |img|
    ensures Patch(Patch(img, pos, a), pos + |a|, b) == Patch(img, pos, a + b)
  {
  }

  /** Writing the checksum in front of the body completes the entry. */
  lemma PatchFront(img: seq<byte>, pos: nat, a: seq<byte>, b: seq<byte>)
    requires pos + |a| + |b| <= |img|
    ensures Patch(Patch(img, pos + |a|, b), pos, a) == Patch(img, pos, a + b)
  {
  }

  class Page {
    var mem: array<byte>
    var prev: nat
    var wpos: nat
    var entries: seq<nat>
    ghost var Log: seq<seq<byte>>

    constructor ()
      ensures fresh(mem) && prev == wpos == 0 && entries == [] && Log == []
    {
      mem := new byte[0];
      prev, wpos, entries, Log := 0, 0, [], [];
    }

    ghost predicate Valid()
      reads this, mem
    {
      Laid(mem[..], prev, entries, wpos, Log)
    }

    /** The page ends with the end mark, as every write leaves it. */
    ghost predicate Marked()
      reads this, mem
    {
      EndsAt(mem[..], wpos)
    }

    /** page_last_index. */
    function Last(): nat
      reads this
    {
      prev + |entries|
    }

    /** Enough of the last entry lies inside the page to read its term. */
    ghost predicate Readable()
      reads this
    {
      entries != [] ==> entries[|entries| - 1] + HEADER <= mem.Length
    }

    /** page_last_term. */
    function LastTerm(): nat
      requires entries != [] && Readable()
      reads this, mem
    {
      U64At(mem[..], entries[|entries| - 1] + 8)
    }

    lemma LastTermOf()
      requires Valid()
      ensures Readable() && |entries| == |Log|
      ensures entries != [] ==> |Log[|Log| - 1]| >= HEADER && LastTerm() == TermOf(Log[|Log| - 1])
    {
      hide Laid, Value, WellFormed, U64At, TermOf;
      LogSize();
      if entries != [] {
        EntryBytes(Last());
        TermInside(mem[..], entries[|entries| - 1], Log[|Log| - 1]);
      }
    }

    /** page_quota, in unsigned 32-bit arithmetic. */
    function Quota(): nat
      requires wpos <= mem.Length
      reads this
    {
      (mem.Length - wpos + U32 - RESERVED) % U32
    }

    /** page_cap. */
    function Cap(): int
      reads this
    {
      mem.Length - PAGE_HEADER - RESERVED
    }

    /** page_clear. */
    method Clear(index: nat)
      requires index < U64 && PAGE_HEADER + RESERVED <= mem.Length <= MAX_SIZE
      modifies this, mem
      ensures Valid() && Marked() && Log == [] && entries == [] && prev == index && mem == old(mem)
    {
      hide Laid, Le, Checksum, EndsAt;
      prev, entries, wpos, Log := index, [], PAGE_HEADER, [];
      ghost var img := mem[..];
      Write(mem, 0, Le(0, PAGE_HEADER));
      Write(mem, 0, Le(1, 4));
      Write(mem, 8, Le(index, 8));
      ClearedBody(img, index);
      assert mem[..28] == HeaderBody(index);
      var crc := Checksum(mem[..28]);
      ghost var was := mem[..];
      Write(mem, 28, Le(crc, 4));
      PatchParts(was, 28, Le(crc, 4));
      assert mem[..PAGE_HEADER] == Header(index);
      was := mem[..];
      Write(mem, PAGE_HEADER, Le(0, 4));
      PatchParts(was, PAGE_HEADER, Le(0, 4));
      LaidEmpty(mem[..], index);
    }

    /** page_create_entry with entry_encode: the body, its checksum in front, the end mark behind. */
    method CreateEntry(term: nat, sequence: nat, cid: nat, flags: nat, data: seq<byte>)
      requires Valid() && HEADER + |data| <= Quota()
      requires term < U64 && sequence < U64 && cid < U64 && flags < U32
      modifies this, mem
      ensures Valid() && Marked() && mem == old(mem) && prev == old(prev)
      ensures Log == old(Log) + [Encode(term, sequence, cid, flags, data)]
    {
      hide Laid, Encode, WellFormed, EndsAt;
      ghost var img, e := mem[..], Encode(term, sequence, cid, flags, data);
      QuotaExact();
      EncodeFields(term, sequence, cid, flags, data);
      var head, enc := wpos, HEADER + |data|;
      EncodeAt(head, term, sequence, cid, flags, data);
      Write(mem, head + enc, Le(0, 4));
      LaidAppend(img, prev, entries, head, Log, e, mem[..]);
      entries, wpos, Log := entries + [head], head + enc, Log + [e];
    }

    /** entry_encode: the body, then its checksum in front of it. */
    method EncodeAt(head: nat, term: nat, sequence: nat, cid: nat, flags: nat, data: seq<byte>)
      requires head + HEADER + |data| <= mem.Length
      modifies mem
      ensures mem[..] == Patch(old(mem[..]), head, Encode(term, sequence, cid, flags, data))
    {
      hide Le, Checksum, Body;
      var enc := HEADER + |data|;
      ghost var img, body := mem[..], Body(term, sequence, cid, flags, data);
      WriteBody(head + CRC_LEN, term, sequence, cid, flags, data);
      PatchParts(img, head + CRC_LEN, body);
      assert mem[head + CRC_LEN..head + enc] == body;
      var crc := Checksum(mem[head + CRC_LEN..head + enc]);
      Write(mem, head, Le(crc, 4));
      PatchFront(img, head, Le(crc, 4), body);
    }

    lemma LogSize()
      requires Valid()
      ensures |entries| == |Log| && prev < U64 && PAGE_HEADER + RESERVED <= mem.Length <= MAX_SIZE
    {
    }

    lemma EmptyPage()
      requires Valid() && entries == []
      ensures wpos == PAGE_HEADER && Log == []
    {
    }

    lemma Position()
      requires Valid()
      ensures wpos == PAGE_HEADER + |Flatten(Log)|
    {
    }

    lemma LogWellFormed()
      requires Valid()
      ensures AllWellFormed(Log)
      ensures forall i :: 0 <= i < |Log| ==> |Log[i]| >= HEADER
    {
    }

    lemma QuotaExact()
      requires Valid()
      ensures wpos + RESERVED <= mem.Length <= MAX_SIZE
      ensures Quota() == mem.Length - wpos - RESERVED
    {
    }

    /** The puts of entry_encode. */
    method WriteBody(pos: nat, term: nat, sequence: nat, cid: nat, flags: nat, data: seq<byte>)
      requires pos + HEADER - CRC_LEN + |data| <= mem.Length
      modifies mem
      ensures mem[..] == Patch(old(mem[..]), pos, Body(term, sequence, cid, flags, data))
    {
      hide Le;
      ghost var img := mem[..];
      var l, t, s, c, f := Le(HEADER + |data|, 4), Le(term, 8), Le(sequence, 8), Le(cid, 8), Le(flags, 4);
      Write(mem, pos, l);
      Write(mem, pos + 4, t);
      PatchPatch(img, pos, l, t);
      Write(mem, pos + 12, s);
      PatchPatch(img, pos, l + t, s);
      Write(mem, pos + 20, c);
      PatchPatch(img, pos, l + t + s, c);
      Write(mem, pos + 28, f);
      PatchPatch(img, pos, l + t + s + c, f);
      Write(mem, pos + 32, data);
      PatchPatch(img, pos, l + t + s + c + f, data);
    }

    /** page_put_entry: an entry that came complete from the leader. */
    method PutEntry(e: seq<byte>)
      requires Valid() && WellFormed(e) && |e| <= Quota()
      modifies this, mem
      ensures Valid() && Marked() && mem == old(mem) && prev == old(prev)
      ensures Log == old(Log) + [e]
    {
      hide Le, Laid, EndsAt;
      ghost var img := mem[..];
      QuotaExact();
      Write(mem, wpos, e);
      Write(mem, wpos + |e|, Le(0, 4));
      LaidAppend(img, prev, entries, wpos, Log, e, mem[..]);
      entries, wpos, Log := entries + [wpos], wpos + |e|, Log + [e];
    }

    /** page_entry_at: the position of the entry with this index. */
    function EntryAt(index: nat): (r: Option<nat>)
      reads this
    {
      if index <= prev || index > prev + |entries| then None else Some(entries[index - prev - 1])
    }

    /** What page_entry_at points at is the entry of the log with that index. */
    lemma EntryBytes(index: nat)
      requires Valid() && prev < index <= Last()
      ensures |entries| == |Log|
      ensures var p, e := entries[index - prev - 1], Log[index - prev - 1];
              && WellFormed(e) && HEADER <= |e| && p + |e| <= mem.Length
              && mem[..][p..p + |e|] == e && U32At(mem[..], p + 4) == |e|
    {
      hide Le, Header, Flatten, Offsets, Checksum;
      var k := index - prev - 1;
      var p, e := entries[k], Log[k];
      FlattenAt(PAGE_HEADER, Log, k);
      assert WellFormed(e);
      var q := p - PAGE_HEADER;
      Slice(mem[..], PAGE_HEADER, wpos, q, q + |e|);
      EntryDecodes(mem[..], p, e);
    }

    /** page_get_entries: whole consecutive entries from `index`, the fewest that reach `limit`
        bytes or else all that are left; nothing when the index is not on this page. */
    method GetEntries(index: nat, limit: nat) returns (at: Option<nat>, size: nat, count: nat)
      requires Valid()
      ensures at == EntryAt(index)
      ensures at.None? ==> size == 0 && count == 0
      ensures at.Some? ==> Batch(index - prev - 1, limit, at.value, size, count)
    {
      hide Laid, Flatten, U32At, WellFormed, Batch;
      if index <= prev || index > prev + |entries| {
        return None, 0, 0;
      }
      var pos := index - prev - 1;
      EntryBytes(index);
      at := Some(entries[pos]);
      size, count := 0, 0;
      ghost var start := pos;
      assert Flatten(Log[start..start]) == [] by {
        assert Log[start..start] == [];
        NoEntries(0);
      }
      while pos < |entries|
        invariant start <= pos <= |entries| == |Log| && count == pos - start
        invariant size == |Flatten(Log[start..pos])|
        invariant count > 0 ==> size < limit
        invariant count > 1 ==> |Flatten(Log[start..start + count - 1])| < limit
      {
        EntryBytes(prev + pos + 1);
        ghost var before := Log[start..pos];
        FlattenSnoc(before, Log[pos]);
        SnocRange(Log, start, pos);
        assert before == Log[start..start + count];
        count := count + 1;
        size := size + U32At(mem[..], entries[pos] + 4);
        pos := pos + 1;
        if size >= limit {
          break;
        }
      }
      assert pos == start + count;
      BatchHolds(start, limit, size, count);
    }

    lemma BatchHolds(k: nat, limit: nat, size: nat, count: nat)
      requires Valid() && count > 0 && k + count <= |Log| == |entries| && size == |Flatten(Log[k..k + count])|
      requires size >= limit || k + count == |Log|
      requires count > 1 ==> |Flatten(Log[k..k + count - 1])| < limit
      ensures Batch(k, limit, entries[k], size, count)
    {
      RangeBytes(k, count);
    }

    /** The bytes of entries `k..k + count` lie at `p`; they are the fewest reaching `limit`. */
    ghost predicate Batch(k: int, limit: nat, p: nat, size: nat, count: nat)
      reads this, mem
    {
      && 0 <= k < k + count <= |Log|
      && size == |Flatten(Log[k..k + count])| && p + size <= mem.Length
      && mem[..][p..p + size] == Flatten(Log[k..k + count])
      && (size >= limit || k + count == |Log|)
      && (count > 1 ==> |Flatten(Log[k..k + count - 1])| < limit)
    }

    lemma RangeBytes(k: nat, count: nat)
      requires Valid() && k + count <= |Log| && count > 0
      ensures var p, b := entries[k], Flatten(Log[k..k + count]);
              p + |b| <= mem.Length && mem[..][p..p + |b|] == b
    {
      hide Le, Header, Offsets, Checksum, AllWellFormed;
      FlattenTake(PAGE_HEADER, Log, k);
      FlattenRange(Log, k, count);
      var q, b := |Flatten(Log[..k])|, Flatten(Log[k..k + count]);
      Slice(mem[..], PAGE_HEADER, wpos, q, q + |b|);
    }

    /** page_remove_after. */
    method RemoveAfter(index: nat)
      requires Valid()
      modifies this, mem
      ensures Valid() && mem == old(mem) && prev == old(prev)
      ensures Log == if index <= prev then [] else if index - prev < |old(Log)| then old(Log)[..index - prev]
                else old(Log)
      ensures old(Marked()) || Log != old(Log) || index <= prev ==> Marked()
    {
      LogSize();
      hide Laid, EndsAt;
      if index <= prev {
        Clear(prev);
        return;
      }
      var entry := EntryAt(index + 1);
      if entry.None? {
        return;
      }
      CutAt(index, entry.value);
    }

    /** The cutting half of page_remove_after. */
    method CutAt(index: nat, pos: nat)
      requires Valid() && prev < index < Last() && pos == entries[index - prev]
      modifies this, mem
      ensures Valid() && Marked() && mem == old(mem) && prev == old(prev)
      ensures |old(Log)| > index - prev && Log == old(Log)[..index - prev]
    {
      hide Le, Laid, EndsAt;
      ghost var img, n, all := mem[..], index - prev, entries;
      EntryBytes(index + 1);
      Write(mem, pos, Le(0, 4));
      LaidTake(img, prev, all, wpos, Log, n, mem[..]);
      wpos, Log := pos, Log[..n];
      ghost var img' := mem[..];
      while prev + |entries| > index
        modifies this`entries
        invariant n <= |entries| <= |all| && entries == all[..|entries|]
      {
        entries := entries[..|entries| - 1];
      }
      assert entries == all[..n] && mem[..] == img';
    }

    /** page_read: rebuilds the entry positions from the bytes, on any image. */
    method Read()
      requires PAGE_HEADER <= mem.Length
      modifies this`entries, this`wpos
      ensures entries == Scan(mem[..], PAGE_HEADER) && wpos == ScanEnd(mem[..], PAGE_HEADER)
    {
      hide Decodes, U32At, Scan, ScanEnd;
      ghost var img := mem[..];
      entries := [];
      var pos: nat := PAGE_HEADER;
      while true
        modifies this`entries
        invariant PAGE_HEADER <= pos <= |img|
        invariant entries + Scan(img, pos) == Scan(img, PAGE_HEADER)
        invariant ScanEnd(img, pos) == ScanEnd(img, PAGE_HEADER)
        decreases |img| - pos
      {
        var remaining := mem.Length - pos;
        if remaining == 0 || (remaining >= END_LEN && U32At(mem[..], pos) == 0) {
          ScanLast(img, pos);
          break;
        }
        if remaining < HEADER || !Decodes(mem[..], pos) {
          ScanLast(img, pos);
          break;
        }
        DecodesAhead(img, pos);
        ScanNext(img, pos);
        var next := pos + U32At(mem[..], pos + 4);
        assert entries + ([pos] + Scan(img, next)) == (entries + [pos]) + Scan(img, next);
        entries := entries + [pos];
        pos := next;
      }
      wpos := pos;
    }

    /** page_init: maps the file, zero-extended to `len`, and scans it; a bad header clears it. */
    method Init(file: seq<byte>, len: nat, index: nat)
      requires |file| <= MAX_SIZE && len <= MAX_SIZE && index < U64
      modifies this
      ensures fresh(mem) && mem.Length == MapLen(file, len) && Readable()
      ensures HeaderOk(Mapping(file, len)) ==> Scanned(Mapping(file, len)) && (Valid() <==> Recoverable(mem[..]))
      ensures !HeaderOk(Mapping(file, len)) ==> Valid() && Marked() && Log == [] && entries == [] && prev == index
    {
      hide EndsAt, HeaderOk, Laid, Recoverable, Scan, ScanEnd, U64At;
      ghost var img := Mapping(file, len);
      mem := new byte[MapLen(file, len)](i => if 0 <= i < |file| then file[i] else 0);
      assert mem[..] == img;
      if !HeaderOk(mem[..]) {
        Clear(index);
        return;
      }
      prev := U64At(mem[..], 8);
      Read();
      Log := Found(img, PAGE_HEADER);
      FoundLaid(img);
      ScanReadable(img, PAGE_HEADER);
    }

    /** A page made from a missing file is valid and empty, whatever its checksum test says. */
    lemma BlankInit()
      requires HeaderOk(Mapping([], 0)) ==> Scanned(Mapping([], 0)) && (Valid() <==> Recoverable(mem[..]))
      requires !HeaderOk(Mapping([], 0)) ==> Valid() && Marked() && Log == [] && entries == [] && prev == 0
      ensures Valid() && Marked() && Log == [] && entries == [] && prev == 0
    {
      hide EndsAt, HeaderOk, Laid, Recoverable, Scan, ScanEnd, U64At, Found;
      BlankImage(0);
    }

    /** page_reserve: grows the file to the next power of two that fits and scans it again. Full
        exactly when the largest page could not hold it. An error when the scan does not come back
        with the same entries: one of them has a zero checksum, or the page does not end with the end
        mark and the scan takes what follows for entries. */
    method Reserve(size: nat) returns (rc: Rc)
      requires Valid()
      modifies this
      ensures mem == old(mem) || fresh(mem)
      ensures rc == Full <==> old(wpos) + RESERVED + size > MAX_SIZE
      ensures rc == Error ==> old(Quota()) < size && (LosesEntries(old(Log)) || !old(Marked()))
      ensures old(Quota()) < size && old(wpos) + RESERVED + size <= MAX_SIZE && LosesEntries(old(Log)) ==> rc == Error
      ensures rc == Full ==> unchanged(this)
      ensures rc == Ok ==>
                Valid() && Log == old(Log) && prev == old(prev) && size <= Quota() && Marked() == old(Marked())
    {
      QuotaExact();
      LogSize();
      hide Laid, EndsAt;
      var count := mem.Length - Quota();
      if Quota() >= size {
        return Ok;
      }
      var cap := Grow(mem.Length, count + size);
      if cap > MAX_SIZE {
        return Full;
      }
      var ok := Remap(cap);
      if !ok {
        return Error;
      }
      QuotaExact();
      return Ok;
    }

    /** The second half of page_reserve: page_term, page_init and the comparison afterwards. */
    method Remap(cap: nat) returns (ok: bool)
      requires Valid() && cap <= MAX_SIZE
      modifies this
      ensures fresh(mem) && mem.Length >= cap && mem.Length <= MAX_SIZE
      ensures ok <==> Rescans(old(mem[..]), old(wpos), old(Log), cap)
      ensures old(Marked()) ==> (ok <==> !LosesEntries(old(Log)))
      ensures ok ==> Valid() && Log == old(Log) && prev == old(prev) && wpos == old(wpos) && Marked() == old(Marked())
    {
      LogSize();
      hide Laid, HeaderOk, Recoverable, Scan, ScanEnd, Found, U64At, LosesEntries, Rescans, EndsAt;
      var index, last, n := prev, Last(), |entries|;
      ghost var img, log := mem[..], Log;
      Remapped(img, index, entries, wpos, log, cap);
      Init(mem[..], cap, prev);
      if index != prev || last != Last() || n != |entries| {
        return false;
      }
      Log := log;
      return true;
    }

    /** The page is what a scan of `img` makes of it. */
    ghost predicate Scanned(img: seq<byte>)
      reads this, mem
    {
      && PAGE_HEADER <= |img| && mem[..] == img && prev == U64At(img, 8)
      && entries == Scan(img, PAGE_HEADER) && wpos == ScanEnd(img, PAGE_HEADER)
      && Log == Found(img, PAGE_HEADER)
    }
  }

  /** Some entry's checksum reads as the end mark. */
  ghost predicate LosesEntries(log: seq<seq<byte>>) {
    AllWellFormed(log) && Live(log) < |log|
  }

  /** A scan of the page extended to `cap` bytes finds the same entries: none has a zero checksum, and
      it stops behind them. */
  ghost predicate Rescans(img: seq<byte>, wpos: nat, log: seq<seq<byte>>, cap: nat) {
    !LosesEntries(log) && wpos <= |img| && Stops(Mapping(img, cap), wpos)
  }

  /** Scanning a page again after it was extended to `cap` bytes. */
  lemma Remapped(img: seq<byte>, prev: nat, entries: seq<nat>, wpos: nat, log: seq<seq<byte>>, cap: nat)
    requires Laid(img, prev, entries, wpos, log) && cap <= MAX_SIZE
    ensures var img' := Mapping(img, cap);
            && HeaderOk(img') && U64At(img', 8) == prev
            && (|Scan(img', PAGE_HEADER)| == |entries| <==> Rescans(img, wpos, log, cap))
            && (EndsAt(img, wpos) ==> (Rescans(img, wpos, log, cap) <==> !LosesEntries(log)))
            && (EndsAt(img, wpos) <==> EndsAt(img', wpos))
            && (Rescans(img, wpos, log, cap) ==> ScanEnd(img', PAGE_HEADER) == wpos)
            && (Rescans(img, wpos, log, cap) ==> Laid(img', prev, Scan(img', PAGE_HEADER), wpos, log))
  {
    hide HeaderOk, U64At, Scan, ScanEnd, Flatten, Stops;
    var img' := Mapping(img, cap);
    assert img'[..|img|] == img;
    LaidScan(img, prev, entries, wpos, log, img');
  }

  /** The growth loop of page_reserve: it ends, and ends above the largest page only when it must. */
  method Grow(len: nat, need: nat) returns (cap: nat)
    requires len <= MAX_SIZE
    ensures need <= MAX_SIZE <==> cap <= MAX_SIZE
    ensures cap <= MAX_SIZE ==> cap >= need
    ensures cap >= len && (cap == len || exists n: nat :: cap == Pow2(n))
  {
    cap := len;
    while cap <= MAX_SIZE && cap < need
      invariant len <= cap && (cap == len || exists n: nat :: cap == Pow2(n))
      invariant need <= MAX_SIZE ==> cap <= MAX_SIZE
      decreases MAX_SIZE - cap
    {
      LeastPow2Least(cap + 1, 0);
      cap := NextCap(cap);
    }
  }

  /** sc_to_pow2(cap + 1): the next power of two, at most the largest page while below it. */
  method NextCap(cap: nat) returns (r: nat)
    requires cap <= MAX_SIZE
    ensures r == LeastPow2(cap + 1) && r > cap
    ensures cap < MAX_SIZE ==> r <= MAX_SIZE
  {
    Pow2At31();
    hide Pow2, LeastPow2;
    LeastPow2Least(cap + 1, 31);
    Pow2Monotone(32, 63);
    Pow2Monotone(63, 64);
    r := RoundUpPow2(cap + 1, 64);
  }

  lemma Pow2At31()
    ensures Pow2(31) == MAX_SIZE && Pow2(32) == 2 * MAX_SIZE
  {
    assert Pow2(8) == 256;
    Pow2Add(8, 8);
    Pow2Add(16, 15);
    assert Pow2(15) == 32768 by { Pow2Add(8, 7); }
  }

  function MapLen(file: seq<byte>, len: nat): (n: nat)
    ensures |file| <= n && len <= n && INITIAL_SIZE <= n
  {
    var n := if len >= |file| then len else |file|;
    if n >= INITIAL_SIZE then n else INITIAL_SIZE
  }

  /** The mapped bytes: the file, extended with zeros. */
  ghost function Mapping(file: seq<byte>, len: nat): (img: seq<byte>)
    ensures |img| == MapLen(file, len)
  {
    file + seq(MapLen(file, len) - |file|, _ => 0)
  }

  /** A page that was never written scans as empty. */
  lemma BlankImage(len: nat)
    ensures var img := Mapping([], len);
            && U64At(img, 8) == 0 && EndsAt(img, PAGE_HEADER) && Recoverable(img)
            && Scan(img, PAGE_HEADER) == [] && ScanEnd(img, PAGE_HEADER) == PAGE_HEADER && Found(img, PAGE_HEADER) == []
  {
    hide Scan, ScanEnd, Value, Stops;
    var img := Mapping([], len);
    ValueZero(img[8..16]);
    StopsHere(img, PAGE_HEADER);
  }

  /** The entries a scan finds, as byte strings. */
  ghost function Found(img: seq<byte>, pos: nat): (es: seq<seq<byte>>)
    requires pos <= |img|
    decreases |img| - pos
  {
    if Stops(img, pos) then []
    else [img[pos..pos + U32At(img, pos + 4)]] + Found(img, pos + U32At(img, pos + 4))
  }

  lemma {:induction false} FoundScan(img: seq<byte>, pos: nat)
    requires pos <= |img|
    ensures Offsets(pos, Found(img, pos)) == Scan(img, pos)
    ensures pos + |Flatten(Found(img, pos))| == ScanEnd(img, pos)
    ensures img[pos..ScanEnd(img, pos)] == Flatten(Found(img, pos))
    ensures forall i :: 0 <= i < |Found(img, pos)| && |Found(img, pos)[i]| >= HEADER ==> WellFormed(Found(img, pos)[i])
    decreases |img| - pos
  {
    hide Decodes, WellFormed, U32At, Scan, ScanEnd, Offsets, Flatten;
    if !Stops(img, pos) {
      DecodesAhead(img, pos);
      ScanNext(img, pos);
      var len := U32At(img, pos + 4);
      var next := pos + len;
      FoundScan(img, next);
      ConsEntries(pos, img[pos..next], Found(img, next));
      assert img[pos..ScanEnd(img, pos)] == img[pos..next] + img[next..ScanEnd(img, pos)];
      if len >= HEADER {
        DecodedWellFormed(img, pos);
      }
    } else {
      ScanLast(img, pos);
      NoEntries(pos);
    }
  }

  lemma DecodedWellFormed(img: seq<byte>, pos: nat)
    requires pos + HEADER <= |img| && Decodes(img, pos) && U32At(img, pos + 4) >= HEADER
    ensures WellFormed(img[pos..pos + U32At(img, pos + 4)])
  {
    hide Value, Checksum;
    var len := U32At(img, pos + 4);
    Slice(img, pos, pos + len, 0, 4);
    Slice(img, pos, pos + len, 4, 8);
    Slice(img, pos, pos + len, CRC_LEN, len);
  }

  /** What a byte image must satisfy to come back as a page with room and whole entries. */
  ghost predicate Recoverable(img: seq<byte>) {
    && PAGE_HEADER <= |img| && ScanEnd(img, PAGE_HEADER) + RESERVED <= |img|
    && forall i :: 0 <= i < |Found(img, PAGE_HEADER)| ==> |Found(img, PAGE_HEADER)[i]| >= HEADER
  }

  lemma FoundLaid(img: seq<byte>)
    requires PAGE_HEADER + RESERVED <= |img| <= MAX_SIZE && HeaderOk(img)
    ensures Laid(img, U64At(img, 8), Scan(img, PAGE_HEADER), ScanEnd(img, PAGE_HEADER), Found(img, PAGE_HEADER)) <==>
              Recoverable(img)
  {
    hide HeaderOk, Scan, ScanEnd, Found, Value, Checksum, Flatten, Offsets;
    FoundScan(img, PAGE_HEADER);
    PowSizes();
    ValueBelow(img[8..16]);
  }

  lemma ClearedBody(img: seq<byte>, index: nat)
    requires |img| >= PAGE_HEADER
    ensures Patch(Patch(Patch(img, 0, Le(0, PAGE_HEADER)), 0, Le(1, 4)), 8, Le(index, 8))[..28] == HeaderBody(index)
  {
    hide Le;
    LeZeros(PAGE_HEADER);
    LeZeros(4);
    LeZeros(12);
    var r, h := Patch(Patch(Patch(img, 0, Le(0, PAGE_HEADER)), 0, Le(1, 4)), 8, Le(index, 8)), HeaderBody(index);
    forall i | 0 <= i < 28
      ensures r[i] == h[i]
    {
      if 4 <= i < 8 {
        assert h[i] == Le(0, 4)[i - 4];
      } else if 16 <= i {
        assert h[i] == Le(0, 12)[i - 16];
      } else if 8 <= i {
        assert h[i] == Le(index, 8)[i - 8];
      }
    }
  }

  lemma FlattenRange(es: seq<seq<byte>>, k: nat, count: nat)
    requires k + count <= |es|
    ensures var q, b := |Flatten(es[..k])|, Flatten(es[k..k + count]);
            q + |b| <= |Flatten(es)| && Flatten(es)[q..q + |b|] == b
  {
    FlattenTake(0, es, k + count);
    FlattenSplit(es[..k + count], k);
    assert es[..k + count][..k] == es[..k] && es[..k + count][k..] == es[k..k + count];
  }

  lemma {:induction false} FlattenSplit(es: seq<seq<byte>>, k: nat)
    requires k <= |es|
    ensures Flatten(es) == Flatten(es[..k]) + Flatten(es[k..])
  {
    if k > 0 {
      FlattenSplit(es[1..], k - 1);
      assert es[..k][1..] == es[1..][..k - 1] && es[k..] == es[1..][k - 1..];
    } else {
      assert es[..0] == [] && es[0..] == es;
    }
  }

  lemma SnocRange<T>(s: seq<T>, a: nat, b: nat)
    requires a <= b < |s|
    ensures s[a..b] + [s[b]] == s[a..b + 1]
  {
  }

  lemma {:induction false} LeZeros(n: nat)
    ensures forall i :: 0 <= i < n ==> Le(0, n)[i] == 0
  {
    if n > 0 {
      LeZeros(n - 1);
    }
  }
}
