/** The two-page log store (src/store.c). Whatever the pages do, the store is one contiguous
    sequence of entries: `Log()` holds those with indexes `ssIndex + 1` to `lastIndex`. */
module Store {
  import opened Entry
  import opened Image
  import opened Basics
  import opened Page

  const MAX_ENTRY_SIZE := 0x2000_0000  // STORE_MAX_ENTRY_SIZE

  const PAGE_ROOM := MAX_SIZE - PAGE_HEADER - RESERVED  // what the largest page can hold

  class Store {
    var p0: Page
    var p1: Page
    var curr: Page
    var ssIndex: nat
    var ssTerm: nat
    var lastIndex: nat
    var lastTerm: nat

    /** store_init: maps both files and reads the log out of them. */
    constructor (file0: seq<byte>, file1: seq<byte>, ssTerm: nat, ssIndex: nat)
      requires |file0| <= MAX_SIZE && |file1| <= MAX_SIZE && ssIndex < U64
      ensures this.ssTerm == ssTerm && this.ssIndex == ssIndex && Linked() && Resolves()
      ensures fresh(p0) && fresh(p1) && fresh(p0.mem) && fresh(p1.mem)
      ensures || (FromFile(p0, file0) && FromFile(p1, file1))
              || (FromFile(p0, file1) && FromFile(p1, file0))
      ensures p0.Valid() && p1.Valid() ==> Valid()
      ensures file0 == [] && file1 == [] && ssIndex == 0 ==>
                Valid() && Marked() && curr == p0 && All() == [] && lastIndex == 0 && p0.prev == p1.prev == 0
      ensures if StartOf(file1, ssIndex) < StartOf(file0, ssIndex) then Opened(file1, file0) else Opened(file0, file1)
      ensures curr == if p1.entries == [] then p0 else p1
    {
      hide EndsAt, Laid, Page.Valid, Page.Scanned, Mapping, Linked, Resolves, Valid, HeaderOk, Marked, All;
      hide FromFile, Opened, StartOf, Cleared;
      var a := new Page();
      var b := new Page();
      p0, p1, curr := a, b, a;
      this.ssIndex, this.ssTerm, lastIndex, lastTerm := ssIndex, ssTerm, 0, 0;
      new;
      ReadFiles(file0, file1);
      EmptyStore();
    }

    /** store_read. */
    method ReadFiles(file0: seq<byte>, file1: seq<byte>)
      requires |file0| <= MAX_SIZE && |file1| <= MAX_SIZE && ssIndex < U64 && p0 != p1
      modifies this, p0, p1
      ensures {p0, p1} == old({p0, p1}) && fresh(p0.mem) && fresh(p1.mem)
      ensures ssIndex == old(ssIndex) && ssTerm == old(ssTerm) && Linked() && Resolves()
      ensures || (FromFile(p0, file0) && FromFile(p1, file1))
              || (FromFile(p0, file1) && FromFile(p1, file0))
      ensures p0.Valid() && p1.Valid() ==> Valid()
      ensures file0 == [] && file1 == [] && ssIndex == 0 ==> Cleared(p0, 0) && Cleared(p1, 0)
      ensures if StartOf(file1, ssIndex) < StartOf(file0, ssIndex) then Opened(file1, file0) else Opened(file0, file1)
      ensures curr == if p1.entries == [] then p0 else p1
    {
      hide EndsAt, Laid, Page.Valid, Page.Scanned, Mapping, Linked, Resolves, Valid, HeaderOk, StartOf, EndOf;
      ghost var a, b := p0, p1;
      LoadPages(file0, file1);
      LoadedSpan(p0, file0, ssIndex);
      LoadedSpan(p1, file1, ssIndex);
      Recover();
      assert FromFile(a, file0) && FromFile(b, file1);
    }

    /** Both files are mapped and scanned. */
    method LoadPages(file0: seq<byte>, file1: seq<byte>)
      requires |file0| <= MAX_SIZE && |file1| <= MAX_SIZE && ssIndex < U64 && p0 != p1
      modifies p0, p1
      ensures fresh(p0.mem) && fresh(p1.mem) && p0.mem != p1.mem && Mappable(p0) && Mappable(p1)
      ensures FromFile(p0, file0) && FromFile(p1, file1)
      ensures Loaded(p0, file0, ssIndex) && Loaded(p1, file1, ssIndex)
      ensures file0 == [] && ssIndex == 0 ==> Cleared(p0, 0)
      ensures file1 == [] && ssIndex == 0 ==> Cleared(p1, 0)
    {
      hide EndsAt, Laid, Page.Valid, Recoverable, HeaderOk, Mapping, Page.Scanned, U32At, U64At, Checksum, Scan;
      p0.Init(file0, 0, ssIndex);
      p1.Init(file1, 0, ssIndex);
      if file0 == [] && ssIndex == 0 {
        p0.BlankInit();
      }
      if file1 == [] && ssIndex == 0 {
        p1.BlankInit();
      }
    }

    lemma EmptyStore()
      requires Linked()
      ensures Cleared(p0, 0) && Cleared(p1, 0) ==>
                && p0.Valid() && p1.Valid() && Marked() && curr == p0 && All() == []
                && lastIndex == p0.prev == p1.prev == ssIndex
    {
      hide Laid, Page.Valid, EndsAt;
      if Cleared(p0, 0) && Cleared(p1, 0) {
        p0.LogSize();
        p1.LogSize();
      }
    }

    /** The page is empty or holds what a scan of the file finds: no entry is invented. */
    static ghost predicate FromFile(p: Page, file: seq<byte>)
      reads p, p.mem
    {
      p.mem.Length == MapLen(file, 0) && (p.entries == [] || p.Scanned(Mapping(file, 0)))
    }

    /** The page is what page_init makes of the file: what the scan finds, or empty at the snapshot when the
        header is not good. */
    static ghost predicate Loaded(p: Page, file: seq<byte>, ss: nat)
      reads p, p.mem
    {
      && p.mem.Length == MapLen(file, 0)
      && (if HeaderOk(Mapping(file, 0)) then p.Scanned(Mapping(file, 0)) else Cleared(p, ss))
    }

    /** The index before the first entry in the file, and the last one. */
    static ghost function StartOf(file: seq<byte>, ss: nat): nat {
      if HeaderOk(Mapping(file, 0)) then U64At(Mapping(file, 0), 8) else ss
    }

    static ghost function EndOf(file: seq<byte>, ss: nat): nat {
      if HeaderOk(Mapping(file, 0)) then StartOf(file, ss) + |Scan(Mapping(file, 0), PAGE_HEADER)| else ss
    }

    /** What becomes of two files, `lo` being the one that starts first: it stays, as page 0, if the snapshot
        lies in it; the other stays if it continues from there. */
    ghost predicate Opened(lo: seq<byte>, hi: seq<byte>)
      reads this, p0, p1, p0.mem, p1.mem
    {
      var keepLo := StartOf(lo, ssIndex) <= ssIndex < EndOf(lo, ssIndex);
      var keepHi := StartOf(hi, ssIndex) == if keepLo then EndOf(lo, ssIndex) else ssIndex;
      if keepLo then Loaded(p0, lo, ssIndex) && (if keepHi then Loaded(p1, hi, ssIndex) else Cleared(p1, ssIndex))
      else Cleared(p1, ssIndex) && (if keepHi then Loaded(p0, hi, ssIndex) else Cleared(p0, ssIndex))
    }

    static lemma LoadedSpan(p: Page, file: seq<byte>, ss: nat)
      requires Loaded(p, file, ss)
      ensures p.prev == StartOf(file, ss) && p.Last() == EndOf(file, ss)
    {
      hide Laid, Page.Valid, EndsAt, HeaderOk, Scan, ScanEnd, Found, U64At, Mapping;
    }

    /** Page 0 starts at or before the snapshot and reaches it; page 1 is empty or continues page 0. */
    ghost predicate Linked()
      reads this, p0, p1, curr
    {
      && p0 != p1 && p0.mem != p1.mem
      && p0.prev <= ssIndex <= p0.Last() && ssIndex < U64
      && (curr == p0 || curr == p1)
      && (curr == p0 ==> p1.entries == [])
      && (curr == p1 ==> p1.prev == p0.Last() && p0.entries != [])
      && lastIndex == curr.Last()
    }

    ghost predicate Valid()
      reads this, p0, p1, curr, p0.mem, p1.mem
    {
      Linked() && p0.Valid() && p1.Valid() && lastTerm == TermAt(lastIndex)
    }

    /** Every index after the snapshot up to the last is found on a page. */
    ghost predicate Resolves()
      reads this, p0, p1
    {
      lastIndex >= ssIndex && forall i :: ssIndex < i <= lastIndex ==> p0.EntryAt(i).Some? || p1.EntryAt(i).Some?
    }

    /** Both pages end with the end mark. */
    ghost predicate Marked()
      reads this, p0, p1, p0.mem, p1.mem
    {
      p0.Marked() && p1.Marked()
    }

    /** The fields a page is judged by. */
    static ghost predicate Mappable(p: Page)
      reads p
    {
      p.Readable() && PAGE_HEADER + RESERVED <= p.mem.Length <= MAX_SIZE
    }

    static ghost predicate Cleared(p: Page, index: nat)
      reads p, p.mem
    {
      p.Valid() && p.Marked() && p.entries == [] && p.prev == index
    }

    /** The clearing half of store_read, `lo` being the page with the lower start: it stays if the
        snapshot lies in it, the other stays if it continues from there, and a page that does not
        stay is cleared at the snapshot. */
    static method Trim(lo: Page, hi: Page, ss: nat)
      requires lo != hi && lo.mem != hi.mem && Mappable(lo) && Mappable(hi) && ss < U64
      modifies lo, hi, lo.mem, hi.mem
      ensures lo.mem == old(lo.mem) && hi.mem == old(hi.mem) && lo.Readable() && hi.Readable()
      ensures if lo.entries == [] then hi.prev == ss && lo.prev == ss
              else lo.prev <= ss < lo.Last() && (hi.entries == [] || hi.prev == lo.Last())
      ensures var keepLo := old(lo.prev) <= ss < old(lo.Last());
              var keepHi := old(hi.prev) == if keepLo then old(lo.Last()) else ss;
              && (if keepLo then unchanged(lo, lo.mem) else Cleared(lo, ss))
              && (if keepHi then unchanged(hi, hi.mem) else Cleared(hi, ss))
    {
      hide Laid, Page.Valid;
      if lo.prev > ss || lo.Last() <= ss {
        lo.Clear(ss);
      }
      if hi.prev != lo.Last() {
        hi.Clear(ss);
      }
    }

    /** The first half of store_read: the page that starts first stays if the snapshot lies in it, the
        other if it continues from there; a page that does not stay is cleared and comes second. */
    method Arrange()
      requires p0 != p1 && p0.mem != p1.mem && Mappable(p0) && Mappable(p1) && ssIndex < U64
      modifies this`p0, this`p1, p0, p1, p0.mem, p1.mem
      ensures {p0, p1} == old({p0, p1}) && p0 != p1 && p0.mem != p1.mem && p0.Readable() && p1.Readable()
      ensures {p0.mem, p1.mem} == old({p0.mem, p1.mem})
      ensures p0.prev <= ssIndex <= p0.Last() && (p1.entries == [] || (p1.prev == p0.Last() && p0.entries != []))
      ensures forall p :: p in old({p0, p1}) ==> p.mem == old(p.mem) && (Cleared(p, ssIndex) || unchanged(p, p.mem))
      ensures var swap := old(p1.prev) < old(p0.prev);
              var lo, hi := if swap then old(p1) else old(p0), if swap then old(p0) else old(p1);
              var keepLo := old(lo.prev) <= ssIndex < old(lo.Last());
              var keepHi := old(hi.prev) == if keepLo then old(lo.Last()) else ssIndex;
              && p0 == (if keepLo then lo else hi) && p1 == (if keepLo then hi else lo)
              && (if keepLo then unchanged(lo, lo.mem) else Cleared(lo, ssIndex))
              && (if keepHi then unchanged(hi, hi.mem) else Cleared(hi, ssIndex))
    {
      hide Laid, Page.Valid, U64At, EndsAt;
      if p1.prev < p0.prev {
        p0, p1 := p1, p0;
      }
      Trim(p0, p1, ssIndex);
      if |p0.entries| == 0 {
        p0, p1 := p1, p0;
      }
    }

    /** store_read after the pages were scanned, whatever they hold. */
    method Recover()
      requires p0 != p1 && p0.mem != p1.mem && Mappable(p0) && Mappable(p1) && ssIndex < U64
      modifies this, p0, p1, p0.mem, p1.mem
      ensures {p0, p1} == old({p0, p1}) && {p0.mem, p1.mem} == old({p0.mem, p1.mem})
      ensures Linked() && Resolves() && ssIndex == old(ssIndex) && ssTerm == old(ssTerm)
      ensures forall p :: p in old({p0, p1}) ==> p.mem == old(p.mem) && (Cleared(p, ssIndex) || unchanged(p, p.mem))
      ensures p0.Valid() && p1.Valid() ==> Valid()
      ensures var swap := old(p1.prev) < old(p0.prev);
              var lo, hi := if swap then old(p1) else old(p0), if swap then old(p0) else old(p1);
              var keepLo := old(lo.prev) <= ssIndex < old(lo.Last());
              var keepHi := old(hi.prev) == if keepLo then old(lo.Last()) else ssIndex;
              && p0 == (if keepLo then lo else hi) && p1 == (if keepLo then hi else lo)
              && (if keepLo then unchanged(lo, lo.mem) else Cleared(lo, ssIndex))
              && (if keepHi then unchanged(hi, hi.mem) else Cleared(hi, ssIndex))
      ensures curr == if p1.entries == [] then p0 else p1
    {
      hide Laid, Page.Valid, U64At, Page.LastTerm, Page.EntryAt, Resolves, EndsAt, Linked;
      Arrange();
      Settle();
    }

    /** The end of store_read: the current page, the last index and the last term. */
    method Settle()
      requires p0 != p1 && p0.mem != p1.mem && p0.Readable() && p1.Readable()
      requires p0.prev <= ssIndex <= p0.Last() && ssIndex < U64
      requires p1.entries == [] || (p1.prev == p0.Last() && p0.entries != [])
      modifies this`curr, this`lastIndex, this`lastTerm
      ensures Linked() && Resolves() && curr == if p1.entries == [] then p0 else p1
      ensures p0.Valid() && p1.Valid() ==> Valid()
    {
      hide Laid, Page.Valid, U64At;
      curr := if |p1.entries| > 0 then p1 else p0;
      lastIndex := curr.Last();
      lastTerm := if |curr.entries| != 0 then curr.LastTerm() else ssTerm;
      if p0.Valid() && p1.Valid() {
        LastTermAgrees();
      }
    }

    lemma LastTermAgrees()
      requires Linked() && p0.Valid() && p1.Valid()
      ensures curr.Readable()
      ensures (curr == p1 ==> p1.entries != []) ==>
                lastTerm == (if |curr.entries| != 0 then curr.LastTerm() else ssTerm) ==> Valid()
    {
      hide Laid, Page.Valid, TermOf, U64At;
      p0.LastTermOf();
      p1.LastTermOf();
    }

    /** All entries on the pages, from index `p0.prev + 1`. */
    ghost function All(): seq<seq<byte>>
      reads this, p0, p1
    {
      p0.Log + p1.Log
    }

    /** The entries after the snapshot. */
    ghost function Log(): seq<seq<byte>>
      reads this, p0, p1
    {
      Suffix(p0.prev, All(), ssIndex)
    }

    /** store_get_entry on the sequence. */
    ghost function At(index: nat): Option<seq<byte>>
      reads this, p0, p1
    {
      AtIn(p0.prev, All(), index)
    }

    /** store_prev_term: the term of an entry, or the snapshot's when it is not stored. */
    ghost function TermAt(index: nat): nat
      reads this, p0, p1
    {
      TermIn(p0.prev, All(), ssTerm, index)
    }

    /** `Log()` is `At` over the indexes after the snapshot, and nothing lies beyond `lastIndex`. */
    lemma LogIndexes()
      requires Valid()
      ensures |p0.entries| == |p0.Log| && |p1.entries| == |p1.Log|
      ensures lastIndex == ssIndex + |Log()| == p0.prev + |All()|
      ensures forall i :: ssIndex < i <= lastIndex ==> At(i) == Some(Log()[i - ssIndex - 1])
      ensures forall i :: i > lastIndex ==> At(i) == None
    {
      hide Laid, Page.Valid, AtIn, Suffix;
      Sizes();
      SuffixAt(p0.prev, All(), ssIndex);
    }

    lemma Sizes()
      requires Linked() && p0.Valid() && p1.Valid()
      ensures |p0.entries| == |p0.Log| && |p1.entries| == |p1.Log|
      ensures lastIndex == p0.prev + |All()| && p0.prev <= ssIndex <= lastIndex
      ensures curr == p0 ==> p1.Log == []
    {
      hide Laid, Page.Valid;
      p0.LogSize();
      p1.LogSize();
    }

    /** Every stored entry is whole. */
    lemma AtWellFormed(index: nat)
      requires Valid() && At(index).Some?
      ensures WellFormed(At(index).value) && |At(index).value| >= HEADER && TermAt(index) == TermOf(At(index).value)
    {
      hide Laid, Page.Valid, WellFormed;
      p0.LogWellFormed();
      p1.LogWellFormed();
    }

    /** store_get_entry: page 0 first, then page 1. */
    method GetEntry(index: nat) returns (r: Option<seq<byte>>)
      requires Valid()
      ensures r == At(index)
    {
      hide Laid, Page.Valid, AtIn;
      Sizes();
      AtConcat(p0.prev, p0.Log, p1.Log, index);
      AtNone(p1.prev, index);
      AtNone(p0.prev + |p0.Log|, index);
      r := ReadEntry(p0, index);
      if r.None? {
        r := ReadEntry(p1, index);
      }
    }

    /** page_entry_at with the bytes it points to. */
    static method ReadEntry(p: Page, index: nat) returns (r: Option<seq<byte>>)
      requires p.Valid()
      ensures r == AtIn(p.prev, p.Log, index)
    {
      hide Laid, U32At, WellFormed, Page.Valid;
      p.LogSize();
      var at := p.EntryAt(index);
      if at.None? {
        return None;
      }
      ghost var k := index - p.prev - 1;
      p.EntryBytes(index);
      var pos := at.value;
      var img := p.mem[..];
      var len := U32At(img, pos + 4);
      assert len == |p.Log[k]|;
      assert img[pos..pos + len] == p.Log[k];
      r := Some(img[pos..pos + len]);
    }

    /** store_prev_term. */
    method PrevTerm(index: nat) returns (t: nat)
      requires Valid()
      ensures t == TermAt(index)
    {
      var e := GetEntry(index);
      if e.Some? {
        AtWellFormed(index);
        t := TermOf(e.value);
      } else {
        t := ssTerm;
      }
    }

    /** Same pages, same entries, same indexes; only byte buffers may have been replaced. */
    twostate predicate Same()
      reads this, p0, p1
    {
      && p0 == old(p0) && p1 == old(p1)
      && All() == old(All()) && p0.prev == old(p0.prev)
      && ssIndex == old(ssIndex) && ssTerm == old(ssTerm)
      && lastIndex == old(lastIndex) && lastTerm == old(lastTerm)
    }

    twostate predicate Buffers()
      reads this, p0, p1
    {
      && (p0.mem == old(p0.mem) || fresh(p0.mem))
      && (p1.mem == old(p1.mem) || fresh(p1.mem))
    }

    /** page_reserve on the current page. */
    method GrowCurrent(size: nat) returns (rc: Rc)
      requires Valid()
      modifies p0, p1
      ensures Buffers() && p0 == old(p0) && p1 == old(p1)
      ensures old(curr) == p1 ==> curr == p1 && unchanged(p0)
      ensures rc != Error ==> Valid() && Same() && p0.Log == old(p0.Log) && p1.Log == old(p1.Log)
      ensures rc == Ok ==> Fits(size)
      ensures rc == Full <==> old(curr.wpos) + RESERVED + size > MAX_SIZE
      ensures rc == Full ==> unchanged(p0, p1)
      ensures rc == Error ==> LosesEntries(old(curr.Log)) || !old(curr.Marked())
      ensures rc != Error && old(Marked()) ==> Marked()
    {
      hide Laid, Page.Valid, LosesEntries, AtIn, EndsAt;
      Sizes();
      rc := curr.Reserve(size);
      if rc != Error {
        p0.LogSize();
        p1.LogSize();
        curr.QuotaExact();
      }
    }

    /** Page 0 is full: continue on a cleared page 1. */
    method SwitchPage()
      requires Valid() && curr == p0 && p0.entries != [] && lastIndex < U64
      modifies this`curr, p1, p1.mem
      ensures Valid() && Same() && Buffers() && curr == p1 && p0.mem == old(p0.mem)
      ensures p1.Marked() && p1.mem == old(p1.mem) && p1.entries == []
    {
      hide Laid, Page.Valid, AtIn, EndsAt;
      Sizes();
      p0.LogSize();
      p1.LogSize();
      curr := p1;
      curr.Clear(lastIndex);
    }

    /** The current page has room for an entry of this size. */
    ghost predicate Fits(size: nat)
      reads this, curr
    {
      curr.wpos <= curr.mem.Length && size <= curr.Quota()
    }

    /** The current page cannot take the entry: it has no room left, and it is only too small for
        the entry if no page may be larger. */
    ghost predicate NoRoom(size: nat)
      reads this, curr
    {
      && curr.wpos <= curr.mem.Length && size > curr.Quota()
      && (size <= curr.Cap() || curr.wpos + RESERVED + size > MAX_SIZE)
    }

    /** The retry loop shared by store_create_entry and store_put_entry: grow the page when the
        entry is larger than any page of this size, else move on to page 1. */
    method MakeRoom(size: nat) returns (rc: Rc)
      requires Valid() && lastIndex < U64 && size <= PAGE_ROOM
      modifies this`curr, p0, p1, p0.mem, p1.mem
      ensures Buffers() && p0 == old(p0) && p1 == old(p1)
      ensures old(curr) == p1 ==> curr == p1 && unchanged(p0)
      ensures rc != Error ==> Valid() && Same()
      ensures rc == Ok ==> Fits(size)
      ensures rc == Full ==> curr == p1 && NoRoom(size)
      ensures rc != Error ==> p0.Log == old(p0.Log) && p1.Log == old(p1.Log)
      ensures old(Fits(size)) ==> rc == Ok && unchanged(this, p0, p1)
      ensures old(curr == p0 && !Fits(size)) && size <= old(p0.Cap()) ==> unchanged(p0) && (rc == Ok ==> curr == p1)
      ensures rc == Error ==> || !old(Marked()) || LosesEntries(old(p1.Log))
                              || (size > old(p0.Cap()) && LosesEntries(old(p0.Log)))
      ensures rc != Error && old(Marked()) ==> Marked()
    {
      hide Laid, Page.Valid, LosesEntries, AtIn, Page.Quota, EndsAt;
      rc := Ok;
      curr.QuotaExact();
      while size > curr.Quota()
        invariant Valid() && Same() && Buffers() && curr.wpos <= curr.mem.Length
        invariant rc == Ok && (curr == old(curr) || curr == p1)
        invariant old(curr) == p1 || size <= old(p0.Cap()) ==> unchanged(p0)
        invariant p0.Log == old(p0.Log) && p1.Log == old(p1.Log)
        invariant old(Marked()) ==> Marked()
        invariant old(Fits(size)) ==> unchanged(this, p0, p1)
        decreases if curr == p0 then 2 else 0, if size > curr.Quota() then 1 else 0
      {
        Sizes();
        if curr.entries == [] {
          curr.EmptyPage();
          curr.QuotaExact();
        }
        if size > curr.Cap() {
          rc := GrowCurrent(size);
          if rc == Error {
            return;
          }
          curr.QuotaExact();
          if rc == Ok {
            continue;
          }
        }
        if curr == p1 {
          rc := Full;
          return;
        }
        SwitchPage();
        curr.QuotaExact();
        rc := Ok;
      }
    }

    /** The log grew by `e`. */
    twostate predicate Appended(e: seq<byte>)
      requires |e| >= HEADER
      reads this, p0, p1
    {
      && p0 == old(p0) && p1 == old(p1) && p0.prev == old(p0.prev)
      && All() == old(All()) + [e] && Log() == old(Log()) + [e]
      && ssIndex == old(ssIndex) && ssTerm == old(ssTerm)
      && lastIndex == old(lastIndex) + 1 && lastTerm == TermOf(e)
    }

    /** store_create_entry. */
    method CreateEntry(term: nat, sequence: nat, cid: nat, flags: nat, data: seq<byte>) returns (rc: Rc)
      requires Valid() && lastIndex + 1 < U64 && HEADER + |data| < MAX_ENTRY_SIZE
      requires term < U64 && sequence < U64 && cid < U64 && flags < U32
      modifies this, p0, p1, p0.mem, p1.mem
      ensures Buffers() && p0 == old(p0) && p1 == old(p1)
      ensures old(curr) == p1 ==> curr == p1 && unchanged(p0)
      ensures rc == Ok ==> Valid() && Appended(Encode(term, sequence, cid, flags, data))
      ensures rc == Full ==> Valid() && Same() && curr == p1 && NoRoom(HEADER + |data|)
      ensures old(Fits(HEADER + |data|)) ==>
                rc == Ok && curr == old(curr) && curr.mem == old(curr.mem) && (curr == p0 ==> unchanged(p1))
      ensures old(curr == p0 && !Fits(HEADER + |data|)) && HEADER + |data| <= old(p0.Cap()) ==>
                unchanged(p0) && (rc == Ok ==> curr == p1)
      ensures rc == Error ==> || !old(Marked()) || LosesEntries(old(p1.Log))
                              || (HEADER + |data| > old(p0.Cap()) && LosesEntries(old(p0.Log)))
      ensures rc == Ok ==> curr.Marked()
      ensures rc != Error && old(Marked()) ==> Marked()
    {
      hide EndsAt, Laid, Page.Valid, LosesEntries, AtIn, Encode, Page.Quota, TermOf, SeqOf, CidOf, FlagsOf, DataOf;
      hide WellFormed, Suffix;
      EncodeFields(term, sequence, cid, flags, data);
      rc := MakeRoom(HEADER + |data|);
      if rc != Ok {
        return;
      }
      Sizes();
      ghost var e, was0, was1 := Encode(term, sequence, cid, flags, data), p0.Log, p1.Log;
      curr.CreateEntry(term, sequence, cid, flags, data);
      lastIndex, lastTerm := lastIndex + 1, term;
      AppendedLog(e, was0, was1);
    }

    /** store_put_entry: an entry received from the leader. */
    method PutEntry(index: nat, e: seq<byte>) returns (rc: Rc)
      requires Valid() && WellFormed(e) && HEADER <= |e| <= PAGE_ROOM
      requires index == lastIndex + 1 < U64 && lastTerm <= TermOf(e)
      modifies this, p0, p1, p0.mem, p1.mem
      ensures Buffers() && p0 == old(p0) && p1 == old(p1)
      ensures old(curr) == p1 ==> curr == p1 && unchanged(p0)
      ensures rc == Ok ==> Valid() && Appended(e)
      ensures rc == Full ==> Valid() && Same() && curr == p1 && NoRoom(|e|)
      ensures old(Fits(|e|)) ==>
                rc == Ok && curr == old(curr) && (curr == p0 ==> unchanged(p1))
      ensures rc == Error ==> LosesEntries(old(p0.Log)) || LosesEntries(old(p1.Log)) || !old(Marked())
      ensures rc == Ok ==> curr.Marked()
      ensures rc != Error ==> p0.Last() == if rc == Ok && curr == p0 then index else old(p0.Last())
      ensures rc != Error && old(Marked()) ==> Marked()
    {
      hide EndsAt, Laid, Page.Valid, LosesEntries, AtIn, WellFormed, Page.Quota, TermOf, Suffix;
      Sizes();
      rc := MakeRoom(|e|);
      if rc == Error {
        return;
      }
      Sizes();
      if rc == Full {
        return;
      }
      ghost var was0, was1 := p0.Log, p1.Log;
      curr.PutEntry(e);
      lastIndex, lastTerm := lastIndex + 1, TermOf(e);
      AppendedLog(e, was0, was1);
    }

    lemma AppendedLog(e: seq<byte>, was0: seq<seq<byte>>, was1: seq<seq<byte>>)
      requires p0 != p1 && p0.mem != p1.mem && p0.Valid() && p1.Valid() && |e| >= HEADER
      requires p0.prev <= ssIndex <= p0.prev + |was0| && ssIndex < U64
      requires || (curr == p0 && p0.Log == was0 + [e] && p1.Log == was1 == [])
               || (curr == p1 && p1.Log == was1 + [e] && p0.Log == was0 != [] && p1.prev == p0.prev + |was0|)
      requires lastIndex == p0.prev + |was0| + |was1| + 1 && lastTerm == TermOf(e)
      ensures Valid() && All() == was0 + was1 + [e]
      ensures Log() == Suffix(p0.prev, was0 + was1, ssIndex) + [e]
    {
      hide Laid, Page.Valid, TermOf, Suffix, AtIn;
      p0.LogSize();
      p1.LogSize();
      assert was0 + (was1 + [e]) == was0 + was1 + [e];
      assert All() == was0 + was1 + [e];
      SuffixSnoc(p0.prev, was0 + was1, ssIndex, e);
    }

    /** store_remove_after. It cuts the log back to `index` and keeps the store valid exactly when
        it does not cut into the snapshotted part that page 0 still holds. */
    method RemoveAfter(index: nat)
      requires Valid()
      modifies this, p0, p1, p0.mem, p1.mem
      ensures p0 == old(p0) && p1 == old(p1) && p0.mem == old(p0.mem) && p1.mem == old(p1.mem)
      ensures ssIndex == old(ssIndex) && ssTerm == old(ssTerm)
      ensures Valid() <==> index >= ssIndex || index <= old(p0.prev)
      ensures index >= ssIndex ==> Log() == Upto(old(Log()), index - ssIndex)
      ensures index >= ssIndex ==> p0.prev == old(p0.prev) && All() == CutLog(p0.prev, old(All()), index)
      ensures index >= ssIndex ==> lastIndex == if index < old(lastIndex) then index else old(lastIndex)
      ensures index >= ssIndex ==> p0.Last() == if index < old(p0.Last()) then index else old(p0.Last())
      ensures index >= ssIndex ==> p1.prev == old(p1.prev)
      ensures old(p0.Last()) < index && old(p0.Last()) < old(lastIndex) ==> curr == p1
      ensures ssIndex <= index <= old(p0.Last()) ==> curr == p0
      ensures index >= ssIndex && index >= old(p0.Last()) ==> p0.Log == old(p0.Log)
      ensures old(Marked()) ==> Marked()
    {
      hide EndsAt, Laid, Page.Valid, TermAt, Page.LastTerm;
      hide CutLog, Suffix, Upto;
      Sizes();
      ghost var prev, was0, was1 := p0.prev, p0.Log, p1.Log;
      CutSuffix(prev, was0 + was1, ssIndex, index);
      CutSizes(prev, was0, was1, index);
      CutPages(index);
      SettleAfter(index, prev, was0, was1);
      if index >= ssIndex {
        Sizes();
      }
    }

    /** The first half of store_remove_after: both pages are cut. */
    method CutPages(index: nat)
      requires Valid()
      modifies p0, p1, p0.mem, p1.mem
      ensures p0.mem == old(p0.mem) && p1.mem == old(p1.mem) && p0.Valid() && p1.Valid()
      ensures p0.prev == old(p0.prev) && p1.prev == old(p1.prev)
      ensures p0.Log == CutLog(p0.prev, old(p0.Log), index)
      ensures p1.Log == CutLog(p0.prev + |old(p0.Log)|, old(p1.Log), index)
      ensures old(Marked()) ==> Marked()
    {
      hide EndsAt, Laid, Page.Valid, TermAt;
      Sizes();
      CutEmpty(p1.prev, index);
      CutEmpty(p0.prev + |p0.Log|, index);
      p0.RemoveAfter(index);
      p1.RemoveAfter(index);
    }

    /** The second half of store_remove_after: the current page, the last index and the last term. */
    method SettleAfter(index: nat, ghost prev: nat, ghost was0: seq<seq<byte>>, ghost was1: seq<seq<byte>>)
      requires p0 != p1 && p0.mem != p1.mem && p0.Valid() && p1.Valid() && p0.prev == prev && ssIndex < U64
      requires curr == p0 || curr == p1
      requires prev <= ssIndex <= prev + |was0|
      requires p0.Log == CutLog(prev, was0, index) && p1.Log == CutLog(prev + |was0|, was1, index)
      requires curr == p0 ==> p1.Log == []
      requires p1.Log != [] ==> curr == p1 && p1.prev == prev + |was0| && was0 != []
      modifies this, p0, p0.mem
      ensures unchanged(`p0, `p1, `ssIndex, `ssTerm) && p0.mem == old(p0.mem)
      ensures p0.Log == old(p0.Log) && p1.Log == old(p1.Log)
      ensures Valid() <==> index >= ssIndex || index <= prev
      ensures p0.prev == if old(p0.Log) == [] then ssIndex else prev
      ensures p1.Log != [] <==> curr == p1
      ensures p0.Marked() || !old(p0.Marked())
    {
      hide EndsAt, Laid, Page.Valid, Page.LastTerm, TermAt;
      p0.LastTermOf();
      p1.LastTermOf();
      p0.LogSize();
      if |p1.entries| == 0 {
        curr := p0;
      }
      if |curr.entries| == 0 {
        lastIndex, lastTerm := ssIndex, ssTerm;
        curr.Clear(ssIndex);
      } else {
        lastIndex, lastTerm := curr.Last(), curr.LastTerm();
      }
      if Linked() {
        LastTermAgrees();
      }
    }

    /** store_snapshot_taken: page 0 is covered by the snapshot, page 1 takes its place. The store
        stays valid exactly when page 1 continues page 0, and then only the snapshotted entries go. */
    method SnapshotTaken()
      requires Valid() && p0.entries != []
      modifies this, p0, p0.mem
      ensures ssIndex == old(p0.Last()) && ssTerm == old(TermAt(p0.Last()))
      ensures p0 == old(p1) && p1 == old(p0) && curr == p0 && p1.mem == old(p0.mem) && unchanged(p0)
      ensures lastIndex == old(lastIndex) && lastTerm == old(lastTerm)
      ensures Valid() <==> old(p1.prev) == old(p0.Last())
      ensures Valid() ==> old(ssIndex) <= ssIndex <= lastIndex && Log() == old(Log())[ssIndex - old(ssIndex)..]
      ensures All() == old(p1.Log)
      ensures old(Marked()) ==> Marked()
    {
      hide Laid, Page.Valid, TermOf, TermIn, AtIn, Page.LastTerm, Suffix, EndsAt;
      Sizes();
      LogIndexes();
      p0.LastTermOf();
      p1.LastTermOf();
      p0.LogSize();
      p1.LogSize();
      ghost var a, b := p0.Log, p1.Log;
      TermShift(p0.prev, a, b, ssTerm);
      SuffixDrop(p0.prev, a, b, ssIndex);
      ssIndex, ssTerm := p0.Last(), p0.LastTerm();
      p0.Clear(0);
      p0, p1 := p1, p0;
      curr := p0;
      assert All() == b;
    }

    /** store_reserve. */
    method Reserve(size: nat) returns (rc: Rc)
      requires Valid() && curr == p1
      modifies p0, p1
      ensures Buffers() && p0 == old(p0) && p1 == old(p1)
      ensures old(curr) == p1 ==> curr == p1 && unchanged(p0)
      ensures rc != Error ==> Valid() && Same()
      ensures rc == Ok ==> Fits(size)
      ensures rc == Full <==> old(curr.wpos) + RESERVED + size > MAX_SIZE
      ensures rc == Full ==> unchanged(p0, p1)
      ensures rc == Error ==> LosesEntries(old(p1.Log)) || !old(Marked())
      ensures rc != Error && old(Marked()) ==> Marked()
    {
      rc := GrowCurrent(size);
    }

    /** store_ss_index: page 0 can be snapshotted once page 1 is in use. */
    function SnapshotIndex(): Option<nat>
      reads this, p0, p1
    {
      if p1.entries == [] then None else Some(p0.Last())
    }

    lemma Continues()
      requires Valid()
      ensures p0.prev <= ssIndex <= p0.Last() <= lastIndex && lastTerm == TermAt(lastIndex)
      ensures curr == p1 ==> p1.prev == p0.Last()
    {
    }

    lemma SnapshotReady()
      requires Valid() && SnapshotIndex().Some?
      ensures curr == p1 && p0.entries != []
    {
    }

    /** store_entries: what is sent to a follower is whole consecutive entries of the log. */
    method Entries(index: nat, limit: nat) returns (bytes: seq<byte>, count: nat)
      requires Valid()
      ensures count == 0 <==> !(p0.prev < index <= lastIndex)
      ensures count == 0 ==> bytes == []
      ensures count > 0 ==> index + count - 1 <= lastIndex
      ensures count > 0 ==> bytes == Flatten(All()[index - p0.prev - 1..index - p0.prev - 1 + count])
      ensures count > 0 ==> |bytes| >= limit || index + count - 1 == p0.Last() || index + count - 1 == lastIndex
      ensures count > 1 ==> |Flatten(All()[index - p0.prev - 1..index - p0.prev - 1 + count - 1])| < limit
    {
      hide Laid, Page.Valid, Flatten, AtIn;
      Sizes();
      var at, size, n := p0.GetEntries(index, limit);
      if at.Some? {
        ghost var k := index - p0.prev - 1;
        bytes, count := p0.mem[..][at.value..at.value + size], n;
        ConcatSlices(p0.Log, p1.Log, k, k + count);
        ConcatSlices(p0.Log, p1.Log, k, k + count - 1);
        return;
      }
      at, size, n := p1.GetEntries(index, limit);
      if at.Some? {
        ghost var k, j := index - p0.prev - 1, index - p1.prev - 1;
        bytes, count := p1.mem[..][at.value..at.value + size], n;
        ConcatSlices(p0.Log, p1.Log, j, j + count);
        ConcatSlices(p0.Log, p1.Log, j, j + count - 1);
        assert k == |p0.Log| + j;
        return;
      }
      bytes, count := [], 0;
    }
  }

  // The log as a sequence that starts after index `prev`

  /** The entry with this index. */
  ghost function AtIn(prev: nat, all: seq<seq<byte>>, index: nat): Option<seq<byte>> {
    if prev < index <= prev + |all| then Some(all[index - prev - 1]) else None
  }

  ghost function TermIn(prev: nat, all: seq<seq<byte>>, ssTerm: nat, index: nat): nat {
    var e := AtIn(prev, all, index);
    if e.Some? && |e.value| >= HEADER then TermOf(e.value) else ssTerm
  }

  /** Dropping a page keeps the last term, the snapshot's term being that of the page's last entry. */
  lemma TermShift(prev: nat, a: seq<seq<byte>>, b: seq<seq<byte>>, ssTerm: nat)
    requires a != [] && |a[|a| - 1]| >= HEADER && (b != [] ==> |b[|b| - 1]| >= HEADER)
    ensures var last := prev + |a| + |b|;
            TermIn(prev, a + b, ssTerm, last) == TermIn(prev + |a|, b, TermOf(a[|a| - 1]), last)
    ensures TermIn(prev, a + b, ssTerm, prev + |a|) == TermOf(a[|a| - 1])
  {
    hide TermOf;
    var last := prev + |a| + |b|;
    assert (a + b)[|a| - 1] == a[|a| - 1];
    assert AtIn(prev, a + b, prev + |a|) == Some(a[|a| - 1]);
    if b == [] {
      assert a + b == a && AtIn(prev + |a|, b, last) == None;
    } else {
      assert AtIn(prev, a + b, last) == Some(b[|b| - 1]) == AtIn(prev + |a|, b, last);
    }
  }

  lemma ConcatSlices(a: seq<seq<byte>>, b: seq<seq<byte>>, c: nat, d: nat)
    requires c <= d
    ensures d <= |a| ==> (a + b)[c..d] == a[c..d]
    ensures d <= |b| ==> (a + b)[|a| + c..|a| + d] == b[c..d]
  {
    if d <= |b| {
      var x, y := (a + b)[|a| + c..|a| + d], b[c..d];
      assert forall i :: 0 <= i < d - c ==> x[i] == (a + b)[|a| + c + i] == b[c + i] == y[i];
    }
  }

  /** The entries after `ss`. */
  ghost function Suffix(prev: nat, all: seq<seq<byte>>, ss: nat): seq<seq<byte>> {
    if prev <= ss <= prev + |all| then all[ss - prev..] else []
  }

  lemma AtConcat(prev: nat, a: seq<seq<byte>>, b: seq<seq<byte>>, index: nat)
    ensures AtIn(prev, a + b, index) == if AtIn(prev, a, index).Some? then AtIn(prev, a, index)
              else AtIn(prev + |a|, b, index)
  {
  }

  lemma AtNone(prev: nat, index: nat)
    ensures AtIn(prev, [], index) == None
  {
  }

  /** At most the first `n` elements. */
  ghost function Upto(s: seq<seq<byte>>, n: nat): seq<seq<byte>> {
    if n < |s| then s[..n] else s
  }

  /** What page_remove_after leaves of a page that starts after `prev`. */
  ghost function CutLog(prev: nat, log: seq<seq<byte>>, index: nat): seq<seq<byte>> {
    if index <= prev then [] else Upto(log, index - prev)
  }

  lemma CutEmpty(prev: nat, index: nat)
    ensures CutLog(prev, [], index) == []
  {
  }

  /** Cutting two consecutive pages cuts their concatenation. */
  lemma CutSizes(prev: nat, a: seq<seq<byte>>, b: seq<seq<byte>>, index: nat)
    ensures index >= prev + |a| ==> CutLog(prev, a, index) == a
    ensures |CutLog(prev, a, index)| == if index <= prev then 0 else if index - prev < |a| then index - prev else |a|
    ensures index <= prev + |a| || b == [] <==> CutLog(prev + |a|, b, index) == []
    ensures CutLog(prev, a, index) + CutLog(prev + |a|, b, index) == CutLog(prev, a + b, index)
    ensures |CutLog(prev, a + b, index)| == if index <= prev then 0 else if index - prev < |a + b| then index - prev
              else |a + b|
  {
  }

  lemma CutTerm(prev: nat, all: seq<seq<byte>>, ssTerm: nat, index: nat)
    requires prev <= index <= prev + |all|
    ensures TermIn(prev, CutLog(prev, all, index), ssTerm, index) == TermIn(prev, all, ssTerm, index)
  {
  }

  lemma CutSuffix(prev: nat, all: seq<seq<byte>>, ss: nat, index: nat)
    requires prev <= ss <= prev + |all|
    ensures index >= ss ==> Suffix(prev, CutLog(prev, all, index), ss) == Upto(Suffix(prev, all, ss), index - ss)
  {
  }

  lemma SuffixDrop(prev: nat, a: seq<seq<byte>>, b: seq<seq<byte>>, ss: nat)
    requires prev <= ss <= prev + |a|
    ensures |Suffix(prev, a + b, ss)| == prev + |a| + |b| - ss
    ensures Suffix(prev, a + b, ss)[prev + |a| - ss..] == Suffix(prev + |a|, b, prev + |a|)
  {
  }

  lemma SuffixSnoc(prev: nat, all: seq<seq<byte>>, ss: nat, e: seq<byte>)
    requires prev <= ss <= prev + |all|
    ensures Suffix(prev, all + [e], ss) == Suffix(prev, all, ss) + [e]
    ensures AtIn(prev, all + [e], prev + |all| + 1) == Some(e)
  {
  }

  lemma SuffixAt(prev: nat, all: seq<seq<byte>>, ss: nat)
    requires prev <= ss <= prev + |all|
    ensures prev + |all| == ss + |Suffix(prev, all, ss)|
    ensures forall i :: ss < i <= prev + |all| ==> AtIn(prev, all, i) == Some(Suffix(prev, all, ss)[i - ss - 1])
    ensures forall i :: i > prev + |all| ==> AtIn(prev, all, i) == None
  {
  }
}
