/** A restart: a store that is opened over the bytes another one left (store_init in src/store.c). */
module Reopen {
  import opened Basics
  import opened Entry
  import opened Image
  import opened Page
  import opened Store

  /** The page comes back whole from its file: it ends with the end mark and no checksum is zero. */
  ghost predicate Durable(p: Page)
    reads p, p.mem
  {
    p.Valid() && p.Marked() && !LosesEntries(p.Log)
  }

  /** What a scan finds in an image that a log is laid out in. */
  lemma FoundIsLog(img: seq<byte>, prev: nat, log: seq<seq<byte>>)
    requires PAGE_HEADER <= |img|
    requires Laid(img, prev, Scan(img, PAGE_HEADER), ScanEnd(img, PAGE_HEADER), log)
    ensures Found(img, PAGE_HEADER) == log
  {
    hide Scan, ScanEnd, Found, HeaderOk, WellFormed, U64At;
    FoundScan(img, PAGE_HEADER);
    SameEntries(PAGE_HEADER, Found(img, PAGE_HEADER), log);
  }

  lemma FileImage(p: Page)
    requires Durable(p)
    ensures var img := Mapping(p.mem[..], 0);
            && HeaderOk(img) && U64At(img, 8) == p.prev && |Scan(img, PAGE_HEADER)| == |p.Log| == |p.entries|
            && Laid(img, p.prev, Scan(img, PAGE_HEADER), ScanEnd(img, PAGE_HEADER), p.Log)
  {
    hide HeaderOk, Scan, ScanEnd, U64At, EndsAt, Stops;
    var img, img' := p.mem[..], Mapping(p.mem[..], 0);
    p.LogSize();
    p.LogWellFormed();
    assert Live(p.Log) == |p.Log|;
    assert img'[..|img|] == img;
    hide Laid;
    LaidScan(img, p.prev, p.entries, p.wpos, p.Log, img');
  }

  /** The file's indexes are the page's. */
  lemma FileSpan(p: Page, ss: nat)
    requires Durable(p)
    ensures Store.StartOf(p.mem[..], ss) == p.prev && Store.EndOf(p.mem[..], ss) == p.Last()
  {
    hide Laid, HeaderOk, Scan, ScanEnd, U64At, EndsAt, LosesEntries, Mapping;
    FileImage(p);
  }

  /** What page_init makes of it is the page. */
  lemma Reloads(p: Page, q: Page, ss: nat)
    requires Durable(p) && Store.Loaded(q, p.mem[..], ss)
    ensures q.Valid() && q.prev == p.prev && q.Log == p.Log
  {
    hide Laid, HeaderOk, Scan, ScanEnd, U64At, EndsAt, LosesEntries, Mapping, Found;
    FileImage(p);
    FoundIsLog(Mapping(p.mem[..], 0), p.prev, p.Log);
  }

  /** The entries after `ss` come back when the store is opened there: there are none, or page 0 is the
      page that starts first and reaches the snapshot, or it starts at the snapshot. `swapped` says that
      page 1 is in the first file. */
  ghost predicate Survives(s: Store, ss: nat, swapped: bool)
    reads s, s.p0, s.p1
  {
    || s.lastIndex <= ss
    || (if s.p0.prev < s.p1.prev || (s.p0.prev == s.p1.prev && !swapped) then ss <= s.p0.Last() else s.p0.prev == ss)
  }

  /** The entries of a store after `ss`. */
  ghost function Rest(s: Store, ss: nat): seq<seq<byte>>
    reads s, s.p0, s.p1
  {
    Suffix(s.p0.prev, s.All(), ss)
  }

  /** Page 0 is the one that starts first. */
  lemma LowerFirst(s: Store, r: Store)
    requires s.Valid() && Durable(s.p0) && Durable(s.p1) && s.p0.prev <= r.ssIndex && s.p0.prev <= s.p1.prev
    requires r.Opened(s.p0.mem[..], s.p1.mem[..])
    ensures r.p0.Valid() && r.p1.Valid() && (r.Log() == [] ==> r.p0.prev == r.ssIndex)
    ensures if s.lastIndex <= r.ssIndex || r.ssIndex <= s.p0.Last() then r.Log() == Rest(s, r.ssIndex)
            else r.Log() == [] != Rest(s, r.ssIndex)
  {
    hide Laid, Page.Valid, LosesEntries, EndsAt, HeaderOk, Scan, Mapping, U64At;
    hide Store.StartOf, Store.EndOf, Store.Loaded;
    var ss := r.ssIndex;
    FileSpan(s.p0, ss);
    FileSpan(s.p1, ss);
    s.Sizes();
    if ss < s.p0.Last() {
      Reloads(s.p0, r.p0, ss);
      if s.p1.prev == s.p0.Last() {
        Reloads(s.p1, r.p1, ss);
      } else {
        r.p1.EmptyPage();
      }
    } else {
      r.p1.EmptyPage();
      if s.p1.prev == ss {
        Reloads(s.p1, r.p0, ss);
      } else {
        r.p0.EmptyPage();
      }
    }
  }

  /** Page 0 does not start first; then page 1 is empty. */
  lemma LowerSecond(s: Store, r: Store)
    requires s.Valid() && Durable(s.p0) && Durable(s.p1) && s.p0.prev <= r.ssIndex && s.p1.prev <= s.p0.prev
    requires r.Opened(s.p1.mem[..], s.p0.mem[..])
    ensures r.p0.Valid() && r.p1.Valid() && (r.Log() == [] ==> r.p0.prev == r.ssIndex)
    ensures if s.lastIndex <= r.ssIndex || s.p0.prev == r.ssIndex then r.Log() == Rest(s, r.ssIndex)
            else r.Log() == [] != Rest(s, r.ssIndex)
  {
    hide Laid, Page.Valid, LosesEntries, EndsAt, HeaderOk, Scan, Mapping, U64At;
    hide Store.StartOf, Store.EndOf, Store.Loaded;
    var ss := r.ssIndex;
    FileSpan(s.p0, ss);
    FileSpan(s.p1, ss);
    s.Sizes();
    r.p1.EmptyPage();
    if s.p0.prev == ss {
      Reloads(s.p0, r.p0, ss);
    } else {
      r.p0.EmptyPage();
    }
  }

  /** Opening a store over the files of another, in either order, at its snapshot or a later one. The log
      after the snapshot is the same if and only if it survives, and empty otherwise. */
  method Restart(s: Store, ssTerm: nat, ssIndex: nat, swapped: bool) returns (r: Store)
    requires s.Valid() && Durable(s.p0) && Durable(s.p1) && s.p0.prev <= ssIndex < U64
    ensures fresh(r) && r.Valid() && r.ssIndex == ssIndex && r.ssTerm == ssTerm
    ensures if Survives(s, ssIndex, swapped) then r.Log() == Rest(s, ssIndex)
            else r.Log() == [] != Rest(s, ssIndex)
    ensures r.lastIndex == ssIndex + |r.Log()| && r.lastTerm == if r.Log() == [] then ssTerm else Final(r.Log())
  {
    hide Durable, Store.Valid, Store.StartOf, Store.EndOf, Store.Opened, Store.FromFile, Store.Resolves, Store.Linked;
    hide Rest, Store.Log, Page.Valid;
    Bounds(s, ssIndex);
    if swapped {
      r := new Store(s.p1.mem[..], s.p0.mem[..], ssTerm, ssIndex);
    } else {
      r := new Store(s.p0.mem[..], s.p1.mem[..], ssTerm, ssIndex);
    }
    if s.p0.prev < s.p1.prev || (s.p0.prev == s.p1.prev && !swapped) {
      LowerFirst(s, r);
    } else {
      LowerSecond(s, r);
    }
    LastOf(r);
  }

  lemma Bounds(s: Store, ss: nat)
    requires s.Valid() && Durable(s.p0) && Durable(s.p1)
    ensures s.p0.mem.Length <= MAX_SIZE && s.p1.mem.Length <= MAX_SIZE
    ensures Store.StartOf(s.p0.mem[..], ss) == s.p0.prev && Store.StartOf(s.p1.mem[..], ss) == s.p1.prev
  {
    hide Laid, Page.Valid, LosesEntries, EndsAt, HeaderOk, Scan, Mapping, U64At, Store.StartOf, Store.EndOf;
    s.p0.LogSize();
    s.p1.LogSize();
    FileSpan(s.p0, ss);
    FileSpan(s.p1, ss);
  }

  /** A restart at the store's own snapshot gives the same log, last index and last term. */
  method RestartSame(s: Store, swapped: bool) returns (r: Store)
    requires s.Valid() && Durable(s.p0) && Durable(s.p1) && Survives(s, s.ssIndex, swapped)
    ensures r.Valid() && r.ssIndex == s.ssIndex && r.Log() == s.Log() && r.lastIndex == s.lastIndex
    ensures s.ssTerm == s.TermAt(s.ssIndex) ==> r.lastTerm == s.lastTerm
  {
    hide Durable, Store.Valid, Page.Valid, Survives;
    LastOf(s);
    r := Restart(s, s.ssTerm, s.ssIndex, swapped);
  }

  lemma LastOf(s: Store)
    requires s.Valid()
    ensures s.p0.prev <= s.ssIndex < U64 && s.lastIndex == s.ssIndex + |s.Log()|
    ensures s.lastTerm == if s.Log() == [] then s.TermAt(s.ssIndex) else Final(s.Log())
    ensures s.p0.prev == s.ssIndex ==> s.TermAt(s.ssIndex) == s.ssTerm
  {
    hide Page.Valid, TermOf;
    s.LogIndexes();
    s.Continues();
    if s.Log() != [] {
      assert s.At(s.lastIndex) == Some(s.Log()[|s.Log()| - 1]);
      s.AtWellFormed(s.lastIndex);
    }
  }

  /** The term of the last entry. */
  ghost function Final(log: seq<seq<byte>>): nat {
    if log != [] && |log[|log| - 1]| >= HEADER then TermOf(log[|log| - 1]) else 0
  }
}
