/** A node's log, commit index and apply loop (src/server.c): merging a leader's batch into the
    store, advancing the commit index, and feeding the state machine. */
module Replica {
  import opened Entry
  import opened Image
  import opened Basics
  import opened Page
  import opened Store
  import opened Merge

  datatype Wait = Noop | Done | Failed

  datatype AppendReq = AppendReq(term: nat, prevIndex: nat, prevTerm: nat, commit: nat, round: nat, buf: seq<byte>)

  datatype AppendResp = AppendResp(index: nat, round: nat, success: bool)

  /** entry_term, zero for what is too short to be an entry. */
  function Term(e: seq<byte>): nat {
    if |e| >= HEADER then TermOf(e) else 0
  }

  // A log `full` whose first entry has index `origin + 1`

  /** The entries after index `i`. */
  ghost function After<T>(full: seq<T>, origin: nat, i: nat): seq<T> {
    if origin <= i <= origin + |full| then full[i - origin..] else []
  }

  /** The entries after index `a` up to and including index `b`. */
  ghost function Between<T>(full: seq<T>, origin: nat, a: nat, b: nat): seq<T> {
    if origin <= a <= b <= origin + |full| then full[a - origin..b - origin] else []
  }

  /** The entries up to and including index `i`. */
  ghost function Through<T>(full: seq<T>, origin: nat, i: nat): seq<T> {
    if origin <= i <= origin + |full| then full[..i - origin] else full
  }

  lemma BetweenNext<T>(full: seq<T>, origin: nat, a: nat, i: nat)
    requires origin <= a <= i < origin + |full|
    ensures Between(full, origin, a, i + 1) == Between(full, origin, a, i) + [full[i - origin]]
  {
    var m, n := a - origin, i - origin;
    assert full[m..n + 1] == full[m..n] + [full[n]];
  }

  lemma BetweenThrough<T>(full: seq<T>, full': seq<T>, origin: nat, a: nat, b: nat)
    requires origin <= a <= b <= origin + |full| && Through(full, origin, b) == Through(full', origin, b)
    ensures b <= origin + |full'| && Between(full, origin, a, b) == Between(full', origin, a, b)
  {
    assert |Through(full, origin, b)| == b - origin;
    assert full[a - origin..b - origin] == full[..b - origin][a - origin..];
    assert full'[a - origin..b - origin] == full'[..b - origin][a - origin..];
  }

  lemma AfterAt<T>(full: seq<T>, origin: nat, prev: nat, i: nat)
    requires origin <= prev <= i < origin + |full|
    ensures |After(full, origin, prev)| == origin + |full| - prev
    ensures After(full, origin, prev)[i - prev] == full[i - origin]
  {
  }

  lemma AfterSnoc<T>(full: seq<T>, origin: nat, prev: nat, e: T)
    requires origin <= prev <= origin + |full|
    ensures After(full + [e], origin, prev) == After(full, origin, prev) + [e]
  {
  }

  lemma AfterDrop<T>(full: seq<T>, origin: nat, prev: nat, a: seq<T>, b: seq<T>)
    requires origin <= prev <= origin + |full| && After(full, origin, prev) == a + b
    ensures After(full, origin, prev + |a|) == b
  {
    assert full[prev - origin..][|a|..] == full[prev + |a| - origin..];
    assert (a + b)[|a|..] == b;
  }

  lemma CutAfter(full: seq<seq<byte>>, origin: nat, prev: nat, i: nat)
    requires origin <= prev <= i <= origin + |full|
    ensures After(Through(full, origin, i), origin, prev) == CutLog(prev, After(full, origin, prev), i)
    ensures |Through(full, origin, i)| == i - origin
  {
    assert full[..i - origin][prev - origin..] == full[prev - origin..][..i - prev];
  }

  /** Some entry's checksum reads as the end mark. */
  ghost predicate Lossy(full: seq<seq<byte>>) {
    exists i :: 0 <= i < |full| && EndsScan(full[i])
  }

  lemma LossyPages(full: seq<seq<byte>>, origin: nat, prev: nat, a: seq<seq<byte>>, b: seq<seq<byte>>)
    requires origin <= prev <= origin + |full| && After(full, origin, prev) == a + b
    ensures LosesEntries(a) || LosesEntries(b) ==> Lossy(full)
  {
    hide EndsScan, AllWellFormed, Live;
    var k := prev - origin;
    assert forall i :: 0 <= i < |a| ==> full[k + i] == (a + b)[i] == a[i];
    assert forall i :: 0 <= i < |b| ==> full[k + |a| + i] == (a + b)[|a| + i] == b[i];
    if LosesEntries(a) {
      assert EndsScan(full[k + Live(a)]);
    }
    if LosesEntries(b) {
      assert EndsScan(full[k + |a| + Live(b)]);
    }
  }

  /** Entries that are no longer stored went into the snapshot, whose term is that of the last of them. */
  ghost predicate Covered(full: seq<seq<byte>>, origin: nat, prev: nat, ssIndex: nat, ssTerm: nat) {
    origin < prev <= origin + |full| ==> prev == ssIndex && ssTerm == Term(full[prev - origin - 1])
  }

  lemma CoveredSnoc(full: seq<seq<byte>>, origin: nat, prev: nat, ssIndex: nat, ssTerm: nat, e: seq<byte>)
    requires Covered(full, origin, prev, ssIndex, ssTerm) && prev <= origin + |full|
    ensures Covered(full + [e], origin, prev, ssIndex, ssTerm)
  {
    hide Term;
  }

  lemma CoveredCut(full: seq<seq<byte>>, origin: nat, prev: nat, ssIndex: nat, ssTerm: nat, i: nat)
    requires Covered(full, origin, prev, ssIndex, ssTerm) && origin <= prev <= i <= origin + |full|
    ensures Covered(Through(full, origin, i), origin, prev, ssIndex, ssTerm)
  {
    hide Term;
  }

  class Replica {
    var store: Store
    var commit: nat
    var ssInProgress: bool
    var ssEnd: nat                   // the end of page 0 as the snapshot thread found it
    var ssFile: nat                  // the index of the snapshot on disk, ss.index
    var stateIndex: nat              // state.index
    var applied: seq<seq<byte>>      // what state_apply was given, in order
    ghost var origin: nat            // the index before the first entry that was stored at the start
    ghost var base: nat              // the index the state machine was opened at
    ghost var Full: seq<seq<byte>>   // every entry from `origin + 1` on, snapshotted ones included

    /** The store holds the end of the log, and the page being snapshotted still has what the thread
        was given. */
    ghost predicate Stored()
      reads this, store, store.p0, store.p1, store.curr, store.p0.mem, store.p1.mem
    {
      && store.Valid()
      && origin <= store.p0.prev && origin <= commit <= store.lastIndex == origin + |Full|
      && (store.ssIndex <= commit || store.ssIndex == store.p0.prev)
      && store.All() == After(Full, origin, store.p0.prev)
      && Covered(Full, origin, store.p0.prev, store.ssIndex, store.ssTerm)
      && (ssInProgress ==> store.p0.prev < ssEnd <= store.p0.Last() && ssEnd <= commit)
    }

    /** What the store takes for snapshotted is what the snapshot on disk holds, and it is committed. */
    ghost predicate Anchored()
      reads this, store
    {
      store.ssIndex == ssFile <= commit
    }

    ghost predicate Logged()
      reads this, store, store.p0, store.p1, store.curr, store.p0.mem, store.p1.mem
    {
      Stored() && Anchored()
    }

    /** New entries go to page 1 and page 0 still ends where its snapshot does. */
    ghost predicate Steady()
      reads this, store, store.p0
    {
      store.curr == store.p1 && store.p0.Last() == ssEnd
    }

    /** Anchored, and a snapshot in progress will find its page as it was. */
    ghost predicate Safe()
      reads this, store, store.p0
    {
      Anchored() && (ssInProgress ==> Steady())
    }

    /** The applied entries are exactly the log after the opening snapshot up to the commit index. */
    ghost predicate Valid()
      reads this, store, store.p0, store.p1, store.curr, store.p0.mem, store.p1.mem
    {
      Stored() && origin <= base <= commit == stateIndex && applied == Between(Full, origin, base, commit)
    }

    /** server_read_meta: a freshly opened store and a state machine opened at the same snapshot. */
    constructor (store: Store)
      requires store.Valid()
      ensures Valid() && Safe() && this.store == store && commit == base == store.ssIndex && applied == []
      ensures !ssInProgress && Full == store.All()
    {
      hide Store.Valid, Store.At;
      this.store := store;
      commit, stateIndex, base, origin := store.ssIndex, store.ssIndex, store.ssIndex, store.p0.prev;
      ssInProgress, ssEnd, ssFile, applied := false, 0, store.ssIndex, [];
      Full := store.All();
      new;
      store.LogIndexes();
      store.Continues();
    }

    lemma Bounds()
      requires Stored()
      ensures store.Valid() && origin <= store.p0.prev <= store.ssIndex <= store.lastIndex == origin + |Full|
      ensures origin <= commit <= store.lastIndex && (store.ssIndex <= commit || store.ssIndex == store.p0.prev)
      ensures store.lastTerm == store.TermAt(store.lastIndex) && (ssInProgress ==> origin < ssEnd)
    {
      hide Store.Valid;
      store.Continues();
    }

    lemma Lookup(i: nat)
      requires Stored()
      ensures store.p0.prev < i <= store.lastIndex ==> i > origin && store.At(i) == Some(Full[i - origin - 1])
      ensures i <= store.p0.prev || i > store.lastIndex ==> store.At(i) == None
    {
      hide Store.Valid, After;
      store.LogIndexes();
      store.Continues();
      if store.p0.prev < i <= store.lastIndex {
        AfterAt(Full, origin, store.p0.prev, i - 1);
      }
    }

    lemma TermStored(i: nat)
      requires Stored() && store.At(i).Some?
      ensures store.TermAt(i) == Term(store.At(i).value)
    {
      hide Store.Valid, Store.At, TermIn, WellFormed;
      store.AtWellFormed(i);
    }

    /** server_update_commit. `failAt` is the index whose application reports an error, if any. The
        call also ends when an entry it needs is no longer stored. */
    method UpdateCommit(target: nat, failAt: Option<nat>) returns (ok: bool)
      requires Valid()
      modifies this`commit, this`stateIndex, this`applied, this`ssInProgress, this`ssEnd
      ensures Stored() && applied == Between(Full, origin, base, stateIndex)
      ensures ok ==> Valid()
      ensures ok && target > old(commit) ==>
                commit <= target && commit <= store.lastIndex && (commit == target || commit == store.lastIndex)
      ensures ok && target <= old(commit) ==> commit == old(commit)
      ensures ok ==>
                (ssInProgress <==> old(ssInProgress) || (store.p1.entries != [] && store.p0.Last() <= commit))
      ensures old(Anchored()) ==> Anchored()
      ensures old(Safe()) ==> Safe()
      ensures !ok ==> commit == old(commit) && ssInProgress == old(ssInProgress)
      ensures !ok ==> (failAt == Some(stateIndex) && commit < stateIndex) || (stateIndex == commit < store.p0.prev)
      ensures !ok && stateIndex == commit ==> !old(Anchored())
      ensures old(applied) <= applied && old(commit) <= commit <= store.lastIndex
    {
      hide Store.Valid, Store.At, Store.All, Between, After, Covered;
      Bounds();
      if target > commit {
        var min := if target < store.lastIndex then target else store.lastIndex;
        ok := CommitThrough(min, failAt);
        if !ok {
          return;
        }
      }
      StartSnapshot();
      ok := true;
    }

    /** The commit half of server_update_commit. */
    method CommitThrough(min: nat, failAt: Option<nat>) returns (ok: bool)
      requires Valid() && commit <= min <= store.lastIndex
      modifies this`commit, this`stateIndex, this`applied
      ensures Stored() && applied == Between(Full, origin, base, stateIndex) && old(applied) <= applied
      ensures ok ==> Valid() && commit == min
      ensures !ok ==> commit == old(commit)
      ensures !ok ==> (failAt == Some(stateIndex) && commit < stateIndex) || (stateIndex == commit < store.p0.prev)
    {
      hide Store.Valid, Store.At, Store.All, Between, After, Covered;
      Bounds();
      ok := ApplyThrough(min, failAt);
      if ok {
        commit := min;
      }
    }

    /** The end of server_update_commit: page 0 is handed to the snapshot thread once it is committed. */
    method StartSnapshot()
      requires Stored()
      modifies this`ssInProgress, this`ssEnd
      ensures Stored()
      ensures ssInProgress <==> old(ssInProgress) || (store.p1.entries != [] && store.p0.Last() <= commit)
      ensures ssEnd == if ssInProgress && !old(ssInProgress) then store.p0.Last() else old(ssEnd)
      ensures old(Safe()) ==> Safe()
    {
      hide Store.Valid, Store.All, After, Covered;
      var page := store.SnapshotIndex();
      if !ssInProgress && page.Some? && commit >= page.value {
        store.SnapshotReady();
        ssInProgress, ssEnd := true, store.p0.Last();
      }
    }

    /** The loop of server_update_commit: entries are applied in index order, each once. */
    method ApplyThrough(min: nat, failAt: Option<nat>) returns (ok: bool)
      requires Valid() && commit <= min <= store.lastIndex
      modifies this`stateIndex, this`applied
      ensures applied == Between(Full, origin, base, stateIndex) && old(applied) <= applied
      ensures ok ==> stateIndex == min
      ensures !ok ==>
                (commit < stateIndex <= min && failAt == Some(stateIndex)) || (stateIndex == commit < store.p0.prev)
    {
      hide Store.Valid, Store.At, Store.All, Between, After, Covered;
      Bounds();
      var i := commit + 1;
      while i <= min
        invariant commit < i <= min + 1 && (i > commit + 1 ==> store.p0.prev <= commit)
        invariant stateIndex == i - 1 && applied == Between(Full, origin, base, i - 1) && old(applied) <= applied
      {
        var entry := store.GetEntry(i);
        Lookup(i);
        if entry.None? {
          return false;
        }
        BetweenNext(Full, origin, base, i - 1);
        stateIndex, applied := i, applied + [entry.value];
        if failAt == Some(i) {
          return false;
        }
        i := i + 1;
      }
      ok := true;
    }

    /** The objects the log lives in. */
    ghost function Foot(): set<object>
      reads this, store, store.p0, store.p1
    {
      {store, store.p0, store.p1, store.p0.mem, store.p1.mem}
    }

    /** Nothing but the log changed, and the footprint grew by new objects only. */
    twostate predicate OnlyLog()
      reads this, store, store.p0, store.p1
    {
      && store == old(store) && commit == old(commit) && origin == old(origin) && base == old(base)
      && stateIndex == old(stateIndex) && applied == old(applied)
      && (ssInProgress ==> old(ssInProgress)) && ssEnd == old(ssEnd)
      && (ssInProgress == old(ssInProgress) ==> ssFile == old(ssFile))
      && fresh(Foot() - old(Foot()))
    }

    /** server_wait_snapshot; `ok` is the outcome the snapshot thread reports. A finished snapshot is
        taken over whatever became of its page meanwhile: the log survives if and only if page 1
        continues page 0, and the store agrees with the snapshot if and only if page 0 still ends
        where the snapshot does. */
    method WaitSnapshot(ok: bool) returns (r: Wait)
      requires Stored()
      modifies this`ssInProgress, this`ssFile, Foot()
      ensures OnlyLog() && Full == old(Full) && !ssInProgress
      ensures r == Noop <==> !old(ssInProgress)
      ensures r == Failed <==> old(ssInProgress) && !ok
      ensures r == Done ==> store.ssIndex == old(store.p0.Last()) && ssFile == ssEnd
      ensures r == Done ==> (Stored() <==> old(store.p1.prev == store.p0.Last()))
      ensures r == Done ==> (Anchored() <==> old(store.p0.Last()) == ssEnd)
      ensures r != Failed ==> store.lastIndex == old(store.lastIndex) && store.lastTerm == old(store.lastTerm)
      ensures r == Done ==> (Logged() <==> old(store.p0.Last() == ssEnd == store.p1.prev))
      ensures r == Done ==> (store.Valid() <==> Stored())
      ensures r == Failed ==> Stored() && unchanged(store)
      ensures r != Failed && old(Safe()) ==> Stored() && Safe()
      ensures r == Noop ==>
                Stored() && store.curr == old(store.curr) && store.p1 == old(store.p1) && Anchored() == old(Anchored())
      ensures r != Failed && old(store.Marked()) ==> store.Marked()
    {
      hide Store.Valid, After, Store.TermAt, Store.At, Store.Log, Store.Marked, Term;
      if !ssInProgress {
        return Noop;
      }
      ssInProgress := false;
      if !ok {
        return Failed;
      }
      store.LogIndexes();
      store.Continues();
      Lookup(store.p0.Last());
      TermStored(store.p0.Last());
      AfterDrop(Full, origin, store.p0.prev, store.p0.Log, store.p1.Log);
      store.SnapshotTaken();
      ssFile := ssEnd;
      r := Done;
    }

    /** What store_put_entry asserts of its arguments, for an entry some page can hold. */
    ghost predicate Puttable(index: nat, e: seq<byte>)
      reads this, store
    {
      && WellFormed(e) && HEADER <= |e| <= PAGE_ROOM
      && index == store.lastIndex + 1 < U64 && store.lastTerm <= Term(e)
    }

    /** A page that is mapped again may lose entries: some checksum reads as the end mark, or a
        recovered page was never ended. */
    ghost predicate Damaged(marked: bool)
      reads this
    {
      Lossy(Full) || !marked
    }

    /** Why storing an entry of this size can fail: the snapshot failed, the pages are damaged, or
        page 1 would have to grow beyond its largest size. */
    ghost predicate Blocked(marked: bool, snapshotOk: bool, size: nat)
      reads this, store, store.curr
    {
      !snapshotOk || Damaged(marked) || store.curr.wpos + RESERVED + size > MAX_SIZE
    }

    /** What storing entries does not lose: the end marks, the agreement with the snapshot unless one
        was taken over, and safety. */
    twostate predicate Kept()
      reads this, store, store.p0, store.p1, store.p0.mem, store.p1.mem
    {
      && (old(store.Marked()) ==> store.Marked())
      && (old(Anchored()) && ssInProgress == old(ssInProgress) ==> Anchored())
      && (old(Safe()) ==> Safe())
    }

    /** One store_put_entry. */
    method PutOnce(index: nat, e: seq<byte>) returns (rc: Rc)
      requires Stored() && Puttable(index, e)
      modifies this`Full, Foot()
      ensures rc == Ok ==> Stored() && Full == old(Full) + [e] && store.lastIndex == index && store.lastTerm == Term(e)
      ensures rc == Rc.Full ==> Stored() && Full == old(Full) && store.curr == store.p1
      ensures rc == Rc.Full ==> store.lastIndex == old(store.lastIndex) && store.lastTerm == old(store.lastTerm)
      ensures rc == Error ==> Full == old(Full) && Damaged(old(store.Marked()))
      ensures rc != Error ==> Kept()
      ensures old(store.Fits(|e|)) ==> rc == Ok && store.curr == old(store.curr)
      ensures old(store.Fits(|e|) && store.curr == store.p0) ==>
                store.p1.prev == old(store.p1.prev) && store.p0.Last() == index
      ensures OnlyLog()
    {
      hide Store.Valid, Store.Log, Store.At, After, Store.TermAt, WellFormed, TermOf, LosesEntries, Store.Fits, Lossy;
      hide Store.Marked, Covered;
      store.LogIndexes();
      store.Continues();
      LossyPages(Full, origin, store.p0.prev, store.p0.Log, store.p1.Log);
      rc := store.PutEntry(index, e);
      if rc == Ok {
        AfterSnoc(Full, origin, store.p0.prev, e);
        CoveredSnoc(Full, origin, store.p0.prev, store.ssIndex, store.ssTerm, e);
        Full := Full + [e];
      }
    }

    /** store_reserve on behalf of an entry that found the store full. */
    method GrowStore(size: nat) returns (rc: Rc)
      requires Stored() && store.curr == store.p1
      modifies Foot()
      ensures OnlyLog() && unchanged(this, store) && store.p0.Last() == old(store.p0.Last())
      ensures rc != Error ==> Stored()
      ensures rc == Ok ==> store.Fits(size)
      ensures rc == Error ==> Damaged(old(store.Marked()))
      ensures rc == Rc.Full ==> store.curr.wpos + RESERVED + size > MAX_SIZE
      ensures rc != Error && old(store.Marked()) ==> store.Marked()
    {
      hide Store.Valid, Suffix, After, Store.TermAt, LosesEntries, Store.Fits, Lossy, Store.Marked;
      store.Continues();
      store.LogIndexes();
      LossyPages(Full, origin, store.p0.prev, store.p0.Log, store.p1.Log);
      rc := store.Reserve(size);
    }

    /** A full store first takes a finished snapshot; without one it grows. */
    method MakeSpace(size: nat, snapshotOk: bool) returns (rc: Rc)
      requires Stored() && store.curr == store.p1
      modifies this`ssInProgress, this`ssFile, Foot()
      ensures OnlyLog() && Full == old(Full) && !ssInProgress
      ensures rc == Ok ==> Stored() && store.lastIndex == old(store.lastIndex) && store.lastTerm == old(store.lastTerm)
      ensures rc == Ok ==> old(ssInProgress) || store.Fits(size)
      ensures rc == Ok ==> Kept()
      ensures rc != Ok ==> Blocked(old(store.Marked()), snapshotOk, size) && (Stored() || Damaged(old(store.Marked())))
    {
      hide Stored, Store.Valid, Store.Fits, Lossy, Store.Marked;
      Bounds();
      store.Continues();
      var w := WaitSnapshot(snapshotOk);
      match w {
        case Done => rc := Ok;
        case Failed => rc := Error;
        case Noop => rc := GrowStore(size);
      }
    }

    /** One store_put_entry and, when the store is full, the making of space. */
    method TryPut(index: nat, e: seq<byte>, snapshotOk: bool) returns (rc: Rc, again: bool)
      requires Stored() && Puttable(index, e)
      modifies this`ssInProgress, this`ssFile, this`Full, Foot()
      ensures rc == Ok ==> Stored() && Kept()
      ensures rc == Ok && !again ==> Full == old(Full) + [e] && store.lastIndex == index && store.lastTerm == Term(e)
      ensures rc == Ok && again ==> Full == old(Full) && Puttable(index, e)
      ensures rc == Ok && again ==> !ssInProgress && !old(store.Fits(|e|)) && (old(ssInProgress) || store.Fits(|e|))
      ensures rc != Ok ==> Full == old(Full) && Blocked(old(store.Marked()), snapshotOk, |e|)
      ensures rc != Ok ==> Stored() || Damaged(old(store.Marked()))
      ensures OnlyLog()
    {
      hide Stored, Anchored, Safe, WellFormed, Term, Store.Fits, Lossy, Store.Marked;
      again := false;
      rc := PutOnce(index, e);
      if rc == Rc.Full {
        again := true;
        rc := MakeSpace(|e|, snapshotOk);
      }
    }

    /** The retry loop of server_store_entries around store_put_entry. */
    method PutRetry(index: nat, e: seq<byte>, snapshotOk: bool) returns (rc: Rc)
      requires Stored() && Puttable(index, e)
      modifies this`ssInProgress, this`ssFile, this`Full, Foot()
      ensures rc == Ok ==> Stored() && Full == old(Full) + [e] && store.lastIndex == index && store.lastTerm == Term(e)
      ensures rc == Ok ==> Kept()
      ensures rc != Ok ==> Full == old(Full) && Blocked(old(store.Marked()), snapshotOk, |e|)
      ensures rc != Ok ==> Stored() || Damaged(old(store.Marked()))
      ensures OnlyLog()
    {
      hide Stored, Anchored, Safe, WellFormed, Term, Store.Fits, Lossy, Store.Marked;
      var again := true;
      rc := Ok;
      while again
        invariant OnlyLog() && rc == Ok && Stored() && Kept()
        invariant again ==> Full == old(Full) && Puttable(index, e)
        invariant !again ==> Full == old(Full) + [e] && store.lastIndex == index && store.lastTerm == Term(e)
        decreases again, ssInProgress, if store.Fits(|e|) then 0 else 1
      {
        rc, again := TryPut(index, e, snapshotOk);
        if rc != Ok {
          return;
        }
      }
    }

    /** The entry may stand at `index`: the store holds the index or it comes next, terms do not
        fall, and no committed entry is contradicted. */
    ghost predicate Acceptable(index: nat, e: seq<byte>)
      reads this, store, store.p0, store.p1
    {
      && WellFormed(e) && HEADER <= |e| <= PAGE_ROOM
      && store.p0.prev < index <= store.lastIndex + 1 && index < U64
      && store.TermAt(index - 1) <= Term(e)
      && origin < index && Quiet(Full, index - origin - 1, [e], commit - origin)
    }

    /** While page 0 is being snapshotted, the entry right behind it is not contradicted. */
    ghost predicate Spares(index: nat, batch: seq<seq<byte>>)
      reads this
    {
      ssInProgress && origin < index ==> Quiet(Full, index - origin - 1, batch, ssEnd + 1 - origin)
    }

    ghost predicate SparesOne(index: nat, e: seq<byte>)
      reads this
    {
      Spares(index, [e])
    }

    /** store_remove_after on a conflict. */
    method Truncate(index: nat)
      requires Stored() && store.p0.prev < index <= store.lastIndex && commit < index
      modifies this`Full, Foot()
      ensures Stored() && OnlyLog() && unchanged(`ssInProgress, `ssFile)
      ensures Full == Through(old(Full), origin, index - 1)
      ensures store.lastIndex == index - 1 && store.lastTerm == old(store.TermAt(index - 1))
      ensures old(store.Marked()) ==> store.Marked()
      ensures old(Anchored()) ==> Anchored()
      ensures old(Safe()) && (ssInProgress ==> index != ssEnd + 1) ==> Safe()
      ensures index - 1 <= old(store.p0.Last()) ==> store.curr == store.p0
      ensures index - 1 >= old(store.p0.Last()) ==> store.p0.Log == old(store.p0.Log)
      ensures store.p0.mem == old(store.p0.mem) && store.p1.prev == old(store.p1.prev)
    {
      hide Store.Valid, Store.Log, WellFormed, TermIn, CutLog, After, Through, Store.At, Store.Marked, Covered;
      store.LogIndexes();
      store.Continues();
      ghost var prev, all := store.p0.prev, store.All();
      CoveredCut(Full, origin, prev, store.ssIndex, store.ssTerm, index - 1);
      CutTerm(prev, all, store.ssTerm, index - 1);
      CutAfter(Full, origin, prev, index - 1);
      store.RemoveAfter(index - 1);
      store.Continues();
      Full := Through(Full, origin, index - 1);
    }

    /** One round of the loop in server_store_entries. */
    method StoreOne(index: nat, e: seq<byte>, snapshotOk: bool) returns (rc: Rc)
      requires Stored() && Acceptable(index, e)
      modifies this`ssInProgress, this`ssFile, this`Full, Foot()
      ensures rc == Ok ==> Stored() && Full == StepAt(old(Full), origin, index, e)
      ensures rc == Ok ==> store.p0.prev <= index <= store.lastIndex && store.TermAt(index) == Term(e)
      ensures rc == Ok && old(store.Marked()) ==> store.Marked()
      ensures rc == Ok && old(Safe() && SparesOne(index, e)) ==> Safe()
      ensures rc != Ok ==> Full == old(Full) || (commit < index && Full == Through(old(Full), origin, index - 1))
      ensures rc != Ok ==> Blocked(old(store.Marked()), snapshotOk, |e|) && (Stored() || Damaged(old(store.Marked())))
      ensures OnlyLog()
    {
      hide Lossy, Stored, Anchored, Safe, Store.Valid, WellFormed, Term, AtIn, TermIn, Page.Last, Store.At;
      hide Store.Marked;
      Bounds();
      var curr := store.GetEntry(index);
      Lookup(index);
      if curr.Some? {
        TermStored(index);
        if Term(curr.value) == Term(e) {
          return Ok;
        }
        assert Full[index - origin - 1 + 0] == curr.value && [e][0] == e;
        rc := Replace(index, e, snapshotOk);
      } else {
        rc := PutRetry(index, e, snapshotOk);
      }
      if rc == Ok {
        Bounds();
      }
    }

    /** A conflicting entry and everything behind it make way for the new one. */
    method Replace(index: nat, e: seq<byte>, snapshotOk: bool) returns (rc: Rc)
      requires Stored() && Acceptable(index, e) && index <= store.lastIndex && commit < index
      modifies this`ssInProgress, this`ssFile, this`Full, Foot()
      ensures rc == Ok ==> Stored() && store.lastIndex == index && store.lastTerm == Term(e)
      ensures rc == Ok ==> Full == Through(old(Full), origin, index - 1) + [e]
      ensures rc == Ok && old(store.Marked()) ==> store.Marked()
      ensures rc == Ok && old(Safe() && (ssInProgress ==> index != ssEnd + 1)) ==> Safe()
      ensures rc != Ok ==> Full == Through(old(Full), origin, index - 1)
      ensures rc != Ok ==> Blocked(old(store.Marked()), snapshotOk, |e|) && (Stored() || Damaged(old(store.Marked())))
      ensures OnlyLog()
    {
      hide Lossy, Stored, Anchored, Safe, Store.Valid, WellFormed, Term, TermIn, Page.Last, Store.Marked;
      hide Through, Quiet;
      Truncate(index);
      rc := PutRetry(index, e, snapshotOk);
    }

    /** A whole batch may be stored from `index` on. */
    ghost predicate Pending(index: nat, batch: seq<seq<byte>>)
      reads this, store, store.p0, store.p1
    {
      batch != [] ==>
        && store.p0.prev < index <= store.lastIndex + 1 && index + |batch| <= U64
        && Sound(batch) && Rising(store.TermAt(index - 1), batch)
        && origin < index && Quiet(Full, index - origin - 1, batch, commit - origin)
    }

    /** The committed part of the log. */
    ghost function Committed(): seq<seq<byte>>
      reads this
    {
      Through(Full, origin, commit)
    }

    /** One round of the loop, seen from the batch. */
    method StoreHead(index: nat, e: seq<byte>, snapshotOk: bool, ghost batch: seq<seq<byte>>) returns (rc: Rc)
      requires Stored() && batch != [] && e == batch[0] && Pending(index, batch)
      modifies this`ssInProgress, this`ssFile, this`Full, Foot()
      ensures rc == Ok ==> Stored() && Pending(index + 1, batch[1..])
      ensures rc == Ok ==> Full == StepAt(old(Full), origin, index, e)
      ensures rc == Ok && old(store.Marked()) ==> store.Marked()
      ensures rc == Ok && old(Safe() && Spares(index, batch)) ==> Safe() && Spares(index + 1, batch[1..])
      ensures rc != Ok ==> Full == old(Full) || (commit < index && Full == Through(old(Full), origin, index - 1))
      ensures rc != Ok ==> Blocked(old(store.Marked()), snapshotOk, |e|) && (Stored() || Damaged(old(store.Marked())))
      ensures Committed() == old(Committed())
      ensures OnlyLog()
    {
      hide Lossy, Stored, Anchored, Safe, Store.Valid, WellFormed, Term, TermIn, Step, Quiet, Sound, Rising;
      hide Store.Marked;
      Bounds();
      ghost var full, k := Full, index - origin - 1;
      BatchStep(store.TermAt(index - 1), batch);
      QuietStep(full, k, batch, commit - origin, commit - origin);
      if Spares(index, batch) && ssInProgress {
        QuietStep(full, k, batch, ssEnd + 1 - origin, 0);
      }
      rc := StoreOne(index, e, snapshotOk);
      if rc == Ok {
        Bounds();
      }
    }

    /** The entry at a position of the received bytes, as the loop macro walks them. */
    static method Read(buf: seq<byte>, pos: nat, ghost batch: seq<seq<byte>>) returns (e: seq<byte>)
      requires pos < |buf| && buf[pos..] == Flatten(batch) && Sound(batch)
      ensures batch != [] && e == batch[0] && pos + |e| <= |buf| && buf[pos + |e|..] == Flatten(batch[1..])
    {
      hide Value, Checksum, Flatten, WellFormed, U32At, Decodes;
      FlattenHead(batch);
      Unfold(buf, pos, batch[0], Flatten(batch[1..]));
      EntryDecodes(buf, pos, batch[0]);
      var len := U32At(buf, pos + 4);
      e := buf[pos..pos + len];
    }

    /** Where the loop stands: the first `n` entries of the batch are merged in, the others to come. */
    ghost predicate Reached(was: seq<seq<byte>>, index: nat, batch: seq<seq<byte>>, n: nat, rest: seq<byte>)
      reads this, store, store.p0, store.p1
    {
      && n <= |batch| && rest == Flatten(batch[n..]) && Sound(batch[n..]) && Pending(index + n, batch[n..])
      && Full == MergedAt(was, origin, index, batch[..n])
      && (batch != [] ==> origin < index <= origin + |was| + 1)
    }

    /** One round of the loop, from the received bytes. */
    method StoreNext(i: nat, buf: seq<byte>, pos: nat, snapshotOk: bool,
                     ghost was: seq<seq<byte>>, ghost index: nat, ghost batch: seq<seq<byte>>, ghost n: nat,
                     ghost rest: seq<seq<byte>>)
      returns (rc: Rc, next: nat)
      requires Stored() && pos < |buf| && i == index + n && Reached(was, index, batch, n, buf[pos..])
      requires rest == batch[n..]
      modifies this`ssInProgress, this`ssFile, this`Full, Foot()
      ensures n < |batch|
      ensures rc == Ok ==> Stored() && pos < next <= |buf| && Reached(was, index, batch, n + 1, buf[next..])
      ensures rc == Ok && old(store.Marked()) ==> store.Marked()
      ensures rc == Ok && old(Safe() && Spares(i, rest)) ==> Safe() && Spares(i + 1, batch[n + 1..])
      ensures rc != Ok ==> Partly(was, Full, origin, index, batch, n)
      ensures rc != Ok ==> Blocked(old(store.Marked()), snapshotOk, |buf|)
      ensures rc != Ok ==> Stored() || Damaged(old(store.Marked()))
      ensures Committed() == old(Committed())
      ensures OnlyLog()
    {
      hide Stored, Safe, Spares, WellFormed, Pending, MergedAt, StepAt, Flatten, Committed, Store.Marked, Lossy;
      var e := Read(buf, pos, rest);
      assert rest[0] == batch[n] && rest[1..] == batch[n + 1..];
      MergedSnoc(was, origin, index, batch, n);
      assert e in rest;
      rc := StoreHead(i, e, snapshotOk, rest);
      next := pos + |e|;
    }

    /** server_store_entries. Whatever happens, the log is the merge with the first `n` entries of the
        batch, or that cut right behind them when the next entry conflicted and could not be stored. */
    method StoreEntries(index: nat, buf: seq<byte>, snapshotOk: bool, ghost batch: seq<seq<byte>>)
      returns (rc: Rc, ghost n: nat)
      requires Stored() && buf == Flatten(batch) && Sound(batch) && Pending(index, batch)
      modifies this`ssInProgress, this`ssFile, this`Full, Foot()
      ensures rc == Ok ==> Stored() && n == |batch| && Full == MergedAt(old(Full), origin, index, batch)
      ensures rc == Ok && old(store.Marked()) ==> store.Marked()
      ensures rc == Ok && old(Safe() && Spares(index, batch)) ==> Safe()
      ensures rc != Ok ==> n < |batch| && Partly(old(Full), Full, origin, index, batch, n)
      ensures rc != Ok ==> Blocked(old(store.Marked()), snapshotOk, |buf|)
      ensures rc != Ok ==> Stored() || Damaged(old(store.Marked()))
      ensures Committed() == old(Committed())
      ensures OnlyLog()
    {
      hide Stored, Safe, Spares, Reached, Partly, MergedAt, Flatten, Committed, Store.Marked, Lossy, Pending;
      var pos, i := 0, index;
      n := 0;
      StartHere(index, batch);
      while pos < |buf|
        invariant pos <= |buf| && i == index + n && n <= |batch|
        invariant Stored() && OnlyLog() && Reached(old(Full), index, batch, n, buf[pos..])
        invariant Committed() == old(Committed())
        invariant old(store.Marked()) ==> store.Marked()
        invariant old(Safe() && Spares(index, batch)) ==> Safe() && Spares(i, batch[n..])
      {
        rc, pos := StoreNext(i, buf, pos, snapshotOk, old(Full), index, batch, n, batch[n..]);
        if rc != Ok {
          return;
        }
        i, n := i + 1, n + 1;
      }
      assert buf[pos..] == [];
      EndHere(old(Full), index, batch, n);
      rc := Ok;
    }

    lemma StartHere(index: nat, batch: seq<seq<byte>>)
      requires Stored() && Sound(batch) && Pending(index, batch)
      ensures Reached(Full, index, batch, 0, Flatten(batch)) && batch[0..] == batch
    {
      hide Sound, MergedAt, Flatten;
      assert batch[0..] == batch && batch[..0] == [];
      MergedNone(Full, origin, index);
    }

    lemma EndHere(was: seq<seq<byte>>, index: nat, batch: seq<seq<byte>>, n: nat)
      requires Reached(was, index, batch, n, [])
      ensures n == |batch| && Full == MergedAt(was, origin, index, batch)
    {
      hide MergedAt;
      NoneLeft(batch, n);
    }

    /** The leader's request is not stale and names an entry this log has. */
    ghost predicate Matches(ownTerm: nat, req: AppendReq)
      reads this, store, store.p0, store.p1
    {
      ownTerm <= req.term && req.prevIndex <= store.lastIndex && req.prevTerm == store.TermAt(req.prevIndex)
    }

    /** The request carries a piece of the log `leader`, which starts after `origin` and matches this
        one. A piece that is not empty starts where entries are stored; a heartbeat may not. */
    ghost predicate FromLeader(req: AppendReq, batch: seq<seq<byte>>, leader: seq<seq<byte>>)
      reads this, store, store.p0
    {
      && Matching(Term, Full, leader) && origin <= store.p0.prev <= req.prevIndex
      && var k := req.prevIndex - origin;
         && k + |batch| <= |leader| && batch == leader[k..k + |batch|]
         && (k > 0 ==> req.prevTerm == Term(leader[k - 1]))
    }

    /** What the consistency check of an append is worth: the terms it compares are those of the two
        logs, also when the entry before the batch is the snapshot's last. */
    lemma Accepted(ownTerm: nat, req: AppendReq, batch: seq<seq<byte>>, leader: seq<seq<byte>>)
      requires Stored() && Matches(ownTerm, req) && FromLeader(req, batch, leader)
      ensures var k := req.prevIndex - origin;
              k <= |Full| && (k > 0 ==> Term(Full[k - 1]) == Term(leader[k - 1]))
    {
      hide Store.Valid, Term, Matching;
      Bounds();
      Lookup(req.prevIndex);
      if store.p0.prev < req.prevIndex {
        TermStored(req.prevIndex);
      }
    }

    /** An accepted piece of the leader's log makes this node follow the leader through its end. */
    lemma AcceptedFollows(ownTerm: nat, req: AppendReq, batch: seq<seq<byte>>, leader: seq<seq<byte>>)
      requires Stored() && Matches(ownTerm, req) && FromLeader(req, batch, leader)
      ensures Follows(MergedAt(Full, origin, req.prevIndex + 1, batch), origin, leader, req.prevIndex + |batch|)
    {
      hide Store.Valid, Stored, Term, Matching, MergedAt;
      Accepted(ownTerm, req, batch, leader);
      AppendEqualsLeader(Full, leader, origin, req.prevIndex + 1, batch);
    }

    /** server_on_append_req after the roles are settled. `failAt` and `snapshotOk` stand for what
        the state machine and the snapshot thread report, `n` for how far the batch was merged;
        `leader` is the sender's log. */
    method OnAppendReq(ownTerm: nat, req: AppendReq, snapshotOk: bool, failAt: Option<nat>,
                       ghost batch: seq<seq<byte>>, ghost leader: seq<seq<byte>>)
      returns (rc: Rc, resp: AppendResp, ghost n: nat)
      requires Valid() && req.buf == Flatten(batch) && Sound(batch)
      requires Matches(ownTerm, req) ==> Pending(req.prevIndex + 1, batch)
      modifies this, Foot()
      ensures rc == Ok ==> Valid() && resp.index == store.lastIndex
      ensures rc == Ok ==>
                resp.success == old(Matches(ownTerm, req)) && resp.round == (if resp.success then req.round else 0)
      ensures rc == Ok && !resp.success ==> Full == old(Full) && commit == old(commit) && applied == old(applied)
      ensures rc == Ok && resp.success ==> Full == MergedAt(old(Full), origin, req.prevIndex + 1, batch)
      ensures rc == Ok && resp.success && old(FromLeader(req, batch, leader)) ==>
                Follows(Full, origin, leader, req.prevIndex + |batch|)
      ensures rc == Ok && resp.success && req.commit > old(commit) ==>
                commit <= req.commit && commit <= store.lastIndex &&
                (commit == req.commit || commit == store.lastIndex)
      ensures rc == Ok && resp.success && req.commit <= old(commit) ==> commit == old(commit)
      ensures rc == Ok && old(Safe() && Spares(req.prevIndex + 1, batch)) ==> Safe()
      ensures rc != Ok ==> Partly(old(Full), Full, origin, req.prevIndex + 1, batch, n)
      ensures rc != Ok ==> Stored() || Damaged(old(store.Marked()))
      ensures rc != Ok ==> || Blocked(old(store.Marked()), snapshotOk, |req.buf|) || failAt.Some?
                           || !old(Safe() && Spares(req.prevIndex + 1, batch))
      ensures Through(Full, origin, old(commit)) == old(Committed())
      ensures applied == Between(Full, origin, base, stateIndex) && old(applied) <= applied
      ensures origin == old(origin) && base == old(base) && old(commit) <= commit <= stateIndex
    {
      hide Lossy, Stored, Anchored, Spares, Store.Valid, WellFormed, TermIn, Pending, MergedAt, Flatten, Between;
      hide Sound, Page.Last, Partly, Blocked, Damaged, Store.Marked, Through, FromLeader, Follows;
      Bounds();
      rc, resp, n := Ok, AppendResp(store.lastIndex, 0, false), 0;
      if ownTerm > req.term {
        return;
      }
      var prev := store.PrevTerm(req.prevIndex);
      if req.prevIndex > store.lastIndex || req.prevTerm != prev {
        return;
      }
      ghost var full := Full;
      if FromLeader(req, batch, leader) {
        AcceptedFollows(ownTerm, req, batch, leader);
      }
      rc, n := StoreEntries(req.prevIndex + 1, req.buf, snapshotOk, batch);
      BetweenThrough(full, Full, origin, base, commit);
      if rc != Ok {
        return;
      }
      PartlyAll(full, Full, origin, req.prevIndex + 1, batch);
      var ok := UpdateCommit(req.commit, failAt);
      if !ok {
        rc := Error;
        return;
      }
      Bounds();
      resp := AppendResp(store.lastIndex, req.round, true);
    }
  }

  lemma Unfold(buf: seq<byte>, pos: nat, e: seq<byte>, rest: seq<byte>)
    requires pos <= |buf| && buf[pos..] == e + rest
    ensures pos + |e| <= |buf| && buf[pos..pos + |e|] == e && buf[pos + |e|..] == rest
  {
    assert |buf[pos..]| == |buf| - pos;
    assert buf[pos..][..|e|] == e && buf[pos..][|e|..] == rest;
  }

  /** The log after one entry of the batch was merged in. */
  ghost function Step(full: seq<seq<byte>>, k: nat, e: seq<byte>): seq<seq<byte>> {
    if k <= |full| then MergeOne(Term, full, k, e) else full
  }

  ghost function StepAt(full: seq<seq<byte>>, origin: nat, index: nat, e: seq<byte>): seq<seq<byte>> {
    if origin < index then Step(full, index - origin - 1, e) else full
  }

  /** The log after a batch that starts at `index` was merged in. */
  ghost function MergedAt(full: seq<seq<byte>>, origin: nat, index: nat, batch: seq<seq<byte>>): seq<seq<byte>> {
    if origin < index <= origin + |full| + 1 then Merge.Merge(Term, full, index - origin - 1, batch) else full
  }

  /** The log equals the leader's through `index`, and matches it beyond. */
  ghost predicate Follows(full: seq<seq<byte>>, origin: nat, leader: seq<seq<byte>>, index: nat) {
    && origin <= index <= origin + |full| && index <= origin + |leader|
    && full[..index - origin] == leader[..index - origin] && Matching(Term, full, leader)
  }

  /** What a merged batch leaves: if the logs match and agree on the entry before the batch, this
      node holds the leader's log through the end of the batch and still matches it. */
  lemma AppendEqualsLeader(full: seq<seq<byte>>, leader: seq<seq<byte>>, origin: nat, index: nat,
                           batch: seq<seq<byte>>)
    requires origin < index <= origin + |full| + 1 && Matching(Term, full, leader)
    requires var k := index - origin - 1;
             && k + |batch| <= |leader| && batch == leader[k..k + |batch|]
             && (k > 0 ==> Term(full[k - 1]) == Term(leader[k - 1]))
    ensures var k, r := index - origin - 1, MergedAt(full, origin, index, batch);
            k + |batch| <= |r| && r[..k + |batch|] == leader[..k + |batch|] && Matching(Term, r, leader)
  {
    hide Term, Matching;
    MergeEqualsLeader(Term, full, leader, index - origin - 1, batch);
  }

  lemma MergedNone(full: seq<seq<byte>>, origin: nat, index: nat)
    ensures MergedAt(full, origin, index, []) == full
  {
  }

  /** One more entry of the batch: one more step. */
  lemma MergedSnoc(full: seq<seq<byte>>, origin: nat, index: nat, batch: seq<seq<byte>>, n: nat)
    requires n < |batch|
    ensures origin < index <= origin + |full| + 1 ==>
              MergedAt(full, origin, index, batch[..n + 1]) ==
              StepAt(MergedAt(full, origin, index, batch[..n]), origin, index + n, batch[n])
  {
    hide Term;
    if origin < index <= origin + |full| + 1 {
      assert batch[..n + 1] == batch[..n] + [batch[n]];
      MergeSnoc(Term, full, index - origin - 1, batch[..n], batch[n]);
    }
  }

  lemma NoneLeft(batch: seq<seq<byte>>, n: nat)
    requires n <= |batch| && Sound(batch[n..])
    ensures Flatten(batch[n..]) == [] ==> n == |batch| && batch[..n] == batch
  {
    if n < |batch| {
      var rest := batch[n..];
      assert rest[0] in rest && |Flatten(rest)| >= |rest[0]|;
    }
  }

  /** The first `n` entries of the batch are merged in; the next one may have cut the log. */
  ghost predicate Partly(was: seq<seq<byte>>, full: seq<seq<byte>>, origin: nat, index: nat, batch: seq<seq<byte>>,
      n: nat) {
    n <= |batch| &&
    var merged := MergedAt(was, origin, index, batch[..n]);
    full == merged || (0 < index && full == Through(merged, origin, index + n - 1))
  }

  lemma PartlyAll(was: seq<seq<byte>>, full: seq<seq<byte>>, origin: nat, index: nat, batch: seq<seq<byte>>)
    requires full == MergedAt(was, origin, index, batch)
    ensures Partly(was, full, origin, index, batch, |batch|)
  {
    hide MergedAt;
    assert batch[..|batch|] == batch;
  }

  lemma FlattenHead(batch: seq<seq<byte>>)
    requires Flatten(batch) != []
    ensures batch != [] && Flatten(batch) == batch[0] + Flatten(batch[1..])
  {
  }

  /** From position `k` on the batch contradicts none of the first `fixed` entries. */
  ghost predicate Quiet(full: seq<seq<byte>>, k: nat, batch: seq<seq<byte>>, fixed: int) {
    forall j :: 0 <= j < |batch| && k + j < |full| && k + j < fixed ==> Term(full[k + j]) == Term(batch[j])
  }

  /** One step leaves the rest of the batch quiet and keeps what is fixed. */
  lemma QuietStep(full: seq<seq<byte>>, k: nat, batch: seq<seq<byte>>, fixed: int, c: nat)
    requires k <= |full| && batch != [] && Quiet(full, k, batch, fixed) && c <= fixed && c <= |full|
    ensures Quiet(full, k, [batch[0]], fixed)
    ensures Quiet(Step(full, k, batch[0]), k + 1, batch[1..], fixed)
    ensures |Step(full, k, batch[0])| > k && c <= |Step(full, k, batch[0])|
    ensures Step(full, k, batch[0])[..c] == full[..c]
  {
    hide Term;
    assert k < |full| && k < fixed ==> Term(full[k + 0]) == Term(batch[0]);
    var full' := Step(full, k, batch[0]);
    forall j | 0 <= j < |batch| - 1 && k + 1 + j < |full'| && k + 1 + j < fixed
      ensures Term(full'[k + 1 + j]) == Term(batch[1..][j])
    {
      assert Term(full[k + (j + 1)]) == Term(batch[j + 1]);
    }
  }

  ghost predicate Sound(batch: seq<seq<byte>>) {
    forall e :: e in batch ==> WellFormed(e) && HEADER <= |e| <= PAGE_ROOM
  }

  lemma BatchStep(t: nat, batch: seq<seq<byte>>)
    requires batch != [] && Sound(batch) && Rising(t, batch)
    ensures WellFormed(batch[0]) && HEADER <= |batch[0]| <= PAGE_ROOM && t <= Term(batch[0])
    ensures Sound(batch[1..]) && Rising(Term(batch[0]), batch[1..])
  {
    hide WellFormed, Term;
  }

  /** Terms do not fall along the batch, nor from the entry before it. */
  ghost predicate Rising(t: nat, batch: seq<seq<byte>>)
    decreases |batch|
  {
    batch == [] || (t <= Term(batch[0]) && Rising(Term(batch[0]), batch[1..]))
  }
}
