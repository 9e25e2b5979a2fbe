/** Inputs at which a promise of the source fails, each beside the theorem that says exactly when the
    promise holds. */
module Counterexamples {
  import opened Basics
  import opened Entry
  import opened Image
  import opened Page
  import opened Store
  import opened Replica
  import opened Snapshot
  import Reopen
  import Dialogue
  import Sessions

  // A conflict right behind a page that is being snapshotted

  /** The page has room for an entry of this size. */
  ghost predicate HasRoom(p: Page, size: nat)
    reads p
  {
    p.wpos <= p.mem.Length && size <= p.Quota()
  }

  /** What the failing input looks like: page 0 is being snapshotted, everything on it and nothing
      behind it is committed, and it has room for one more entry. */
  ghost predicate AtRisk(r: Replica, e: seq<byte>)
    reads r, r.store, r.store.p0, r.store.p1
  {
    && r.ssInProgress && r.Steady() && r.commit == r.ssEnd < r.store.lastIndex && r.ssEnd + 1 < U64
    && WellFormed(e) && HEADER <= |e| && HasRoom(r.store.p0, |e|) && r.store.TermAt(r.ssEnd) <= Term(e)
  }

  /** server_store_entries at an entry that conflicts right behind page 0: the log is cut, the entry
      goes onto page 0, and page 1 no longer continues it. */
  method ReplaceBehindPage(r: Replica, e: seq<byte>)
    requires r.Stored() && AtRisk(r, e)
    modifies r`Full, r.Foot()
    ensures r.Stored() && r.store == old(r.store) && r.store.p1.prev < r.store.p0.Last()
    ensures fresh(r.Foot() - old(r.Foot()))
  {
    hide Replica.Stored, Store.Valid, WellFormed, Term, Store.TermAt, Lossy, Store.Marked, Store.Fits, HasRoom, Flatten;
    var index := r.ssEnd + 1;
    RoomBefore(r, |e|);
    r.Truncate(index);
    RoomAfter(r, |e|);
    var rc := r.PutOnce(index, e);
  }

  /** When the snapshot of that page is taken over, the log has a gap. */
  method ConflictBehindPage(r: Replica, e: seq<byte>)
    requires r.Stored() && AtRisk(r, e)
    modifies r, r.Foot()
    ensures r.store == old(r.store) && !r.store.Valid()
  {
    hide Replica.Stored, Store.Valid, WellFormed, Term, Store.TermAt, Lossy, Store.Marked, Store.Fits, HasRoom;
    ReplaceBehindPage(r, e);
    var w := r.WaitSnapshot(true);
  }

  lemma RoomBefore(r: Replica, size: nat)
    requires r.Stored() && r.Steady() && HasRoom(r.store.p0, size)
    ensures r.store.p0.prev < r.store.lastIndex + 1 && r.store.p1.prev == r.store.p0.Last()
    ensures PAGE_HEADER + |Flatten(r.store.p0.Log)| + RESERVED + size <= r.store.p0.mem.Length <= MAX_SIZE
  {
    hide Laid, Flatten, Store.TermAt, Page.Valid;
    r.store.p0.Position();
    r.store.p0.QuotaExact();
  }

  lemma RoomAfter(r: Replica, size: nat)
    requires r.Stored() && r.store.curr == r.store.p0
    requires PAGE_HEADER + |Flatten(r.store.p0.Log)| + RESERVED + size <= r.store.p0.mem.Length <= MAX_SIZE
    ensures r.store.Fits(size)
  {
    hide Laid, Flatten, Store.TermAt, Page.Valid;
    r.store.p0.Position();
    r.store.p0.QuotaExact();
  }

  /** A run into it: page 0 is filled but for 100 bytes, the next entry goes to page 1, the first is
      committed, and the leader of the next term replaces the second by a short one. */
  method GapAfterSnapshot() returns (r: Replica)
    ensures !r.store.Valid()
  {
    hide Replica.Stored, Store.Valid, Store.TermAt, Lossy, Store.Marked, Store.Fits, Page.Valid;
    hide Encode, WellFormed, TermOf, SeqOf, CidOf, FlagsOf, DataOf, Replica.Anchored;
    var s := TwoPages();
    r := new Replica(s);
    var ok := r.UpdateCommit(1, None);
    EncodeFields(2, 0, 0, 0, []);
    ConflictBehindPage(r, Encode(2, 0, 0, 0, []));
  }

  /** The first entry leaves 100 bytes on page 0, so the second goes to page 1. */
  method TwoPages() returns (s: Store)
    ensures fresh(s) && fresh(s.p0) && fresh(s.p1) && fresh(s.p0.mem) && fresh(s.p1.mem)
    ensures s.Valid() && s.curr == s.p1 && s.ssIndex == 0 && s.lastIndex == 2 && s.p0.Last() == 1 && s.p1.entries != []
    ensures HasRoom(s.p0, 100) && s.TermAt(1) == 1
  {
    hide Store.Valid, Store.TermAt, Store.Marked, Store.Fits, Page.Valid, Encode, Store.Log, LosesEntries;
    hide WellFormed, TermOf, SeqOf, CidOf, FlagsOf, DataOf;
    s := OnePage();
    EncodeFields(1, 0, 0, 0, seq(200, _ => 0));
    var rc := s.CreateEntry(1, 0, 0, 0, seq(200, _ => 0));
    NothingLost();
    if rc == Full {
      EmptyBehind(s);
    }
    SecondEntry(s);
  }

  /** A new store whose first entry fills page 0 but for 100 bytes. */
  method OnePage() returns (s: Store)
    ensures fresh(s) && fresh(s.p0) && fresh(s.p1) && fresh(s.p0.mem) && fresh(s.p1.mem)
    ensures s.Valid() && s.Marked() && s.curr == s.p0 && s.ssIndex == 0 && s.lastIndex == 1
    ensures |s.p0.Log| == 1 && s.p1.Log == [] && s.p0.prev == 0
    ensures |s.p0.Log[0]| >= HEADER && Term(s.p0.Log[0]) == 1
    ensures HasRoom(s.p0, 100) && !s.Fits(HEADER + 200) && HEADER + 200 <= s.p0.Cap()
  {
    hide Store.Valid, Store.TermAt, Store.Marked, Store.Fits, Page.Valid, Encode, Store.Log, Mapping, Page.Scanned;
    hide Store.Opened, Store.StartOf, Store.Linked, Store.Resolves;
    hide WellFormed, TermOf, SeqOf, CidOf, FlagsOf, DataOf;
    s := new Store([], [], 0, 0);
    EmptyRoom(s);
    var data: seq<byte> := seq(s.p0.Cap() - HEADER - 100, _ => 0);
    EncodeFields(1, 0, 0, 0, data);
    var rc := s.CreateEntry(1, 0, 0, 0, data);
    OneEntry(s, Encode(1, 0, 0, 0, data));
  }

  lemma NothingLost()
    ensures !LosesEntries([])
  {
  }

  /** An empty page 1 always takes the entry. */
  lemma EmptyBehind(s: Store)
    requires s.Valid() && s.curr == s.p1 && |s.All()| == |s.p0.Log|
    ensures forall size: nat :: size <= PAGE_ROOM ==> !s.NoRoom(size)
  {
    hide Laid, Page.Valid, Store.TermAt;
    s.Sizes();
    s.p1.EmptyPage();
    s.p1.QuotaExact();
  }

  lemma SecondEntry(s: Store)
    requires s.Valid() && s.curr == s.p1 && |s.All()| == 2 && |s.p0.Log| == 1 && s.p0.prev == 0
    requires |s.p0.Log[0]| >= HEADER && Term(s.p0.Log[0]) == 1
    ensures s.p0.Last() == 1 && s.lastIndex == 2 && s.p1.entries != [] && s.TermAt(1) == 1
  {
    hide Laid, Page.Valid, TermOf;
    s.Sizes();
    assert s.All()[0] == s.p0.Log[0];
  }

  lemma EmptyRoom(s: Store)
    requires s.Valid() && s.curr == s.p0 && s.All() == []
    ensures forall size: nat :: size <= s.p0.Cap() ==> s.Fits(size)
  {
    hide Laid, Page.Valid, Store.TermAt;
    s.Sizes();
    s.p0.EmptyPage();
    s.p0.QuotaExact();
  }

  lemma OneEntry(s: Store, e: seq<byte>)
    requires s.Valid() && s.curr == s.p0 && s.All() == [e]
    ensures s.p0.Log == [e] && s.p1.Log == []
    ensures s.p0.wpos == PAGE_HEADER + |e| && s.p0.wpos + RESERVED <= s.p0.mem.Length
    ensures forall size: nat :: s.Fits(size) <==> PAGE_HEADER + |e| + RESERVED + size <= s.p0.mem.Length
    ensures forall size: nat :: HasRoom(s.p0, size) <==> PAGE_HEADER + |e| + RESERVED + size <= s.p0.mem.Length
  {
    hide Laid, Page.Valid, Store.TermAt;
    s.Sizes();
    s.p0.Position();
    s.p0.QuotaExact();
    assert Flatten([e]) == e;
  }

  // A checksum that reads as the end mark

  /** An entry with checksum zero hides itself and everything behind it from the scan. */
  lemma ScanLosesFrom(img: seq<byte>, pos: nat, before: seq<seq<byte>>, e: seq<byte>, after: seq<seq<byte>>)
    requires AllWellFormed(before + [e] + after) && |e| >= HEADER && CrcOf(e) == 0
    requires var s := Flatten(before + [e] + after);
             && pos + |s| + END_LEN <= |img| && img[pos..pos + |s|] == s && U32At(img, pos + |s|) == 0
    ensures |Scan(img, pos)| <= |before|
  {
    hide Scan, ScanEnd, Flatten, WellFormed, CrcOf, U32At;
    var es := before + [e] + after;
    ScanLive(img, pos, es);
    assert es[|before|] == e;
    assert Live(es) <= |before|;
  }

  /** A page that cannot grow: its one entry has checksum zero. */
  method GrowthFails() returns (p: Page, rc: Rc)
    ensures rc == Error
  {
    hide Laid, Page.Valid, Page.Marked, Encode, ZeroTail, WellFormed, CrcOf, HeaderOk, Mapping, Page.Scanned;
    hide Recoverable;
    p := new Page();
    p.Init([], 0, 0);
    p.BlankInit();
    p.EmptyPage();
    p.QuotaExact();
    var data := [] + ZeroTail(1, 1, 1, 0, []);
    ZeroChecksum(1, 1, 1, 0, []);
    p.CreateEntry(1, 1, 1, 0, data);
    p.QuotaExact();
    p.Position();
    rc := p.Reserve(p.mem.Length);
  }

  // A follower that drops its file between two chunks

  /** Any snapshot of two chunks whose first is not all zeros is accepted with other bytes. */
  method TornTransfer(bytes: seq<byte>) returns (t: Transfer)
    requires CHUNK < |bytes| <= 2 * CHUNK && !BlankTo(bytes, CHUNK)
    ensures t.Valid() && t.accepted.Some? && t.accepted.value.key == t.key
    ensures t.accepted.value.bytes != bytes == t.map_
  {
    hide Flow, Holds, BlankTo, Transfer.Sending, Transfer.Receiving;
    t := new Transfer(Key(1, 1), bytes);
    t.SendChunk();
    t.SendChunk();
    ghost var last := Chunk(Key(1, 1), CHUNK, bytes[CHUNK..|bytes|], true);
    assert t.channel == [Chunk(Key(1, 1), 0, bytes[0..CHUNK], false), last];
    var done := t.Receive();
    assert t.channel == [last];
    t.Clear();
    done := t.Receive();
  }

  method TornSnapshot() returns (t: Transfer)
    ensures t.accepted.Some? && t.accepted.value.key == t.key && t.accepted.value.bytes != t.map_
  {
    var bytes: seq<byte> := [1] + Zeros(CHUNK);
    assert bytes[..CHUNK][0] == 1;
    t := TornTransfer(bytes);
  }

  // A cut into the snapshotted part of page 0

  /** Page 0 holds two entries, the snapshot covers both, and the log is cut behind the first. */
  method CutInside() returns (s: Store)
    ensures !s.Valid()
  {
    hide Store.Valid, Page.Valid;
    s := TwoOnPage();
    s.ssIndex, s.ssTerm := 2, 1;
    StillValid(s);
    s.RemoveAfter(1);
  }

  method TwoOnPage() returns (s: Store)
    ensures fresh(s) && fresh(s.p0) && fresh(s.p1) && fresh(s.p0.mem) && fresh(s.p1.mem)
    ensures Pair(s)
  {
    hide Store.Valid, Store.TermAt, Store.Marked, Store.Fits, Page.Valid, Encode, Store.Log, Mapping, Page.Scanned;
    hide Store.Opened, Store.StartOf, Store.Linked, Store.Resolves;
    hide Pair;
    s := new Store([], [], 0, 0);
    EmptyRoom(s);
    var rc := s.CreateEntry(1, 1, 1, 0, []);
    OneEntry(s, Encode(1, 1, 1, 0, []));
    rc := s.CreateEntry(1, 2, 1, 0, []);
    TwoEntries(s);
  }

  /** What a store with two entries on page 0 looks like. */
  ghost predicate Pair(s: Store)
    reads s, s.p0, s.p1, s.p0.mem, s.p1.mem
  {
    && s.p0 != s.p1 && s.p0.mem != s.p1.mem && s.p0.Valid() && s.p1.Valid() && s.curr == s.p0 && s.p1.entries == []
    && s.p0.prev == 0 && s.p0.Last() == 2 == s.lastIndex && |s.p0.Log| == 2 && s.p1.Log == []
    && |s.p0.Log[1]| >= HEADER && s.lastTerm == Term(s.p0.Log[1])
  }

  lemma TwoEntries(s: Store)
    requires s.Valid() && s.curr == s.p0 && |s.All()| == 2 && s.ssIndex == 0
    ensures Pair(s)
  {
    hide Laid, Page.Valid, TermOf;
    s.Sizes();
    s.p0.LogWellFormed();
  }

  lemma StillValid(s: Store)
    requires Pair(s) && s.ssIndex == 2
    ensures s.Valid()
  {
    hide Laid, Page.Valid, TermOf;
    assert s.All()[1] == s.p0.Log[1];
  }

  // A restart that loses the log

  /** Two entries on page 0, which is in the second file beside an empty page with the same start; the
      store is opened again at a snapshot of the first, and the second is gone. */
  method RestartLoses() returns (s: Store, r: Store)
    ensures s.Valid() && s.lastIndex == 2 && r.Valid() && r.ssIndex == 1
    ensures |Reopen.Rest(s, 1)| == 1 && r.Log() == []
  {
    hide Store.Valid, Store.Log, Store.TermAt, Page.Valid, LosesEntries, Suffix;
    s := TwoDurable();
    r := Reopen.Restart(s, 1, 1, true);
    OneAfter(s);
  }

  lemma OneAfter(s: Store)
    requires s.p0.prev == 0 && |s.All()| == 2
    ensures |Reopen.Rest(s, 1)| == 1
  {
  }

  method TwoDurable() returns (s: Store)
    ensures s.Valid() && Reopen.Durable(s.p0) && Reopen.Durable(s.p1) && |s.All()| == 2 && s.lastIndex == 2
    ensures s.p0.prev == s.p1.prev == 0
  {
    hide Store.Valid, Store.TermAt, Store.Marked, Store.Fits, Page.Valid, Encode, Store.Log, Mapping, Page.Scanned;
    hide Store.Opened, Store.StartOf, Store.Linked, Store.Resolves;
    hide WellFormed, CrcOf, LiveTail;
    s := new Store([], [], 0, 0);
    EmptyRoom(s);
    LiveChecksum(1, 1, 1, 0, []);
    LiveChecksum(1, 2, 1, 0, []);
    var a, b := [] + LiveTail(1, 1, 1, 0, []), [] + LiveTail(1, 2, 1, 0, []);
    var rc := s.CreateEntry(1, 1, 1, 0, a);
    OneEntry(s, Encode(1, 1, 1, 0, a));
    rc := s.CreateEntry(1, 2, 1, 0, b);
    BothDurable(s, Encode(1, 1, 1, 0, a), Encode(1, 2, 1, 0, b));
  }

  lemma BothDurable(s: Store, a: seq<byte>, b: seq<byte>)
    requires s.Valid() && s.Marked() && s.curr == s.p0 && s.All() == [a, b]
    requires WellFormed(a) && WellFormed(b) && |a| >= HEADER && |b| >= HEADER && CrcOf(a) != 0 && CrcOf(b) != 0
    ensures Reopen.Durable(s.p0) && Reopen.Durable(s.p1)
  {
    hide Laid, Page.Valid, EndsAt, WellFormed, CrcOf, Store.TermAt;
    s.Sizes();
    assert s.p0.Log == [a, b] && [a, b][1..] == [b];
  }

  // An operation that runs again in a new session

  /** The client's first operation is applied, the answer is lost, the client stays away until its
      session expires, and the new session takes the retry for something new. */
  method FirstRunsTwice<D>(exec: (D, nat, nat, seq<byte>) -> (D, seq<byte>), db: D, name: string, statement: seq<byte>)
    returns (d: Dialogue.Dialogue<D>, ghost p: nat, ghost q: nat)
    ensures d.Valid() && p in d.ops && q in d.ops && p < |d.state.trace| && q < |d.state.trace|
    ensures p != q && d.ops[p] == d.ops[q] && d.state.trace[p].ran && d.state.trace[q].ran
    ensures d.state.trace[p].req == d.state.trace[q].req == statement
  {
    hide Dialogue.Dialogue.Valid, Sessions.State.Valid, Sessions.LastNum;
    d := FirstApplied(exec, db, name, statement);
    Expire(d);
    p, q := 0, |d.state.trace|;
    RunsAgain(d);
  }

  /** Whenever the session is gone while a first operation is running, its retry runs in the new one. */
  method RunsAgain<D>(d: Dialogue.Dialogue<D>)
    requires d.Valid() && d.name !in d.state.names
    requires d.client.created && d.client.busy && !d.client.connected && d.client.number == 1
    modifies d, d.client, d.state, d.state.Objects()
    ensures d.Valid() && |d.state.trace| == |old(d.state.trace)| + 1 && old(d.state.trace) <= d.state.trace
    ensures d.ops == old(d.ops)[|old(d.state.trace)| := old(d.serial)]
    ensures var e := d.state.trace[|old(d.state.trace)|];
            e.ran && e.num == 1 && e.req == old(d.client.req) && e.id !in old(d.had)
  {
    hide Dialogue.Dialogue.Valid, Sessions.State.Valid, Sessions.LastNum;
    var ok := d.Connect();
    d.Moves(Dialogue.Send);
    var resp := d.Deliver();
  }

  /** A first operation is applied and the client does not hear of it. */
  method FirstApplied<D>(exec: (D, nat, nat, seq<byte>) -> (D, seq<byte>), db: D, name: string, statement: seq<byte>)
    returns (d: Dialogue.Dialogue<D>)
    ensures fresh(d) && fresh(d.client) && fresh(d.state) && fresh(d.state.Objects())
    ensures d.Valid() && d.name in d.state.names && |d.state.trace| == 1 && d.state.trace[0].ran
    ensures d.ops == map[0 := d.serial] && d.state.trace[0].req == d.client.req == statement
    ensures d.client.created && d.client.busy && !d.client.connected && d.client.number == 1
  {
    hide Dialogue.Dialogue.Valid, Sessions.State.Valid, Sessions.LastNum;
    d := FreshlyConnected(exec, db, name);
    d.Moves(Dialogue.Exec(statement));
    d.Moves(Dialogue.Send);
    var resp := d.Deliver();
    d.Moves(Dialogue.Break);
  }

  method FreshlyConnected<D>(exec: (D, nat, nat, seq<byte>) -> (D, seq<byte>), db: D, name: string)
    returns (d: Dialogue.Dialogue<D>)
    ensures fresh(d) && fresh(d.client) && fresh(d.state) && fresh(d.state.Objects())
    ensures d.Valid() && d.name in d.state.names && d.state.trace == [] && d.ops == map[]
    ensures d.client.created && d.client.connected && !d.client.busy && d.client.number == 0
    ensures Sessions.LastNum([], d.id) == 0
  {
    hide Dialogue.Dialogue.Valid, Sessions.State.Valid;
    var s := new Sessions.State(exec, db);
    s.Pairs();
    d := new Dialogue.Dialogue(name, s);
    var ok := d.Connect();
  }

  /** The session of a client that is away too long is gone. */
  method Expire<D>(d: Dialogue.Dialogue<D>)
    requires d.Valid() && d.name in d.state.names && !d.client.connected
    modifies d.client, d.state, d.state.Objects()
    ensures d.Valid() && d.name !in d.state.names && d.state.trace == old(d.state.trace)
    ensures unchanged(d.client`number, d.client`connected, d.client`created, d.client`busy, d.client`req)
    ensures fresh(d.state.Objects() - old(d.state.Objects()))
  {
    hide Dialogue.Dialogue.Valid, Sessions.State.Valid;
    d.Other(Sessions.Disconnect(d.name, false));
    d.Other(Sessions.Timestamp(d.state.monotonic + Sessions.SESSION_TIMEOUT + 1));
  }
}
