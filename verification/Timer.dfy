/** The timing wheel (lib/sc/sc_timer.c): sixteen slots of `wheel` cells each, swept as time passes.

    A sweep calls back into user code for each expired timer, and that code may add and cancel
    timers, so the sweep is a sequence of visits with other operations in between. */
module Timer {
  import opened Bits
  import opened Basics

  const TICK := 16
  const SLOTS := 16                     // WHEEL_COUNT
  const INVALID := 0xFFFF_FFFF_FFFF_FFFF
  const TIMER_MAX := 0xFFFF_FFFF / 24 / SLOTS

  datatype Item = Item(timeout: nat, data: nat)

  const EMPTY := Item(INVALID, 0)

  /** Where a timer sits; also its id, which packs the two numbers. */
  datatype Slot = Slot(pos: nat, seq_: nat)

  predicate InWheel(s: Slot, wheel: nat) {
    s.pos < SLOTS && s.seq_ < wheel
  }

  /** Where the cells of a position begin. */
  function Base(pos: nat, wheel: nat): nat {
    wheel * pos
  }

  lemma BaseNext(p: nat, q: nat, wheel: nat)
    requires p < q
    ensures Base(p, wheel) + wheel <= Base(q, wheel)
  {
    MulMonotone(wheel, p + 1, q);
    assert wheel * (p + 1) == wheel * p + wheel;
  }

  lemma BaseEnd(p: nat, wheel: nat)
    requires p < SLOTS
    ensures Base(p, wheel) + wheel <= SLOTS * wheel
  {
    BaseNext(p, SLOTS, wheel);
  }

  function Index(s: Slot, wheel: nat): nat {
    Base(s.pos, wheel) + s.seq_
  }

  lemma IndexBound(s: Slot, wheel: nat)
    requires InWheel(s, wheel)
    ensures Index(s, wheel) < SLOTS * wheel
  {
    hide Base;
    BaseEnd(s.pos, wheel);
  }

  lemma IndexUnique(s: Slot, t: Slot, wheel: nat)
    requires InWheel(s, wheel) && InWheel(t, wheel) && s != t
    ensures Index(s, wheel) != Index(t, wheel)
  {
    hide Base;
    if s.pos < t.pos {
      BaseNext(s.pos, t.pos, wheel);
    } else if t.pos < s.pos {
      BaseNext(t.pos, s.pos, wheel);
    }
  }

  /** The cell of a slot. */
  function Cell(list: seq<Item>, wheel: nat, s: Slot): Item {
    if InWheel(s, wheel) && Index(s, wheel) < |list| then list[Index(s, wheel)] else EMPTY
  }

  lemma CellSet(list: seq<Item>, wheel: nat, s: Slot, x: Item, t: Slot)
    requires InWheel(s, wheel) && SLOTS * wheel <= |list|
    ensures Index(s, wheel) < |list|
    ensures Cell(list[Index(s, wheel) := x], wheel, t) == if t == s then x else Cell(list, wheel, t)
  {
    hide Index;
    IndexBound(s, wheel);
    if InWheel(t, wheel) && t != s {
      IndexUnique(s, t, wheel);
    }
  }

  /** The copy of sc_timer's expand: every cell keeps its slot in a list with twice the room. */
  method Expand(list: seq<Item>, wheel: nat) returns (list': seq<Item>, wheel': nat)
    requires |list| == 2 * SLOTS * wheel
    ensures wheel' == (if wheel != 0 then 2 * wheel else 4) && |list'| == 2 * SLOTS * wheel'
    ensures forall s :: InWheel(s, wheel') ==>
              Cell(list', wheel', s) == if s.seq_ < wheel then Cell(list, wheel, s) else EMPTY
  {
    wheel' := if wheel != 0 then 2 * wheel else 4;
    list' := seq(2 * SLOTS * wheel', i => EMPTY);
    var i := 0;
    while i < SLOTS && wheel != 0
      invariant i <= SLOTS && |list'| == 2 * SLOTS * wheel'
      invariant forall s :: InWheel(s, wheel') ==>
                  Cell(list', wheel', s) == if s.pos < i && s.seq_ < wheel then Cell(list, wheel, s) else EMPTY
    {
      list' := CopySlot(list, wheel, list', i);
      i := i + 1;
    }
  }

  method CopySlot(list: seq<Item>, wheel: nat, into: seq<Item>, i: nat) returns (r: seq<Item>)
    requires i < SLOTS && |list| == 2 * SLOTS * wheel && |into| == 2 * SLOTS * (2 * wheel)
    ensures |r| == |into|
    ensures forall s :: InWheel(s, 2 * wheel) ==>
              Cell(r, 2 * wheel, s) == if s.pos == i && s.seq_ < wheel then Cell(list, wheel, s)
                  else Cell(into, 2 * wheel, s)
  {
    hide Base;
    var d, f := Base(i, 2 * wheel), Base(i, wheel);
    BaseEnd(i, 2 * wheel);
    BaseEnd(i, wheel);
    r := into[..d] + list[f..f + wheel] + into[d + wheel..];
    forall s | InWheel(s, 2 * wheel)
      ensures Cell(r, 2 * wheel, s) == if s.pos == i && s.seq_ < wheel then Cell(list, wheel, s)
                else Cell(into, 2 * wheel, s)
    {
      IndexBound(s, 2 * wheel);
      if s.pos < i {
        BaseNext(s.pos, i, 2 * wheel);
      } else if i < s.pos {
        BaseNext(i, s.pos, 2 * wheel);
      }
    }
  }

  // What is known of a pending timer

  /** `born` and `wait` in milliseconds; `steps` counts wheel steps when it was added; `since` counts
      them when the sweep that found it expired began. */
  datatype Rec = Rec(serial: nat, data: nat, born: nat, wait: nat, steps: nat, since: Option<nat>)

  function Due(r: Rec): nat {
    r.born + r.wait
  }

  /** What its cell holds. */
  function ItemOf(r: Rec): Item {
    Item(Due(r), r.data)
  }

  /** A timer as it is added. */
  function NewRec(serial: nat, data: nat, timestamp: nat, timeout: nat, steps: nat): Rec {
    Rec(serial, data, timestamp, timeout, steps, if timeout == 0 then Some(steps) else None)
  }

  lemma NewSerial(serial: nat, data: nat, timestamp: nat, timeout: nat, steps: nat)
    ensures NewRec(serial, data, timestamp, timeout, steps).serial == serial
    ensures ItemOf(NewRec(serial, data, timestamp, timeout, steps)) == Item(timestamp + timeout, data)
  {
  }

  datatype Fate = Pending(slot: Slot) | Fired(at: nat) | Cancelled

  /** The first wheel step from `a` on that passes position `pos`. */
  function Next(a: nat, pos: nat): (n: nat)
    requires pos < SLOTS
    ensures a <= n < a + SLOTS && n % SLOTS == pos
  {
    if pos >= a % SLOTS then SLOTS * (a / SLOTS) + pos else SLOTS * (a / SLOTS + 1) + pos
  }

  /** Step `n` has not yet passed cell `k`, when the sweep stands at cell `i` of step `cursor`. */
  predicate Ahead(n: nat, k: nat, cursor: nat, i: nat, bound: nat, steps: nat) {
    cursor < n || (cursor == n && (cursor == steps || i <= k < bound))
  }

  ghost predicate Timely(r: Rec, s: Slot, timestamp: nat, steps: nat, cursor: nat, i: nat, bound: nat) {
    && s.pos < SLOTS && s.pos == (r.steps + r.wait / TICK) % SLOTS
    && r.steps <= steps && r.born <= timestamp && TICK * (steps - r.steps) <= timestamp - r.born
    && (r.since.Some? <==> Due(r) <= timestamp)
    && (r.since.Some? ==> && r.steps <= r.since.value && TICK * (r.since.value - r.steps) <= r.wait
                          && Ahead(Next(r.since.value, s.pos), s.seq_, cursor, i, bound, steps))
  }

  /** A timer shorter than one turn of the wheel is still pending only if its slot has not been
      passed since it was added. */
  lemma FirstPass(r: Rec, s: Slot, timestamp: nat, steps: nat, cursor: nat, i: nat, bound: nat)
    requires Timely(r, s, timestamp, steps, cursor, i, bound) && cursor <= steps && r.wait < TICK * SLOTS
    ensures Ahead(r.steps + r.wait / TICK, s.seq_, cursor, i, bound, steps)
  {
    if r.since.Some? {
      NextOnce(r.since.value, s.pos, r.steps + r.wait / TICK);
    }
  }

  lemma NextOnce(a: nat, pos: nat, n: nat)
    requires pos < SLOTS && a <= n < a + SLOTS && n % SLOTS == pos
    ensures Next(a, pos) == n
  {
  }

  /** An expired timer is still pending for fewer than sixteen steps of the wheel. */
  lemma FiresSoon(r: Rec, s: Slot, timestamp: nat, steps: nat, cursor: nat, i: nat, bound: nat)
    requires Timely(r, s, timestamp, steps, cursor, i, bound) && Due(r) <= timestamp
    ensures r.since.Some? && cursor < r.since.value + SLOTS
  {
  }

  /** The record after time has moved on to `now`, the sweep starting at step `a`. */
  function Advanced(r: Rec, now: nat, a: nat): Rec {
    if r.since.None? && Due(r) <= now then r.(since := Some(a)) else r
  }

  ghost function AllAdvanced(live: map<Slot, Rec>, now: nat, a: nat): map<Slot, Rec> {
    map s | s in live :: Advanced(live[s], now, a)
  }

  lemma AdvancedTimely(r: Rec, s: Slot, timestamp: nat, steps: nat, i: nat, bound: nat, now: nat, steps': nat,
      wheel: nat)
    requires Timely(r, s, timestamp, steps, steps, i, bound) && s.seq_ < wheel
    requires timestamp <= now && steps <= steps' && TICK * (steps' - steps) <= now - timestamp
    ensures Timely(Advanced(r, now, steps), s, now, steps', steps, 0, wheel)
  {
  }

  /** The list holds exactly the pending timers. */
  ghost predicate Linked(list: seq<Item>, wheel: nat, live: map<Slot, Rec>) {
    && |list| == 2 * SLOTS * wheel
    && (forall s :: s in live ==>
          InWheel(s, wheel) && Cell(list, wheel, s) == ItemOf(live[s]) && Due(live[s]) < INVALID)
    && (forall s :: InWheel(s, wheel) && s !in live ==> Cell(list, wheel, s).timeout == INVALID)
  }

  lemma LinkedAdd(list: seq<Item>, wheel: nat, live: map<Slot, Rec>, s: Slot, r: Rec)
    requires Linked(list, wheel, live) && InWheel(s, wheel) && s !in live && Due(r) < INVALID
    ensures Index(s, wheel) < |list| && Linked(list[Index(s, wheel) := ItemOf(r)], wheel, live[s := r])
  {
    hide Index, InWheel, Cell, Due;
    var x := ItemOf(r);
    IndexIn(s, wheel);
    forall t
      ensures Cell(list[Index(s, wheel) := x], wheel, t) == if t == s then x else Cell(list, wheel, t)
    {
      CellSet(list, wheel, s, x, t);
    }
  }

  lemma IndexIn(s: Slot, wheel: nat)
    requires InWheel(s, wheel)
    ensures Index(s, wheel) < SLOTS * wheel
  {
    IndexBound(s, wheel);
  }

  lemma LinkedRemove(list: seq<Item>, wheel: nat, live: map<Slot, Rec>, s: Slot, data: nat)
    requires Linked(list, wheel, live) && InWheel(s, wheel)
    ensures Index(s, wheel) < |list| && Linked(list[Index(s, wheel) := Item(INVALID, data)], wheel, live - {s})
  {
    hide Index, InWheel, Cell, Due;
    var x := Item(INVALID, data);
    IndexIn(s, wheel);
    forall t
      ensures Cell(list[Index(s, wheel) := x], wheel, t) == if t == s then x else Cell(list, wheel, t)
    {
      CellSet(list, wheel, s, x, t);
    }
  }

  /** Every timer ever added has one fate, and the pending ones are those in the wheel. */
  ghost predicate Accounted(live: map<Slot, Rec>, fates: seq<Fate>, due: seq<nat>) {
    && |due| == |fates|
    && (forall s :: s in live ==>
          live[s].serial < |fates| && fates[live[s].serial] == Pending(s) && due[live[s].serial] == Due(live[s]))
    && (forall n :: 0 <= n < |fates| && fates[n].Pending? ==> fates[n].slot in live && live[fates[n].slot].serial == n)
    && (forall n :: 0 <= n < |fates| && fates[n].Fired? ==> due[n] <= fates[n].at)
  }

  lemma AccountedAdd(live: map<Slot, Rec>, fates: seq<Fate>, due: seq<nat>, s: Slot, r: Rec)
    requires Accounted(live, fates, due) && s !in live && r.serial == |fates|
    ensures Accounted(live[s := r], fates + [Pending(s)], due + [Due(r)])
  {
    hide Due;
  }

  lemma AccountedEnd(live: map<Slot, Rec>, fates: seq<Fate>, due: seq<nat>, s: Slot, fate: Fate)
    requires Accounted(live, fates, due) && s in live && !fate.Pending? && (fate.Fired? ==> Due(live[s]) <= fate.at)
    ensures live[s].serial < |fates| && fates[live[s].serial] == Pending(s)
    ensures Accounted(live - {s}, fates[live[s].serial := fate], due)
  {
    hide Due;
  }

  ghost function CountFired(fates: seq<Fate>): nat {
    if fates == [] then 0 else CountFired(fates[..|fates| - 1]) + if fates[|fates| - 1].Fired? then 1 else 0
  }

  ghost function CountCancelled(fates: seq<Fate>): nat {
    if fates == [] then 0 else CountCancelled(fates[..|fates| - 1]) + if fates[|fates| - 1].Cancelled? then 1 else 0
  }

  /** The pending timers are those added, less those fired and those cancelled. */
  lemma {:induction false} Conservation(live: map<Slot, Rec>, fates: seq<Fate>, due: seq<nat>)
    requires Accounted(live, fates, due)
    ensures |live| == |fates| - CountFired(fates) - CountCancelled(fates)
    decreases |fates|
  {
    if fates == [] {
      assert live == map[];
    } else {
      var n := |fates| - 1;
      var rest := AllBut(live, fates[n]);
      AccountedInit(live, fates, due);
      if fates[n].Pending? {
        assert live.Keys == rest.Keys + {fates[n].slot} && |live| == |live.Keys| && |rest| == |rest.Keys|;
      }
      hide Accounted;
      Conservation(rest, fates[..n], due[..n]);
    }
  }

  ghost function AllBut(live: map<Slot, Rec>, fate: Fate): map<Slot, Rec> {
    if fate.Pending? then live - {fate.slot} else live
  }

  lemma AccountedInit(live: map<Slot, Rec>, fates: seq<Fate>, due: seq<nat>)
    requires Accounted(live, fates, due) && fates != []
    ensures Accounted(AllBut(live, fates[|fates| - 1]), fates[..|fates| - 1], due[..|fates| - 1])
    ensures fates[|fates| - 1].Pending? ==> fates[|fates| - 1].slot in live
  {
    hide Due;
    var n := |fates| - 1;
    var rest := AllBut(live, fates[n]);
    forall s | s in rest
      ensures rest[s].serial < n && fates[..n][rest[s].serial] == Pending(s) && due[..n][rest[s].serial] == Due(rest[s])
    {
      assert s in live && fates[live[s].serial] == Pending(s);
    }
  }

  lemma Turn(a: nat, b: nat)
    ensures (a % SLOTS + b) % SLOTS == (a + b) % SLOTS
  {
  }

  lemma NewTimely(serial: nat, data: nat, s: Slot, timestamp: nat, timeout: nat, steps: nat, cursor: nat, i: nat,
      bound: nat)
    requires s.pos == (timeout / TICK + steps % SLOTS) % SLOTS && cursor <= steps
    ensures Timely(NewRec(serial, data, timestamp, timeout, steps), s, timestamp, steps, cursor, i, bound)
  {
    Turn(steps, timeout / TICK);
  }

  /** What has fired or was cancelled stays so. */
  ghost predicate Settled(a: seq<Fate>, b: seq<Fate>) {
    |a| <= |b| && forall n :: 0 <= n < |a| && !a[n].Pending? ==> b[n] == a[n]
  }

  class Wheel {
    var timestamp: nat
    var head: nat
    var wheel: nat
    var list: seq<Item>
    // the sweep under way: the local variables of sc_timer_timeout
    var slot: nat            // the position being swept
    var left: nat            // how many positions are left to sweep
    var i: nat
    var bound: nat
    ghost var cursor: nat    // the wheel step being swept
    ghost var steps: nat     // wheel steps taken so far
    ghost var live: map<Slot, Rec>
    ghost var fates: seq<Fate>
    ghost var due: seq<nat>
    ghost var script: seq<Op>  // the calls of sc_timer_add and sc_timer_cancel so far

    ghost predicate Punctual()
      reads this
    {
      forall s :: s in live ==> Timely(live[s], s, timestamp, steps, cursor, i, bound)
    }

    ghost predicate Valid()
      reads this
    {
      && timestamp < INVALID && head == steps % SLOTS && slot == cursor % SLOTS
      && steps == cursor + left && left <= SLOTS && (left > 0 ==> i <= bound <= wheel)
      && Linked(list, wheel, live) && Punctual() && Accounted(live, fates, due)
    }

    /** Between sweeps: a short timer's slot has not come round since it was added, and an expired
        timer has seen fewer than sixteen steps. */
    lemma Guarantee(s: Slot)
      requires Valid() && left == 0 && s in live
      ensures live[s].wait < 256 ==> steps <= live[s].steps + live[s].wait / 16
      ensures live[s].born + live[s].wait <= timestamp ==> live[s].since.Some? && steps < live[s].since.value + 16
    {
      hide Linked, Accounted;
      assert Timely(live[s], s, timestamp, steps, cursor, i, bound);
      if live[s].wait < TICK * SLOTS {
        FirstPass(live[s], s, timestamp, steps, cursor, i, bound);
      }
    }

    /** sc_timer_init. */
    constructor (timestamp: nat)
      requires timestamp < INVALID
      ensures Valid() && live == map[] && fates == [] && script == []
      ensures this.timestamp == timestamp && steps == left == 0
    {
      this.timestamp, head, wheel, list, script := timestamp, 0, 0, [], [];
      slot, left, i, bound, cursor, steps, live, fates, due := 0, 0, 0, 0, 0, 0, map[], [], [];
    }

    /** sc_timer_add. */
    method Add(timeout: nat, data: nat) returns (id: Option<Slot>)
      requires Valid() && timeout + timestamp < INVALID
      modifies this`list, this`wheel, this`live, this`fates, this`due, this`script
      ensures Valid() && wheel >= old(wheel) && script == old(script) + [AddTimer(timeout, data)]
      ensures id.None? ==> live == old(live) && fates == old(fates) && wheel >= TIMER_MAX / 2
      ensures id.Some? ==> id.value !in old(live) && id.value.pos == (timeout / TICK + head) % SLOTS
      ensures id.Some? ==> live == old(live)[id.value := NewRec(|old(fates)|, data, timestamp, timeout, steps)]
      ensures id.Some? ==> fates == old(fates) + [Pending(id.value)] && due == old(due) + [timeout + timestamp]
    {
      hide Linked, Accounted, Timely;
      script := script + [AddTimer(timeout, data)];
      var pos := (timeout / TICK + head) % SLOTS;
      var k := FreeCell(pos);
      if k == wheel {
        if wheel >= TIMER_MAX / 2 {
          return None;
        }
        Grow();
      }
      id := Some(Slot(pos, k));
      Place(Slot(pos, k), timeout, data);
    }

    method Grow()
      requires Valid()
      modifies this`list, this`wheel
      ensures Valid() && wheel > old(wheel)
    {
      hide Base, Accounted, Timely, Cell, Index, Due;
      list, wheel := Expand(list, wheel);
    }

    method Place(s: Slot, timeout: nat, data: nat)
      requires Valid() && InWheel(s, wheel) && s !in live && timeout + timestamp < INVALID
      requires s.pos == (timeout / TICK + head) % SLOTS
      modifies this`list, this`live, this`fates, this`due
      ensures Valid() && live == old(live)[s := NewRec(|old(fates)|, data, timestamp, timeout, steps)]
      ensures fates == old(fates) + [Pending(s)] && due == old(due) + [timeout + timestamp]
    {
      hide Linked, Index, InWheel, Accounted, Timely, NewRec;
      ghost var r := NewRec(|fates|, data, timestamp, timeout, steps);
      NewTimely(|fates|, data, s, timestamp, timeout, steps, cursor, i, bound);
      NewSerial(|fates|, data, timestamp, timeout, steps);
      LinkedAdd(list, wheel, live, s, r);
      AccountedAdd(live, fates, due, s, r);
      list := list[Index(s, wheel) := Item(timeout + timestamp, data)];
      live, fates, due := live[s := r], fates + [Pending(s)], due + [Due(r)];
    }

    /** The search loop of sc_timer_add. */
    method FreeCell(pos: nat) returns (k: nat)
      requires Valid() && pos < SLOTS
      ensures k <= wheel && Slot(pos, k) !in live
    {
      hide Base, Accounted, Timely, Cell, Index;
      k := 0;
      while k < wheel
        invariant k <= wheel
      {
        IndexIn(Slot(pos, k), wheel);
        assert SLOTS * wheel <= |list|;
        if CellAt(list, wheel, Slot(pos, k)).timeout == INVALID {
          return;
        }
        k := k + 1;
      }
    }

    /** sc_timer_cancel. The id finds its cell however often the list was expanded. */
    method Cancel(id: Option<Slot>)
      requires Valid() && (id.Some? ==> InWheel(id.value, wheel))
      modifies this`list, this`live, this`fates, this`script
      ensures Valid() && due == old(due) && Settled(old(fates), fates)
      ensures script == old(script) + (if id.Some? then [CancelTimer(id.value)] else [])
      ensures id.Some? && id.value in old(live) ==>
                live == old(live) - {id.value} && old(live)[id.value].serial < |old(fates)|
                && fates == old(fates)[old(live)[id.value].serial := Cancelled]
      ensures !(id.Some? && id.value in old(live)) ==> live == old(live) && fates == old(fates)
    {
      hide Linked, Accounted, Timely;
      if id.Some? {
        script := script + [CancelTimer(id.value)];
        Take(id.value, Cancelled);
      }
    }

    /** A cell is emptied; its timer, if it had one, meets its fate. */
    method Take(s: Slot, ghost fate: Fate)
      requires Valid() && InWheel(s, wheel) && !fate.Pending?
      requires s in live && fate.Fired? ==> Due(live[s]) <= fate.at
      modifies this`list, this`live, this`fates
      ensures Valid() && Settled(old(fates), fates)
      ensures s in old(live) ==> live == old(live) - {s} && old(live)[s].serial < |old(fates)|
      ensures s in old(live) ==> fates == old(fates)[old(live)[s].serial := fate]
      ensures s !in old(live) ==> live == old(live) && fates == old(fates)
    {
      hide Linked, Index, InWheel, Accounted, Due, Timely, Cell;
      LinkedSize(list, wheel, live);
      LinkedRemove(list, wheel, live, s, CellAt(list, wheel, s).data);
      list := list[Index(s, wheel) := Item(INVALID, CellAt(list, wheel, s).data)];
      if s in live {
        AccountedEnd(live, fates, due, s, fate);
        fates := fates[live[s].serial := fate];
        live := live - {s};
      } else {
        assert live - {s} == live;
      }
    }

    /** The start of sc_timer_timeout: time moves on and the wheel with it, one step for each full
        tick but at most one turn. */
    method Begin(now: nat) returns (wheels: nat)
      requires Valid() && left == 0 && timestamp <= now < INVALID
      modifies this`timestamp, this`head, this`left, this`i, this`bound, this`steps, this`live
      ensures Valid() && wheels == (if (now - old(timestamp)) / TICK < SLOTS then (now - old(timestamp)) / TICK
                else SLOTS)
      ensures left == wheels && steps == old(steps) + wheels
      ensures timestamp == if wheels == 0 then old(timestamp) else now
      ensures live == if wheels == 0 then old(live) else AllAdvanced(old(live), now, old(steps))
    {
      hide Accounted, Timely, Linked, Due, Advanced;
      wheels := if (now - timestamp) / TICK < SLOTS then (now - timestamp) / TICK else SLOTS;
      if wheels == 0 {
        return;
      }
      ghost var a := steps;
      ghost var live' := AllAdvanced(live, now, a);
      forall s | s in live
        ensures Timely(live'[s], s, now, a + wheels, a, 0, wheel)
      {
        LinkedSlot(list, wheel, live, s);
        AdvancedTimely(live[s], s, timestamp, a, i, bound, now, a + wheels, wheel);
      }
      AdvancedAccounted(live, fates, due, now, a);
      AdvancedLinked(list, wheel, live, now, a);
      Turn(a, wheels);
      live, steps := live', a + wheels;
      timestamp, head := now, (head + wheels) % SLOTS;
      left, i, bound := wheels, 0, wheel;
    }

    /** One turn of the loops of sc_timer_timeout: look at a cell, or go on to the next position. */
    method Visit() returns (fired: Option<nat>)
      requires Valid() && left > 0
      modifies this`slot, this`left, this`i, this`bound, this`cursor, this`list, this`live, this`fates
      ensures Valid() && due == old(due) && Settled(old(fates), fates)
      ensures left < old(left) || (left == old(left) && bound == old(bound) && i == old(i) + 1)
      ensures fired.None? ==> live == old(live) && fates == old(fates)
      ensures fired.Some? ==> var s := Slot(old(slot), old(i));
                && s in old(live) && Due(old(live)[s]) <= timestamp && fired.value == old(live)[s].data
                && live == old(live) - {s}
                && old(live)[s].serial < |old(fates)| && fates == old(fates)[old(live)[s].serial := Fired(timestamp)]
    {
      hide Linked, Index, Accounted, Timely, Cell;
      fired := None;
      if i < bound {
        var s := Slot(slot, i);
        LinkedSize(list, wheel, live);
        var item := CellAt(list, wheel, s);
        LinkedCell(list, wheel, live, s);
        if item.timeout <= timestamp {
          fired := Some(item.data);
          Take(s, Fired(timestamp));
        }
        PastCell();
        i := i + 1;
      } else {
        PastSlot();
        Turn(cursor, 1);
        left, cursor, slot := left - 1, cursor + 1, (slot + 1) % SLOTS;
        i, bound := 0, wheel;
      }
    }

    /** The cell the sweep stands at holds no expired timer. */
    lemma PastCell()
      requires Valid() && left > 0 && i < bound
      requires Slot(slot, i) in live ==> Due(live[Slot(slot, i)]) > timestamp
      ensures forall s :: s in live ==> Timely(live[s], s, timestamp, steps, cursor, i + 1, bound)
    {
      hide Linked, Accounted;
      forall s | s in live
        ensures Timely(live[s], s, timestamp, steps, cursor, i + 1, bound)
      {
        assert Timely(live[s], s, timestamp, steps, cursor, i, bound);
      }
    }

    /** All cells of the position were visited. */
    lemma PastSlot()
      requires Valid() && left > 0 && i == bound
      ensures forall s :: s in live ==> Timely(live[s], s, timestamp, steps, cursor + 1, 0, wheel)
    {
      hide Accounted, Cell, Index, Base;
      forall s | s in live
        ensures Timely(live[s], s, timestamp, steps, cursor + 1, 0, wheel)
      {
        assert Timely(live[s], s, timestamp, steps, cursor, i, bound);
      }
    }

    /** A callback can do this: a timer in reach of the clock, and an id it was given. */
    predicate Possible(op: Op)
      reads this
    {
      match op
      case AddTimer(timeout, _) => timeout + timestamp < INVALID
      case CancelTimer(id) => InWheel(id, wheel)
    }

    /** What a callback does to the timers, the impossible left out. */
    method Run(ops: seq<Op>)
      requires Valid()
      modifies this`list, this`wheel, this`live, this`fates, this`due, this`script
      ensures Valid() && wheel >= old(wheel) && Settled(old(fates), fates)
      ensures old(script) <= script && (old(AllPossible(ops)) ==> script == old(script) + ops)
    {
      hide Linked, Timely, Due, Accounted;
      var k := 0;
      while k < |ops|
        modifies this`list, this`wheel, this`live, this`fates, this`due, this`script
        invariant k <= |ops| && Valid() && wheel >= old(wheel) && Settled(old(fates), fates)
        invariant old(script) <= script && (old(AllPossible(ops)) ==> script == old(script) + ops[..k])
      {
        match ops[k] {
          case AddTimer(timeout, data) =>
            if timeout + timestamp < INVALID {
              var id := Add(timeout, data);
            }
          case CancelTimer(id) =>
            if InWheel(id, wheel) {
              Cancel(Some(id));
            }
        }
        k := k + 1;
      }
      assert ops[..k] == ops;
    }

    ghost predicate AllPossible(ops: seq<Op>)
      reads this
    {
      forall k :: 0 <= k < |ops| ==> Possible(ops[k])
    }

    /** sc_timer_timeout, whatever the callback does with the timers when one fires; it may do something
        else each time, so it is a function of all that has fired in this sweep, the last one last. */
    method Timeout(now: nat, callback: seq<nat> -> seq<Op>) returns (wait: nat, ghost fired: seq<nat>)
      requires Valid() && left == 0 && timestamp <= now < INVALID
      modifies this
      ensures Valid() && left == 0 && Settled(old(fates), fates)
      ensures old(steps) <= steps <= old(steps) + SLOTS && TICK * (steps - old(steps)) <= now - old(timestamp)
      ensures timestamp == if now - old(timestamp) < TICK then old(timestamp) else now
      ensures wait == if now - old(timestamp) < TICK then TICK - (now - old(timestamp))
                else if now - old(timestamp) == TICK then 0 else TICK
      ensures Sane(callback, now, old(wheel)) ==> script == old(script) + Calls(callback, fired)
    {
      hide Linked, Timely, Accounted, Sane, Calls, AllPossible, Due;
      CallsNone(callback);
      var time := now - timestamp;
      wait := if time <= TICK then TICK - time else TICK;
      var wheels := Begin(now);
      var log: seq<nat> := [];
      while left > 0
        modifies this`slot, this`left, this`i, this`bound, this`cursor, this`list, this`wheel, this`live, this`fates,
            this`due, this`script
        invariant Valid() && Settled(old(fates), fates) && wheel >= old(wheel) && (left > 0 ==> timestamp == now)
        invariant Sane(callback, now, old(wheel)) ==> script == old(script) + Calls(callback, log)
        decreases left, bound - i
      {
        var data := Visit();
        if data.Some? {
          log := log + [data.value];
          CallsSnoc(callback, log);
          SanePossible(callback, now, old(wheel), log);
          Run(callback(log));
        }
      }
      fired := log;
    }

    lemma SanePossible(callback: seq<nat> -> seq<Op>, now: nat, bound: nat, log: seq<nat>)
      requires timestamp == now && bound <= wheel
      ensures Sane(callback, now, bound) ==> AllPossible(callback(log))
    {
    }
  }

  /** Whatever the callback is told, its calls are in reach of the clock and name cells of the wheel. */
  ghost predicate Sane(callback: seq<nat> -> seq<Op>, now: nat, wheel: nat) {
    forall log, k :: 0 <= k < |callback(log)| ==>
      match callback(log)[k]
      case AddTimer(timeout, _) => timeout + now < INVALID
      case CancelTimer(id) => InWheel(id, wheel)
  }

  /** The calls made in a sweep in which these timers fired, in this order. */
  ghost function Calls(callback: seq<nat> -> seq<Op>, fired: seq<nat>): seq<Op> {
    if fired == [] then [] else Calls(callback, fired[..|fired| - 1]) + callback(fired)
  }

  lemma CallsNone(callback: seq<nat> -> seq<Op>)
    ensures Calls(callback, []) == []
  {
  }

  lemma CallsSnoc(callback: seq<nat> -> seq<Op>, fired: seq<nat>)
    requires fired != []
    ensures Calls(callback, fired) == Calls(callback, fired[..|fired| - 1]) + callback(fired)
  {
  }

  datatype Op = AddTimer(timeout: nat, data: nat) | CancelTimer(id: Slot)

  lemma LinkedCell(list: seq<Item>, wheel: nat, live: map<Slot, Rec>, s: Slot)
    requires Linked(list, wheel, live) && InWheel(s, wheel)
    ensures Cell(list, wheel, s).timeout == if s in live then Due(live[s]) else INVALID
    ensures s in live ==> Due(live[s]) < INVALID && Cell(list, wheel, s).data == live[s].data
  {
  }

  lemma AdvancedAccounted(live: map<Slot, Rec>, fates: seq<Fate>, due: seq<nat>, now: nat, a: nat)
    requires Accounted(live, fates, due)
    ensures Accounted(AllAdvanced(live, now, a), fates, due)
  {
  }

  lemma AdvancedLinked(list: seq<Item>, wheel: nat, live: map<Slot, Rec>, now: nat, a: nat)
    requires Linked(list, wheel, live)
    ensures Linked(list, wheel, AllAdvanced(live, now, a))
  {
    hide Cell;
  }

  lemma LinkedSlot(list: seq<Item>, wheel: nat, live: map<Slot, Rec>, s: Slot)
    requires Linked(list, wheel, live) && s in live
    ensures InWheel(s, wheel)
  {
  }

  lemma LinkedSize(list: seq<Item>, wheel: nat, live: map<Slot, Rec>)
    requires Linked(list, wheel, live)
    ensures SLOTS * wheel <= |list|
  {
  }

  function CellAt(list: seq<Item>, wheel: nat, s: Slot): (x: Item)
    requires InWheel(s, wheel) && SLOTS * wheel <= |list|
    ensures x == Cell(list, wheel, s)
  {
    IndexBound(s, wheel);
    list[Index(s, wheel)]
  }
}
