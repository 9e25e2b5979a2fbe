/** The open-addressing hash map of lib/sc/sc_map.c: linear probing with wraparound, a side
    slot for key zero, doubling, and deletion that shifts later items back. The hash function
    is a parameter: everything here holds for every hash, however badly it collides. */
module HashMap {
  import opened Basics
  import opened Bits

  const MAX_CAP := 0x1_0000_0000  // SC_MAP_MAX + 1

  /** A slot; key zero marks it free. */
  datatype Item<V> = Item(key: nat, value: V)

  /** `x` lies on the cyclic walk from `a` up to but excluding `b`. */
  predicate Between(a: int, x: int, b: int) {
    if a <= b then a <= x < b else x >= a || x < b
  }

  function Next(pos: nat, cap: nat): (r: nat)
    requires pos < cap
    ensures r < cap
  {
    if pos + 1 == cap then 0 else pos + 1
  }

  /** Steps from `a` forward to `b`; the measure of every probe loop. */
  function Ahead(a: nat, b: nat, cap: nat): (r: nat)
    requires a < cap && b < cap
  {
    if a <= b then b - a else b - a + cap
  }

  /** The first slot probed for a key: `hash(key) & (cap - 1)`. */
  function Home(hash: nat -> nat, key: nat, cap: nat): (r: nat)
    requires cap > 0
    ensures r < cap
  {
    And(hash(key), cap - 1)
  }

  ghost predicate IsPow2(n: nat) {
    exists k: nat :: n == Pow2(k)
  }

  /** The size at which the table doubles: the integer part of `cap * loadFac / 100`. */
  function Threshold(cap: nat, loadFac: nat): (r: nat) {
    cap * loadFac / 100
  }

  lemma ThresholdIs(cap: nat, loadFac: nat)
    ensures 100 * Threshold(cap, loadFac) <= cap * loadFac < 100 * (Threshold(cap, loadFac) + 1)
  {
  }

  lemma ThresholdBounds(cap: nat, loadFac: nat)
    requires 25 <= loadFac <= 95
    ensures cap >= 1 ==> Threshold(cap, loadFac) < cap
    ensures cap >= 8 ==> Threshold(cap, loadFac) >= 2
    ensures Threshold(2 * cap, loadFac) >= 2 * Threshold(cap, loadFac)
  {
    var x := cap * loadFac;
    MulMonotone(cap, loadFac, 95);
    MulMonotone(cap, 25, loadFac);
    assert 2 * cap * loadFac == 2 * x;
  }

  /** No key sits in two slots. */
  ghost predicate Distinct<V(!new)>(t: seq<Item<V>>) {
    forall i, j :: 0 <= i < j < |t| && t[i].key != 0 ==> t[i].key != t[j].key
  }

  /** Walking from an item's home slot to the item meets no free slot, except perhaps `hole`. */
  ghost predicate Reached<V(!new)>(t: seq<Item<V>>, hash: nat -> nat, i: nat, hole: int)
    requires i < |t|
  {
    forall j :: 0 <= j < |t| && Between(Home(hash, t[i].key, |t|), j, i) && j != hole ==> t[j].key != 0
  }

  ghost predicate Placed<V(!new)>(t: seq<Item<V>>, hash: nat -> nat, hole: int) {
    && Distinct(t)
    && forall i :: 0 <= i < |t| && t[i].key != 0 ==> Reached(t, hash, i, hole)
  }

  /** The non-zero keys of `m` and their values are exactly the items of the table. */
  ghost predicate Holds<V(!new)>(t: seq<Item<V>>, m: map<nat, V>) {
    && (forall i :: 0 <= i < |t| && t[i].key != 0 ==> t[i].key in m && m[t[i].key] == t[i].value)
    && (forall k :: k in m && k != 0 ==> exists i :: 0 <= i < |t| && t[i].key == k)
  }

  /** The keys of the first `n` slots. */
  ghost function KeySet<V>(t: seq<Item<V>>, n: nat): (s: set<nat>)
    requires n <= |t|
  {
    if n == 0 then {} else KeySet(t, n - 1) + {t[n - 1].key}
  }

  lemma {:induction false} KeyAt<V>(t: seq<Item<V>>, n: nat, k: nat) returns (i: nat)
    requires n <= |t| && k in KeySet(t, n)
    ensures i < n && t[i].key == k
  {
    if t[n - 1].key == k {
      i := n - 1;
    } else {
      i := KeyAt(t, n - 1, k);
    }
  }

  lemma {:induction false} KeySetSize<V(!new)>(t: seq<Item<V>>, n: nat)
    requires n <= |t| && Distinct(t) && forall i :: 0 <= i < n ==> t[i].key != 0
    ensures |KeySet(t, n)| == n
  {
    if n > 0 {
      KeySetSize(t, n - 1);
      if t[n - 1].key in KeySet(t, n - 1) {
        var i := KeyAt(t, n - 1, t[n - 1].key);
        assert false;
      }
    }
  }

  /** Pigeonhole: a table with fewer keys than slots has a free slot. */
  lemma FreeSlot<V(!new)>(t: seq<Item<V>>, m: map<nat, V>) returns (e: nat)
    requires Distinct(t) && |m| < |t|
    requires forall i :: 0 <= i < |t| && t[i].key != 0 ==> t[i].key in m
    ensures e < |t| && t[e].key == 0
  {
    if forall i :: 0 <= i < |t| ==> t[i].key != 0 {
      KeySetSize(t, |t|);
      forall k | k in KeySet(t, |t|)
        ensures k in m
      {
        var i := KeyAt(t, |t|, k);
      }
      SubsetSize(KeySet(t, |t|), m.Keys);
    }
    e :| 0 <= e < |t| && t[e].key == 0;
  }

  /** Every slot from the home of `key` up to `pos` is taken by some other key. */
  ghost predicate Probed<V(!new)>(t: seq<Item<V>>, hash: nat -> nat, key: nat, pos: int)
    requires |t| > 0
  {
    forall j :: 0 <= j < |t| && Between(Home(hash, key, |t|), j, pos) ==> t[j].key != 0 && t[j].key != key
  }

  lemma ProbeNext<V(!new)>(t: seq<Item<V>>, hash: nat -> nat, key: nat, pos: nat, e: nat)
    requires pos < |t| && e < |t| && t[e].key == 0
    requires Probed(t, hash, key, pos) && t[pos].key != 0 && t[pos].key != key
    ensures Probed(t, hash, key, Next(pos, |t|))
    ensures Ahead(Next(pos, |t|), e, |t|) < Ahead(pos, e, |t|)
  {
    var h := Home(hash, key, |t|);
    assert !Between(h, e, pos);
  }

  /** A probe that reaches a free slot proves the key absent. */
  lemma ProbeMiss<V(!new)>(t: seq<Item<V>>, hash: nat -> nat, key: nat, pos: nat)
    requires pos < |t| && key != 0 && Placed(t, hash, -1)
    requires Probed(t, hash, key, pos) && t[pos].key == 0
    ensures forall i :: 0 <= i < |t| ==> t[i].key != key
  {
  }

  /** Filling the free slot where a probe ended keeps every item reachable. */
  lemma PlaceInsert<V(!new)>(t: seq<Item<V>>, hash: nat -> nat, pos: nat, item: Item<V>)
    requires pos < |t| && item.key != 0 && Placed(t, hash, -1)
    requires Probed(t, hash, item.key, pos) && t[pos].key == 0
    ensures Placed(t[pos := item], hash, -1)
  {
    ProbeMiss(t, hash, item.key, pos);
    var t' := t[pos := item];
    forall i | 0 <= i < |t'| && t'[i].key != 0
      ensures Reached(t', hash, i, -1)
    {
      if i != pos {
        assert Reached(t, hash, i, -1);
      }
    }
  }

  lemma HoldsInsert<V(!new)>(t: seq<Item<V>>, m: map<nat, V>, pos: nat, key: nat, value: V)
    requires pos < |t| && key != 0 && Holds(t, m)
    requires t[pos].key == 0 || t[pos].key == key
    requires forall i :: 0 <= i < |t| && i != pos ==> t[i].key != key
    ensures Holds(t[pos := Item(key, value)], m[key := value])
  {
    var t', m' := t[pos := Item(key, value)], m[key := value];
    forall k | k in m' && k != 0
      ensures exists i :: 0 <= i < |t'| && t'[i].key == k
    {
      if k == key {
        assert t'[pos].key == k;
      } else {
        var i :| 0 <= i < |t| && t[i].key == k;
        assert t'[i].key == k;
      }
    }
  }

  /** The guard of the shift in sc_map_del: the hole lies on the walk from the item's home. */
  predicate MustShift(p: int, prev: int, it: int) {
    (p > it && (p <= prev || it >= prev)) || (p <= prev && it >= prev)
  }

  /** While deleting: `prev` is the hole, all slots up to `it` are taken and cannot need it. */
  ghost predicate Shifting<V(!new)>(t: seq<Item<V>>, hash: nat -> nat, prev: nat, it: nat)
    requires prev < |t| && it < |t|
  {
    && t[prev].key == 0
    && Placed(t, hash, prev)
    && forall i :: 0 <= i < |t| && i != prev && (Between(prev, i, it) || i == it) ==>
                     t[i].key != 0 && !Between(Home(hash, t[i].key, |t|), prev, i)
  }

  lemma ShiftSkip<V(!new)>(t: seq<Item<V>>, hash: nat -> nat, prev: nat, it: nat)
    requires prev < |t| && it < |t| && Shifting(t, hash, prev, it)
    requires var n := Next(it, |t|); t[n].key != 0 && !MustShift(Home(hash, t[n].key, |t|), prev, n)
    ensures Shifting(t, hash, prev, Next(it, |t|))
  {
  }

  lemma ShiftMove<V(!new)>(t: seq<Item<V>>, hash: nat -> nat, prev: nat, it: nat)
    requires prev < |t| && it < |t| && Shifting(t, hash, prev, it)
    requires var n := Next(it, |t|); t[n].key != 0 && MustShift(Home(hash, t[n].key, |t|), prev, n)
    ensures var n := Next(it, |t|);
            Shifting(t[prev := t[n]][n := t[n].(key := 0)], hash, n, n)
  {
    var n := Next(it, |t|);
    var t' := t[prev := t[n]][n := t[n].(key := 0)];
    assert Reached(t, hash, n, prev);
    forall i | 0 <= i < |t'| && t'[i].key != 0
      ensures Reached(t', hash, i, n)
    {
      if i != prev {
        assert Reached(t, hash, i, prev);
      }
    }
  }

  /** A walk that passes `prev` and reaches `n` before `i` passes `n` too. */
  lemma BetweenShift(home: int, prev: int, i: int, n: int)
    ensures Between(home, prev, i) && !Between(prev, i, n) && n != i && i != prev ==> Between(home, n, i)
  {
  }

  /** When the scan meets a free slot the hole is harmless. */
  lemma ShiftDone<V(!new)>(t: seq<Item<V>>, hash: nat -> nat, prev: nat, it: nat)
    requires prev < |t| && it < |t| && Shifting(t, hash, prev, it)
    requires t[Next(it, |t|)].key == 0 && Next(it, |t|) != prev
    ensures Placed(t, hash, -1)
  {
    var n := Next(it, |t|);
    forall i | 0 <= i < |t| && t[i].key != 0
      ensures Reached(t, hash, i, -1)
    {
      assert Reached(t, hash, i, prev);
      BetweenShift(Home(hash, t[i].key, |t|), prev, i, n);
      assert Between(prev, i, n) ==> i == prev || i == it || Between(prev, i, it);
    }
  }

  /** struct sc_map; `Contents` is the mathematical map it stands for. */
  class Map<V(!new)> {
    const hash: nat -> nat
    const zero: V         // the zero value returned for absent keys
    var mem: array<Item<V>>
    var side: V           // mem[-1].value, the slot of key zero
    var cap: nat
    var size: nat
    var loadFac: nat
    var remap: nat
    var used: bool
    var oom: bool
    var found: bool
    ghost var Contents: map<nat, V>

    ghost predicate Valid()
      reads this, mem
    {
      && cap == mem.Length && 0 < cap
      && IsPow2(cap)
      && 25 <= loadFac <= 95
      && remap == (if cap == 1 then 0 else Threshold(cap, loadFac))
      && size == |Contents| && size <= remap
      && (cap == 1 || 8 <= cap < MAX_CAP)
      && (used <==> 0 in Contents)
      && (used ==> Contents[0] == side)
      && Placed(mem[..], hash, -1)
      && Holds(mem[..], Contents)
    }

    /** What an oversized sc_map_init leaves: no slot at all until the first put. */
    ghost predicate Hollow()
      reads this
    {
      cap == mem.Length == size == remap == 0 && !used && Contents == map[] && 25 <= loadFac <= 95
    }

    constructor (hash: nat -> nat, zero: V)
      ensures Valid() && fresh(mem) && Contents == map[]
      ensures this.hash == hash && this.zero == zero
    {
      this.hash, this.zero, side := hash, zero, zero;
      mem := new Item<V>[1](_ => Item(0, zero));
      cap, size, loadFac, remap := 1, 0, 75, 0;
      used, oom, found := false, false, false;
      Contents := map[];
      new;
      assert IsPow2(cap) by { assert cap == Pow2(0); }
    }

    /** sc_map_alloc: the next power of two of `cap * factor`, at least eight, as a 32-bit word. */
    method Alloc(cap: nat, factor: nat) returns (ok: bool, t: array<Item<V>>, ncap: nat)
      requires cap < MAX_CAP && factor in {1, 2}
      ensures ok <==> cap <= (MAX_CAP - 1) / factor
      ensures ok ==> fresh(t) && t.Length == ncap && forall i :: 0 <= i < ncap ==> t[i] == Item(0, zero)
      ensures ok && cap < 8 ==> ncap == 8
      ensures ok && cap >= 8 && cap * factor <= MAX_CAP / 2 ==> ncap == LeastPow2(cap * factor)
      ensures ok && cap * factor > MAX_CAP / 2 ==> ncap == 0
    {
      t := new Item<V>[0];
      ncap := cap;
      if cap > (MAX_CAP - 1) / factor {
        return false, t, cap;
      }
      Pow2At32();
      var v := if cap < 8 then 8 else cap * factor;
      ncap := RoundUpPow2(v, 32);
      if cap < 8 {
        BitLengthUnique(7, 3);
      }
      var z := zero;
      t := new Item<V>[ncap](_ => Item(0, z));
      ok := true;
    }

    /** sc_map_init. Capacities above `2^31` round up to `2^32`, which is zero in 32 bits. */
    method Init(cap: nat, loadFac: nat) returns (ok: bool)
      requires cap < MAX_CAP
      modifies this
      ensures ok <==> loadFac == 0 || 25 <= loadFac <= 95
      ensures !ok ==> unchanged(this)
      ensures ok && cap <= MAX_CAP / 2 ==> Valid() && Contents == map[] && fresh(mem)
      ensures ok && cap > MAX_CAP / 2 ==> Hollow() && !Valid()
    {
      var f := if loadFac == 0 then 75 else loadFac;
      if f > 95 || f < 25 {
        return false;
      }
      ok := true;
      size, used, this.loadFac, Contents := 0, false, f, map[];
      if cap == 0 {
        var z := zero;
        mem := new Item<V>[1](_ => Item(0, z));
        this.cap, remap := 1, 0;
        assert IsPow2(this.cap) by { assert this.cap == Pow2(0); }
        return;
      }
      var got, t, ncap := Alloc(cap, 1);
      mem, this.cap, remap := t, ncap, Threshold(ncap, f);
      if cap <= MAX_CAP / 2 {
        FirstCap(cap, f);
      }
    }

    /** sc_map_clear: frees the slots by zeroing their keys. */
    method Clear()
      requires Valid()
      modifies this, mem
      ensures Valid() && Contents == map[] && mem == old(mem)
      ensures cap == old(cap) && loadFac == old(loadFac)
    {
      if size > 0 {
        for i := 0 to cap
          modifies mem
          invariant forall j :: 0 <= j < i ==> mem[j].key == 0
        {
          mem[i] := mem[i].(key := 0);
        }
        used, size, Contents := false, 0, map[];
      }
    }

    /** The probe loop of put, get and del: the slot of `key`, or the free slot that ends its walk. */
    static method Probe(t: array<Item<V>>, hash: nat -> nat, key: nat, ghost free: nat) returns (pos: nat)
      requires key != 0 && free < t.Length && t[free].key == 0
      ensures pos < t.Length && Probed(t[..], hash, key, pos)
      ensures t[pos].key == 0 || t[pos].key == key
    {
      pos := And(hash(key), t.Length - 1);
      while t[pos].key != 0 && t[pos].key != key
        invariant pos < t.Length && Probed(t[..], hash, key, pos)
        decreases Ahead(pos, free, t.Length)
      {
        ProbeNext(t[..], hash, key, pos, free);
        pos := Next(pos, t.Length);
      }
    }

    /** Where the probe for `key` ends, and what that says about the map. */
    method Find(key: nat) returns (pos: nat)
      requires Valid() && key != 0
      ensures pos < mem.Length && Probed(mem[..], hash, key, pos)
      ensures mem[pos].key == if key in Contents then key else 0
      ensures key in Contents ==> mem[pos].value == Contents[key]
    {
      ghost var free := Free();
      pos := Probe(mem, hash, key, free);
      ProbeDecides(mem[..], hash, Contents, key, pos);
    }

    /** sc_map_remap: makes room for one more item, doubling the table when it is at its threshold. */
    method Remap() returns (ok: bool)
      requires Valid() || Hollow()
      modifies this
      ensures Valid() && Contents == old(Contents) && loadFac == old(loadFac)
      ensures mem == old(mem) || fresh(mem)
      ensures ok <==> old(size) < old(remap) || old(cap) < MAX_CAP / 2
      ensures ok ==> size < remap && 100 * (size + 1) <= cap * loadFac
      ensures cap != old(cap) ==> cap == if old(cap) < 8 then 8 else 2 * old(cap)
      ensures cap != old(cap) && old(cap) > 1 ==> old(cap) * old(loadFac) < 100 * (old(size) + 1)
      ensures !ok ==> unchanged(this)
      ensures unchanged(`oom, `found)
    {
      hide Placed, Holds, IsPow2, Threshold, LeastPow2;
      if cap > 1 {
        ThresholdIs(cap, loadFac);
      }
      if size < remap {
        return true;
      }
      var got, t, ncap := Alloc(cap, 2);
      if !got {
        return false;
      }
      Doubled(cap, loadFac, size);
      ThresholdIs(ncap, loadFac);
      if cap == 0 {
        EmptyTable(mem[..], hash);
      }
      Rehash(t);
      if cap == 1 {
        side := zero;
      }
      mem, cap, remap := t, ncap, Threshold(ncap, loadFac);
      ok := true;
    }

    /** The copy loop of sc_map_remap: every item probes for a free slot of the new table. */
    method Rehash(t: array<Item<V>>)
      requires cap == mem.Length && Placed(mem[..], hash, -1) && Holds(mem[..], Contents)
      requires t != mem && |Contents| < t.Length
      requires forall i :: 0 <= i < t.Length ==> t[i].key == 0
      modifies t
      ensures Placed(t[..], hash, -1) && Holds(t[..], Contents)
    {
      hide Placed, Holds;
      ghost var src := mem[..];
      EmptyTable(t[..], hash);
      for i := 0 to cap
        modifies t
        invariant mem[..] == src
        invariant Placed(t[..], hash, -1) && Holds(t[..], Items(src, i))
      {
        HoldsItems(src, hash, Contents, i);
        if mem[i].key != 0 {
          ghost var before := t[..];
          ghost var free := FreeIn(before, hash, Items(src, i), Contents);
          var pos := Probe(t, hash, mem[i].key, free);
          TableInsert(before, hash, Items(src, i), pos, mem[i].key, mem[i].value);
          t[pos] := mem[i];
          assert t[..] == before[pos := mem[i]];
        }
      }
      HoldsItems(src, hash, Contents, cap);
      HoldsSame(t[..], Items(src, cap), Contents);
    }

    /** sc_map_put. Fails only when a full table cannot double, and then changes nothing. A hollow map
        gets its first slots here. */
    method Put(key: nat, value: V) returns (ret: V)
      requires Valid() || Hollow()
      modifies this, mem
      ensures Valid() && (mem == old(mem) || fresh(mem)) && loadFac == old(loadFac)
      ensures oom <==> old(size) >= old(remap) && old(cap) >= MAX_CAP / 2
      ensures oom ==> Contents == old(Contents) && ret == zero
      ensures !oom ==> Contents == old(Contents)[key := value]
      ensures !oom ==> found == (key in old(Contents))
      ensures !oom ==> ret == if key in old(Contents) then old(Contents)[key] else zero
    {
      hide Placed, Holds, IsPow2, Threshold;
      oom := false;
      var ok := Remap();
      if !ok {
        oom := true;
        return zero;
      }
      if key == 0 {
        ret := PutZero(value);
        return;
      }
      ret := PutItem(key, value);
    }

    /** The key-zero branch of sc_map_put. */
    method PutZero(value: V) returns (ret: V)
      requires Valid() && size < remap
      modifies this`found, this`size, this`used, this`side, this`Contents
      ensures Valid() && Contents == old(Contents)[0 := value]
      ensures found == (0 in old(Contents))
      ensures ret == if 0 in old(Contents) then old(Contents)[0] else zero
    {
      hide Placed, Holds, IsPow2, Threshold;
      ret := if used then side else zero;
      found := used;
      size := size + if used then 0 else 1;
      used, side := true, value;
      HoldsZero(mem[..], Contents, value);
      Contents := Contents[0 := value];
    }

    /** The probing half of sc_map_put. */
    method PutItem(key: nat, value: V) returns (ret: V)
      requires Valid() && size < remap && key != 0
      modifies this, mem
      ensures Valid() && mem == old(mem) && loadFac == old(loadFac) && oom == old(oom)
      ensures Contents == old(Contents)[key := value]
      ensures found == (key in old(Contents))
      ensures ret == if key in old(Contents) then old(Contents)[key] else zero
    {
      hide Placed, Holds, IsPow2, Threshold;
      ghost var t := mem[..];
      var pos := Find(key);
      TableInsert(t, hash, Contents, pos, key, value);
      if mem[pos].key == 0 {
        size := size + 1;
      }
      found := mem[pos].key != 0;
      ret := if found then mem[pos].value else zero;
      mem[pos] := Item(key, value);
      assert mem[..] == t[pos := Item(key, value)];
      Contents := Contents[key := value];
    }

    /** The load factor keeps a slot free, so every probe ends. */
    lemma Free() returns (e: nat)
      requires Valid()
      ensures e < cap && mem[e].key == 0
    {
      ThresholdBounds(cap, loadFac);
      e := FreeSlot(mem[..], Contents);
    }

    /** sc_map_get. */
    method Get(key: nat) returns (ret: V)
      requires Valid()
      modifies this`found
      ensures Valid() && found == (key in Contents)
      ensures ret == if key in Contents then Contents[key] else zero
    {
      hide Placed, Holds, IsPow2, Threshold;
      if key == 0 {
        found := used;
        return if used then side else zero;
      }
      var pos := Find(key);
      if mem[pos].key == 0 {
        found := false;
        return zero;
      }
      found := true;
      return mem[pos].value;
    }

    /** sc_map_del: removes the item, then shifts later items of the run back over the hole. */
    method Del(key: nat) returns (ret: V)
      requires Valid()
      modifies this`found, this`size, this`used, this`Contents, mem
      ensures Valid() && Contents == old(Contents) - {key}
      ensures found == (key in old(Contents))
      ensures ret == if key in old(Contents) then old(Contents)[key] else zero
    {
      hide Placed, Holds, IsPow2, Threshold;
      if key == 0 {
        ret := DelZero();
      } else {
        ret := DelItem(key);
      }
    }

    /** The probing half of sc_map_del. */
    method DelItem(key: nat) returns (ret: V)
      requires Valid() && key != 0
      modifies this`found, this`size, this`Contents, mem
      ensures Valid() && Contents == old(Contents) - {key}
      ensures found == (key in old(Contents))
      ensures ret == if key in old(Contents) then old(Contents)[key] else zero
    {
      hide Placed, Holds, Probed, IsPow2, Threshold;
      var pos := Find(key);
      found := mem[pos].key != 0;
      if !found {
        assert Contents - {key} == Contents;
        return zero;
      }
      ret := mem[pos].value;
      RemoveAt(pos);
    }

    /** The key-zero branch of sc_map_del. */
    method DelZero() returns (ret: V)
      requires Valid()
      modifies this`found, this`size, this`used, this`Contents
      ensures Valid() && Contents == old(Contents) - {0}
      ensures found == (0 in old(Contents))
      ensures ret == if 0 in old(Contents) then old(Contents)[0] else zero
    {
      hide Placed, Holds, IsPow2, Threshold;
      found := used;
      ret := if used then side else zero;
      ForgetZero();
    }

    /** The side slot is marked free. */
    method ForgetZero()
      requires Valid()
      modifies this`size, this`used, this`Contents
      ensures Valid() && Contents == old(Contents) - {0}
    {
      hide Placed, Holds, IsPow2, Threshold;
      ghost var rest := Contents - {0};
      DropZero(Contents, rest);
      HoldsZero(mem[..], Contents, side);
      size := size - if used then 1 else 0;
      used := false;
      Contents := rest;
    }

    /** The shifting half of sc_map_del. */
    method RemoveAt(pos: nat)
      requires Valid() && pos < mem.Length && mem[pos].key != 0
      modifies this`size, this`Contents, mem
      ensures Valid() && Contents == old(Contents) - {old(mem[pos].key)}
    {
      hide Placed, Holds, IsPow2, Threshold;
      ghost var t := mem[..];
      ghost var free := Free();
      HoleOpened(t, hash, Contents, pos);
      RemoveSize(Contents, mem[pos].key);
      size := size - 1;
      Contents := Contents - {mem[pos].key};
      mem[pos] := mem[pos].(key := 0);
      assert mem[..] == t[pos := t[pos].(key := 0)];
      CloseHole(pos, free);
    }

    /** The inner loop of sc_map_del. */
    method CloseHole(pos: nat, ghost free: nat)
      requires cap == mem.Length && pos < cap && free < cap && free != pos && mem[free].key == 0
      requires mem[pos].key == 0 && Shifting(mem[..], hash, pos, pos) && Holds(mem[..], Contents)
      modifies mem
      ensures Placed(mem[..], hash, -1) && Holds(mem[..], Contents)
    {
      hide Placed, Holds, Shifting;
      var prev: nat, it: nat := pos, pos;
      while true
        invariant prev < cap && it < cap && mem[free].key == 0 && mem[prev].key == 0 && free != prev
        invariant Shifting(mem[..], hash, prev, it) && Holds(mem[..], Contents)
        invariant !Between(prev, free, it) && free != it
        decreases Ahead(it, free, cap)
      {
        ghost var t := mem[..];
        ghost var was := it;
        CyclicStep(prev, it, free, cap);
        it := Next(it, cap);
        if mem[it].key == 0 {
          ShiftDone(t, hash, prev, was);
          break;
        }
        var p := And(hash(mem[it].key), cap - 1);
        if MustShift(p, prev, it) {
          ShiftMove(t, hash, prev, was);
          HoldsMove(t, Contents, prev, it);
          mem[prev], mem[it] := mem[it], mem[it].(key := 0);
          assert mem[..] == t[prev := t[it]][it := t[it].(key := 0)];
          prev := it;
        } else {
          ShiftSkip(t, hash, prev, was);
        }
      }
    }
  }

  /** A scan from `prev` that has not passed `free` cannot come back round to `prev`. */
  lemma CyclicStep(prev: nat, it: nat, free: nat, cap: nat)
    requires prev < cap && it < cap && free < cap && free != prev && free != it && !Between(prev, free, it)
    ensures Next(it, cap) != prev && !Between(prev, free, Next(it, cap))
    ensures Ahead(Next(it, cap), free, cap) < Ahead(it, free, cap)
  {
  }

  lemma DropZero<V>(m: map<nat, V>, rest: map<nat, V>)
    requires rest == m - {0}
    ensures 0 !in rest && |rest| == |m| - if 0 in m then 1 else 0
  {
    if 0 in m {
      RemoveSize(m, 0);
    } else {
      assert rest == m;
    }
  }

  lemma RemoveSize<V>(m: map<nat, V>, k: nat)
    requires k in m
    ensures |m - {k}| == |m| - 1
  {
    assert (m - {k}).Keys == m.Keys - {k};
  }

  /** The items of the first `n` slots as a map. */
  ghost function Items<V>(t: seq<Item<V>>, n: nat): (m: map<nat, V>)
    requires n <= |t|
  {
    if n == 0 then map[]
    else if t[n - 1].key == 0 then Items(t, n - 1)
    else Items(t, n - 1)[t[n - 1].key := t[n - 1].value]
  }

  lemma {:induction false} ItemsOf<V(!new)>(t: seq<Item<V>>, n: nat)
    requires n <= |t|
    ensures forall k :: k in Items(t, n) <==> k != 0 && exists j :: 0 <= j < n && t[j].key == k
    ensures forall k :: k in Items(t, n) ==> exists j :: 0 <= j < n && t[j] == Item(k, Items(t, n)[k])
  {
    if n > 0 {
      ItemsOf(t, n - 1);
      var m, m' := Items(t, n - 1), Items(t, n);
      forall k | k in m'
        ensures exists j :: 0 <= j < n && t[j] == Item(k, m'[k])
      {
        if t[n - 1].key == k {
          assert t[n - 1] == Item(k, m'[k]);
        }
      }
    }
  }

  lemma HoldsItems<V(!new)>(t: seq<Item<V>>, hash: nat -> nat, m: map<nat, V>, n: nat)
    requires n <= |t| && Placed(t, hash, -1) && Holds(t, m)
    ensures forall k :: k in Items(t, n) ==> k != 0 && k in m && Items(t, n)[k] == m[k]
    ensures n == |t| ==> forall k :: k in m && k != 0 ==> k in Items(t, n)
    ensures n < |t| ==> t[n].key !in Items(t, n)
  {
    ItemsOf(t, n);
  }

  lemma HoldsSame<V(!new)>(t: seq<Item<V>>, m: map<nat, V>, m': map<nat, V>)
    requires Holds(t, m)
    requires forall k :: k in m ==> k != 0 && k in m' && m[k] == m'[k]
    requires forall k :: k in m' && k != 0 ==> k in m
    ensures Holds(t, m')
  {
  }

  lemma EmptyTable<V(!new)>(t: seq<Item<V>>, hash: nat -> nat)
    requires forall i :: 0 <= i < |t| ==> t[i].key == 0
    ensures Placed(t, hash, -1) && Holds(t, map[])
  {
  }

  lemma FreeIn<V(!new)>(t: seq<Item<V>>, hash: nat -> nat, m: map<nat, V>, all: map<nat, V>) returns (e: nat)
    requires Placed(t, hash, -1) && Holds(t, m) && |all| < |t|
    requires forall k :: k in m ==> k in all
    ensures e < |t| && t[e].key == 0
  {
    e := FreeSlot(t, all);
  }

  /** Doubling a valid capacity: what sc_map_alloc returns and why it then has room. */
  lemma Doubled(cap: nat, loadFac: nat, size: nat)
    requires cap == 0 || ((cap == 1 || 8 <= cap) && IsPow2(cap))
    requires cap < MAX_CAP / 2 && 25 <= loadFac <= 95
    requires size <= if cap <= 1 then 0 else Threshold(cap, loadFac)
    ensures 2 * cap <= MAX_CAP / 2
    ensures var ncap := if cap < 8 then 8 else LeastPow2(2 * cap);
            && 8 <= ncap < MAX_CAP && IsPow2(ncap) && size < Threshold(ncap, loadFac) < ncap
            && (cap >= 8 ==> ncap == 2 * cap)
  {
    assert IsPow2(1) by { assert 1 == Pow2(0); }
    DoubledCap(if cap == 0 then 1 else cap);
    hide IsPow2, Threshold, LeastPow2;
    ThresholdBounds(cap, loadFac);
    ThresholdBounds(8, loadFac);
    ThresholdBounds(2 * cap, loadFac);
  }

  lemma DoubledCap(cap: nat)
    requires cap < MAX_CAP / 2 && IsPow2(cap)
    ensures IsPow2(8) && IsPow2(2 * cap)
    ensures 2 * cap <= MAX_CAP / 2 && LeastPow2(2 * cap) == 2 * cap
  {
    hide Pow2, BitLength;
    var k: nat :| cap == Pow2(k);
    Pow2At32();
    Pow2Monotone(if k < 31 then k else 31, if k < 31 then 31 else k);
    Pow2Twice(k);
    BitLengthUnique(2 * cap - 1, k + 1);
  }

  /** The slot where a probe ends tells whether the key is present, and its value. */
  lemma ProbeDecides<V(!new)>(t: seq<Item<V>>, hash: nat -> nat, m: map<nat, V>, key: nat, pos: nat)
    requires pos < |t| && key != 0 && Placed(t, hash, -1) && Holds(t, m)
    requires Probed(t, hash, key, pos) && (t[pos].key == 0 || t[pos].key == key)
    ensures key in m <==> t[pos].key == key
    ensures key in m ==> m[key] == t[pos].value
  {
    if t[pos].key == 0 {
      ProbeMiss(t, hash, key, pos);
    }
  }

  /** Writing an item where its probe ended is the map update. */
  lemma TableInsert<V(!new)>(t: seq<Item<V>>, hash: nat -> nat, m: map<nat, V>, pos: nat, key: nat, value: V)
    requires pos < |t| && key != 0 && Placed(t, hash, -1) && Holds(t, m)
    requires Probed(t, hash, key, pos) && (t[pos].key == 0 || t[pos].key == key)
    ensures Placed(t[pos := Item(key, value)], hash, -1)
    ensures Holds(t[pos := Item(key, value)], m[key := value])
  {
    if t[pos].key == 0 {
      ProbeMiss(t, hash, key, pos);
      PlaceInsert(t, hash, pos, Item(key, value));
    } else {
      PlaceUpdate(t, hash, pos, value);
    }
    HoldsInsert(t, m, pos, key, value);
  }

  /** The side slot of key zero is invisible to the table. */
  lemma HoldsZero<V(!new)>(t: seq<Item<V>>, m: map<nat, V>, value: V)
    requires Holds(t, m)
    ensures Holds(t, m[0 := value]) && Holds(t, m - {0})
  {
  }

  lemma PlaceUpdate<V(!new)>(t: seq<Item<V>>, hash: nat -> nat, pos: nat, value: V)
    requires pos < |t| && t[pos].key != 0 && Placed(t, hash, -1)
    ensures Placed(t[pos := Item(t[pos].key, value)], hash, -1)
  {
    var t' := t[pos := Item(t[pos].key, value)];
    forall i | 0 <= i < |t'| && t'[i].key != 0
      ensures Reached(t', hash, i, -1)
    {
      assert Reached(t, hash, i, -1);
    }
  }

  lemma HoleOpened<V(!new)>(t: seq<Item<V>>, hash: nat -> nat, m: map<nat, V>, pos: nat)
    requires pos < |t| && t[pos].key != 0 && Placed(t, hash, -1) && Holds(t, m)
    ensures var t' := t[pos := t[pos].(key := 0)];
            Shifting(t', hash, pos, pos) && Holds(t', m - {t[pos].key})
    ensures t[pos].key in m
  {
    var t', m' := t[pos := t[pos].(key := 0)], m - {t[pos].key};
    forall i | 0 <= i < |t'| && t'[i].key != 0
      ensures Reached(t', hash, i, pos)
    {
      assert Reached(t, hash, i, -1);
    }
    forall k | k in m' && k != 0
      ensures exists i :: 0 <= i < |t'| && t'[i].key == k
    {
      var i :| 0 <= i < |t| && t[i].key == k;
      assert t'[i].key == k;
    }
  }

  lemma HoldsMove<V(!new)>(t: seq<Item<V>>, m: map<nat, V>, prev: nat, it: nat)
    requires prev < |t| && it < |t| && prev != it && t[prev].key == 0 && Holds(t, m)
    ensures Holds(t[prev := t[it]][it := t[it].(key := 0)], m)
  {
    var t' := t[prev := t[it]][it := t[it].(key := 0)];
    forall k | k in m && k != 0
      ensures exists i :: 0 <= i < |t'| && t'[i].key == k
    {
      var i :| 0 <= i < |t| && t[i].key == k;
      assert t'[if i == it then prev else i].key == k;
    }
  }

  /** The capacity sc_map_init starts from. */
  lemma FirstCap(cap: nat, loadFac: nat)
    requires cap <= MAX_CAP / 2 && 25 <= loadFac <= 95
    ensures var ncap := if cap < 8 then 8 else LeastPow2(cap);
            8 <= ncap < MAX_CAP && IsPow2(ncap) && Threshold(ncap, loadFac) < ncap
  {
    Pow2At32();
    LeastPow2Least(cap, 31);
    assert IsPow2(8);
    ThresholdBounds(8, loadFac);
    ThresholdBounds(LeastPow2(cap), loadFac);
  }

  lemma Pow2At32()
    ensures Pow2(3) == 8 && Pow2(31) == MAX_CAP / 2 && Pow2(32) == MAX_CAP
  {
    assert Pow2(8) == 256;
    Pow2Add(8, 8);
    Pow2Add(16, 15);
    Pow2Add(16, 16);
    assert Pow2(15) == 32768 by { Pow2Add(8, 7); }
  }
}
