/** The majority rule behind the commit index and the read rounds (src/server.c): sort one record
    per voter in falling order and take the one in the middle. */
module Quorum {
  import opened Basics

  /** A node's record: its match index, or the last round it acknowledged. */
  function Of(m: map<nat, nat>, id: nat): nat {
    if id in m then m[id] else 0
  }

  ghost predicate Descending(m: map<nat, nat>, order: seq<nat>) {
    forall i, j :: 0 <= i < j < |order| ==> Of(m, order[i]) >= Of(m, order[j])
  }

  /** sc_array_sort with server_sort_matches or server_sort_rounds. */
  function Sort(m: map<nat, nat>, order: seq<nat>): (r: seq<nat>)
    ensures Descending(m, r) && multiset(r) == multiset(order)
  {
    if order == [] then []
    else
      assert order == [order[0]] + order[1..];
      Insert(m, Sort(m, order[1..]), order[0])
  }

  function Insert(m: map<nat, nat>, s: seq<nat>, id: nat): (r: seq<nat>)
    requires Descending(m, s)
    ensures Descending(m, r) && multiset(r) == multiset(s) + multiset{id}
  {
    if s == [] || Of(m, id) >= Of(m, s[0]) then [id] + s
    else
      assert s == [s[0]] + s[1..];
      var t := Insert(m, s[1..], id);
      InsertBelow(m, s, id, t);
      [s[0]] + t
  }

  lemma InsertBelow(m: map<nat, nat>, s: seq<nat>, id: nat, t: seq<nat>)
    requires Descending(m, s) && s != [] && Of(m, id) <= Of(m, s[0])
    requires Descending(m, t) && multiset(t) == multiset(s[1..]) + multiset{id}
    ensures Descending(m, [s[0]] + t)
  {
    hide Of;
    forall j | 0 <= j < |t|
      ensures Of(m, t[j]) <= Of(m, s[0])
    {
      assert t[j] in multiset(t);
      assert t[j] == id || t[j] in s[1..];
    }
  }

  /** The voters whose record is at least `x`. */
  ghost function Holders(m: map<nat, nat>, x: nat): set<nat> {
    set id | id in m && m[id] >= x
  }

  ghost predicate Majority(m: map<nat, nat>, x: nat) {
    2 * |Holders(m, x)| > |m|
  }

  /** The largest value a majority has reached. */
  ghost predicate Reached(m: map<nat, nat>, v: nat) {
    Majority(m, v) && forall x :: x > v ==> !Majority(m, x)
  }

  /** The node array lists every voter once. */
  ghost predicate Lists(order: seq<nat>, m: map<nat, nat>) {
    multiset(order) == multiset(m.Keys) && |order| == |m|
  }

  lemma ListsKeys(order: seq<nat>, m: map<nat, nat>, m': map<nat, nat>)
    requires Lists(order, m) && m.Keys == m'.Keys
    ensures Lists(order, m')
  {
    assert |m| == |m.Keys| && |m'| == |m'.Keys|;
  }

  lemma {:induction false} ListsAll(order: seq<nat>, ids: set<nat>)
    requires forall i, j :: 0 <= i < j < |order| ==> order[i] != order[j]
    requires forall id :: id in ids <==> id in order
    ensures multiset(order) == multiset(ids) && |order| == |ids|
  {
    if order != [] {
      var first, rest := order[0], order[1..];
      assert order == [first] + rest && first !in rest;
      assert forall id :: id in ids <==> id == first || id in rest;
      ListsAll(rest, ids - {first});
      assert ids == (ids - {first}) + {first};
    }
  }

  lemma Distinct(order: seq<nat>, m: map<nat, nat>, i: nat, j: nat)
    requires Lists(order, m) && i < j < |order|
    ensures order[i] != order[j]
  {
    assert order == order[..j] + [order[j]] + order[j + 1..];
    assert order[i] in order[..j];
    assert order[i] == order[j] ==> multiset(order)[order[j]] >= 2;
  }

  lemma {:induction false} PrefixSize(order: seq<nat>, m: map<nat, nat>, k: nat)
    requires Lists(order, m) && k <= |order|
    ensures |set i | 0 <= i < k :: order[i]| == k
  {
    if k > 0 {
      PrefixSize(order, m, k - 1);
      forall i | 0 <= i < k - 1
        ensures order[i] != order[k - 1]
      {
        Distinct(order, m, i, k - 1);
      }
      var less := set i | 0 <= i < k - 1 :: order[i];
      assert (set i | 0 <= i < k :: order[i]) == less + {order[k - 1]};
    }
  }

  lemma Listed(order: seq<nat>, m: map<nat, nat>)
    requires Lists(order, m)
    ensures forall id :: id in m <==> id in order
    ensures forall i :: 0 <= i < |order| ==> order[i] in m
  {
    forall id
      ensures id in m <==> id in order
    {
      assert id in multiset(order) <==> id in multiset(m.Keys);
    }
  }

  /** The record in the middle of the sorted array is the largest value a majority has reached. */
  lemma Middle(order: seq<nat>, m: map<nat, nat>)
    requires Lists(order, m) && Descending(m, order) && order != []
    ensures Reached(m, Of(m, order[|order| / 2]))
  {
    var k := |order| / 2;
    var v := Of(m, order[k]);
    Listed(order, m);
    PrefixSize(order, m, k + 1);
    PrefixSize(order, m, k);
    SubsetSize(set i | 0 <= i < k + 1 :: order[i], Holders(m, v));
    forall x | x > v
      ensures !Majority(m, x)
    {
      forall id | id in Holders(m, x)
        ensures id in set i | 0 <= i < k :: order[i]
      {
        var i :| 0 <= i < |order| && order[i] == id;
        assert Of(m, order[i]) >= x;
      }
      SubsetSize(Holders(m, x), set i | 0 <= i < k :: order[i]);
    }
  }

  lemma ReachedUnique(m: map<nat, nat>, v: nat, w: nat)
    requires Reached(m, v) && Reached(m, w)
    ensures v == w
  {
  }

  /** Raising one record never lowers what a majority has reached. */
  lemma ReachedRaise(m: map<nat, nat>, id: nat, x: nat, v: nat, w: nat)
    requires id in m && m[id] <= x && Reached(m, v) && Reached(m[id := x], w)
    ensures v <= w
  {
    var m' := m[id := x];
    assert m'.Keys == m.Keys && |m'| == |m'.Keys| && |m| == |m.Keys|;
    SubsetSize(Holders(m, v), Holders(m', v));
    assert Majority(m', v);
  }

  /** The commit index of server_check_commit in one piece: what a majority has reached when the
      leader's own record counts its whole log. */
  ghost predicate Chosen(m: map<nat, nat>, own: nat, last: nat, v: nat) {
    Reached(if own in m then m[own := last] else m, v)
  }

  /** A majority of the voters has the log up to `x`, the leader counted with its whole log. */
  ghost predicate Held(m: map<nat, nat>, own: nat, x: nat) {
    2 * |set id | id in m && (id == own || m[id] >= x)| > |m|
  }

  /** Up to the leader's last index a majority holds exactly the indexes up to the chosen one. */
  lemma ChosenHeld(m: map<nat, nat>, own: nat, last: nat, v: nat, x: nat)
    requires Chosen(m, own, last, v) && x <= last
    ensures x <= v <==> Held(m, own, x)
  {
    var m' := if own in m then m[own := last] else m;
    assert m'.Keys == m.Keys && |m'| == |m'.Keys| && |m| == |m.Keys|;
    assert Holders(m', x) == set id | id in m && (id == own || m[id] >= x);
    if x <= v {
      SubsetSize(Holders(m', v), Holders(m', x));
    } else {
      assert !Majority(m', x);
    }
  }

  /** The two passes of server_check_commit: the leader counts its unflushed log only if that
      changes the outcome. */
  method Choose(m: map<nat, nat>, own: nat, last: nat, order: seq<nat>)
    returns (match_: nat, m': map<nat, nat>, order': seq<nat>)
    requires Lists(order, m) && order != [] && (own in m ==> m[own] <= last)
    ensures Chosen(m, own, last, match_)
    ensures Lists(order', m') && order' != [] && m'.Keys == m.Keys
    ensures if Reached(m, match_) then m' == m else own in m && m' == m[own := last]
  {
    hide Descending, Reached;
    var sorted := Sort(m, order);
    Middle(sorted, m);
    match_, m', order' := Of(m, sorted[|sorted| / 2]), m, sorted;
    if own in m && m[own] != last {
      var tmp := m[own := last];
      assert tmp.Keys == m.Keys;
      var again := Sort(tmp, sorted);
      Middle(again, tmp);
      var second := Of(tmp, again[|again| / 2]);
      ReachedRaise(m, own, last, match_, second);
      if second > match_ {
        if Reached(m, second) {
          ReachedUnique(m, match_, second);
        }
        match_, m' := second, tmp;
      }
      order' := again;
    } else {
      assert own in m ==> m[own := last] == m;
    }
  }
}
