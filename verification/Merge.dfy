/** The append merge of server_store_entries (src/server.c) on sequences, after section 5.3 of "In
    Search of an Understandable Consensus Algorithm (Extended Version)". Position `k` of a log
    stands for index `ssIndex + 1 + k`; of an entry only its term matters here. */
module Merge {

  /** Walk the batch along the log from position `k`: skip entries the log already has, cut the
      log at the first one whose term differs, append the rest. */
  function Merge<T>(term: T -> nat, log: seq<T>, k: nat, batch: seq<T>): (r: seq<T>)
    requires k <= |log|
    ensures |r| >= k + |batch|
    decreases |batch|
  {
    if batch == [] then log
    else if k < |log| && term(log[k]) == term(batch[0]) then Merge(term, log, k + 1, batch[1..])
    else Merge(term, log[..k] + [batch[0]], k + 1, batch[1..])
  }

  /** The step the loop takes for one entry. */
  function MergeOne<T>(term: T -> nat, log: seq<T>, k: nat, e: T): (r: seq<T>)
    requires k <= |log|
    ensures |r| >= k + 1
  {
    if k < |log| && term(log[k]) == term(e) then log else log[..k] + [e]
  }

  /** Merging a longer batch is merging its front, then one step for its last entry. */
  lemma {:induction false} MergeSnoc<T>(term: T -> nat, log: seq<T>, k: nat, batch: seq<T>, e: T)
    requires k <= |log|
    ensures Merge(term, log, k, batch + [e]) == MergeOne(term, Merge(term, log, k, batch), k + |batch|, e)
    decreases |batch|
  {
    var all := batch + [e];
    if batch == [] {
      assert all[1..] == [];
    } else {
      assert all[0] == batch[0] && all[1..] == batch[1..] + [e];
      var next := if k < |log| && term(log[k]) == term(batch[0]) then log else log[..k] + [batch[0]];
      MergeSnoc(term, next, k + 1, batch[1..], e);
    }
  }

  /** How many batch entries the log already has from position `k` before it ends or conflicts. */
  function Agree<T>(term: T -> nat, log: seq<T>, k: nat, batch: seq<T>): (n: nat)
    requires k <= |log|
    ensures n <= |batch| && k + n <= |log|
    decreases |batch|
  {
    if batch == [] || k == |log| || term(log[k]) != term(batch[0]) then 0
    else 1 + Agree(term, log, k + 1, batch[1..])
  }

  lemma {:induction false} AgreeTerms<T>(term: T -> nat, log: seq<T>, k: nat, batch: seq<T>)
    requires k <= |log|
    ensures var n := Agree(term, log, k, batch);
            && (forall i :: 0 <= i < n ==> term(log[k + i]) == term(batch[i]))
            && (n < |batch| && k + n < |log| ==> term(log[k + n]) != term(batch[n]))
    decreases |batch|
  {
    if batch != [] && k < |log| && term(log[k]) == term(batch[0]) {
      AgreeTerms(term, log, k + 1, batch[1..]);
      var n := Agree(term, log, k, batch);
      forall i | 0 <= i < n
        ensures term(log[k + i]) == term(batch[i])
      {
        if i > 0 {
          assert batch[i] == batch[1..][i - 1];
          assert log[k + i] == log[k + 1 + (i - 1)];
        }
      }
    }
  }

  /** The log after the agreeing part was kept and, when the batch goes on, the rest replaced by it. */
  function Spliced<T>(log: seq<T>, k: nat, batch: seq<T>, n: nat): seq<T>
    requires n <= |batch| && k + n <= |log|
  {
    if n == |batch| then log else log[..k + n] + batch[n..]
  }

  lemma {:induction false} MergeIs<T>(term: T -> nat, log: seq<T>, k: nat, batch: seq<T>)
    requires k <= |log|
    ensures Merge(term, log, k, batch) == Spliced(log, k, batch, Agree(term, log, k, batch))
    decreases |batch|
  {
    if batch != [] {
      var rest := batch[1..];
      if k < |log| && term(log[k]) == term(batch[0]) {
        MergeIs(term, log, k + 1, rest);
        SpliceSkip(log, k, batch, Agree(term, log, k + 1, rest));
      } else {
        var cut := log[..k] + [batch[0]];
        MergeIs(term, cut, k + 1, rest);
        assert Agree(term, cut, k + 1, rest) == 0;
        SpliceCut(log, k, batch);
      }
    }
  }

  lemma SpliceSkip<T>(log: seq<T>, k: nat, batch: seq<T>, n: nat)
    requires 0 < |batch| && n < |batch| && k + 1 + n <= |log|
    ensures Spliced(log, k + 1, batch[1..], n) == Spliced(log, k, batch, n + 1)
  {
    assert batch[n + 1..] == batch[1..][n..];
  }

  lemma SpliceCut<T>(log: seq<T>, k: nat, batch: seq<T>)
    requires 0 < |batch| && k <= |log|
    ensures Spliced(log[..k] + [batch[0]], k + 1, batch[1..], 0) == Spliced(log, k, batch, 0)
  {
    var cut := log[..k] + [batch[0]];
    assert batch[1..][0..] == batch[1..] && batch[0..] == batch == [batch[0]] + batch[1..];
    assert cut[..k + 1] == cut;
  }

  /** Nothing is truncated without a conflict: the old log stays a prefix exactly when the batch
      agrees with it until one of them ends. */
  lemma NoConflictNoTruncation<T>(term: T -> nat, log: seq<T>, k: nat, batch: seq<T>)
    requires k <= |log|
    ensures var n := Agree(term, log, k, batch);
            log <= Merge(term, log, k, batch) <==> n == |batch| || k + n == |log|
  {
    var n := Agree(term, log, k, batch);
    MergeIs(term, log, k, batch);
    AgreeTerms(term, log, k, batch);
    if n < |batch| && k + n < |log| {
      assert Spliced(log, k, batch, n)[k + n] == batch[n];
    }
  }

  /** The batch's terms sit at its positions, the new part byte for byte, and everything before the
      first difference is untouched. */
  lemma BatchSits<T>(term: T -> nat, log: seq<T>, k: nat, batch: seq<T>)
    requires k <= |log|
    ensures var r, n := Merge(term, log, k, batch), Agree(term, log, k, batch);
            && r[..k + n] == log[..k + n]
            && r[k + n..k + |batch|] == (if n == |batch| then [] else batch[n..])
            && forall i :: 0 <= i < |batch| ==> term(r[k + i]) == term(batch[i])
  {
    var r, n := Merge(term, log, k, batch), Agree(term, log, k, batch);
    MergeIs(term, log, k, batch);
    AgreeTerms(term, log, k, batch);
    forall i | 0 <= i < |batch|
      ensures term(r[k + i]) == term(batch[i])
    {
      if i < n {
        assert r[k + i] == log[k + i];
      } else {
        assert r[k + i] == batch[n..][i - n];
      }
    }
  }

  /** Replaying any part of an accepted batch, the whole or an older one, changes nothing. */
  lemma ReplayIsNoop<T>(term: T -> nat, log: seq<T>, k: nat, batch: seq<T>, a: nat, b: nat)
    requires k <= |log| && a <= b <= |batch|
    ensures var r := Merge(term, log, k, batch); Merge(term, r, k + a, batch[a..b]) == r
  {
    var r := Merge(term, log, k, batch);
    BatchSits(term, log, k, batch);
    forall i | 0 <= i < b - a
      ensures term(r[k + a + i]) == term(batch[a..b][i])
    {
      assert r[k + (a + i)] == r[k + a + i];
    }
    AgreeAll(term, r, k + a, batch[a..b]);
    MergeIs(term, r, k + a, batch[a..b]);
  }

  lemma {:induction false} AgreeAll<T>(term: T -> nat, log: seq<T>, k: nat, batch: seq<T>)
    requires k + |batch| <= |log|
    requires forall i :: 0 <= i < |batch| ==> term(log[k + i]) == term(batch[i])
    ensures Agree(term, log, k, batch) == |batch|
    decreases |batch|
  {
    if batch != [] {
      assert term(log[k + 0]) == term(batch[0]);
      forall i | 0 <= i < |batch| - 1
        ensures term(log[k + 1 + i]) == term(batch[1..][i])
      {
        assert term(log[k + (i + 1)]) == term(batch[i + 1]);
      }
      AgreeAll(term, log, k + 1, batch[1..]);
    }
  }

  /** The Log Matching Property of section 5.3: equal terms at a position mean equal logs up to it. */
  ghost predicate Matching<T(!new)>(term: T -> nat, a: seq<T>, b: seq<T>) {
    forall i :: 0 <= i < |a| && i < |b| && term(a[i]) == term(b[i]) ==> a[..i + 1] == b[..i + 1]
  }

  /** A follower that agrees with the sender at `k - 1` and matches its log holds the same log as
      the sender through the end of the batch, and still matches it. */
  lemma MergeEqualsLeader<T(!new)>(term: T -> nat, log: seq<T>, leader: seq<T>, k: nat, batch: seq<T>)
    requires k <= |log| && Matching(term, log, leader)
    requires k + |batch| <= |leader| && batch == leader[k..k + |batch|]
    requires k > 0 ==> term(log[k - 1]) == term(leader[k - 1])
    ensures Merge(term, log, k, batch)[..k + |batch|] == leader[..k + |batch|]
    ensures Matching(term, Merge(term, log, k, batch), leader)
  {
    hide Merge, Agree, Matching, Spliced;
    var r, n := Merge(term, log, k, batch), Agree(term, log, k, batch);
    MergeIs(term, log, k, batch);
    AgreeLast(term, log, k, batch);
    PrefixAgrees(term, log, leader, k + n);
    SplicedLeader(log, leader, k, batch, n);
    MatchingKept(term, log, leader, r, k + |batch|);
  }

  lemma AgreeLast<T>(term: T -> nat, log: seq<T>, k: nat, batch: seq<T>)
    requires k <= |log|
    ensures var n := Agree(term, log, k, batch); n > 0 ==> term(log[k + n - 1]) == term(batch[n - 1])
  {
    hide Agree;
    var n := Agree(term, log, k, batch);
    AgreeTerms(term, log, k, batch);
    assert n > 0 ==> term(log[k + (n - 1)]) == term(batch[n - 1]);
  }

  lemma SplicedLeader<T>(log: seq<T>, leader: seq<T>, k: nat, batch: seq<T>, n: nat)
    requires n <= |batch| && k + n <= |log| && k + |batch| <= |leader|
    requires batch == leader[k..k + |batch|] && log[..k + n] == leader[..k + n]
    ensures Spliced(log, k, batch, n)[..k + |batch|] == leader[..k + |batch|]
    ensures Spliced(log, k, batch, n) == log || |Spliced(log, k, batch, n)| == k + |batch|
  {
    if n < |batch| {
      assert leader[..k + |batch|] == leader[..k + n] + leader[k + n..k + |batch|];
      assert leader[k + n..k + |batch|] == batch[n..];
    }
  }

  lemma PrefixAgrees<T(!new)>(term: T -> nat, log: seq<T>, leader: seq<T>, k: nat)
    requires Matching(term, log, leader) && k <= |log| && k <= |leader|
    requires k > 0 ==> term(log[k - 1]) == term(leader[k - 1])
    ensures log[..k] == leader[..k]
  {
    if k > 0 {
      var i := k - 1;
      assert log[..i + 1] == leader[..i + 1];
    }
  }

  lemma MatchingKept<T(!new)>(term: T -> nat, log: seq<T>, leader: seq<T>, r: seq<T>, m: nat)
    requires Matching(term, log, leader)
    requires m <= |r| && m <= |leader| && r[..m] == leader[..m]
    requires r == log || |r| == m
    ensures Matching(term, r, leader)
  {
    if |r| == m {
      forall i | 0 <= i < |r| && i < |leader| && term(r[i]) == term(leader[i])
        ensures r[..i + 1] == leader[..i + 1]
      {
        assert r[..i + 1] == r[..m][..i + 1] && leader[..i + 1] == leader[..m][..i + 1];
      }
    }
  }
}
