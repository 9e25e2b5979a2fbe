/** The commit and read side of a leader (src/server.c): counting acknowledged rounds so that a
    readonly request is answered only after a majority confirmed the leadership since it arrived.

    `history` is a record of what happened, for stating the guarantee; the code has no such list. */
module ReadGate {
  import opened Quorum
  import opened Replica

  /** A waiting readonly request: the client and the values it was stamped with on arrival. */
  datatype Read = Read(client: nat, round: nat, commit: nat)

  datatype Event =
    | Arrive(client: nat, last: nat, term: nat)  // a readonly request came in; `last` is the log's end
    | Send(to: nat, term: nat, round: nat)       // an append or snapshot request left for a node
    | Ack(from: nat, term: nat, round: nat)      // its answer came back: accepted in, or refused by, this term
    | Serve(client: nat, arrived: nat, commit: nat, term: nat)  // answered; `arrived` is where its Arrive stands

  /** A request sent to `id` in term `t` was accepted by it in that term. */
  ghost predicate Trip(h: seq<Event>, s: int, k: int, id: nat, t: nat) {
    && 0 <= s < k < |h| && h[s].Send? && h[k].Ack? && h[s].to == h[k].from == id
    && h[s].term == h[k].term == t && h[s].round == h[k].round
  }

  /** A request sent to `id` after position `a` was accepted in term `t`. */
  ghost predicate RoundTrip(h: seq<Event>, a: nat, id: nat, t: nat) {
    exists s, k :: a < s && Trip(h, s, k, id, t)
  }

  ghost predicate AllTripped(h: seq<Event>, a: nat, q: set<nat>, own: nat, t: nat) {
    forall id :: id in q && id != own ==> RoundTrip(h, a, id, t)
  }

  /** A majority, the leader included, accepted something sent after position `a` in term `t`. */
  ghost predicate Confirmed(h: seq<Event>, a: nat, voters: set<nat>, own: nat, t: nat) {
    exists q: set<nat> :: q <= voters && 2 * |q| > |voters| && AllTripped(h, a, q, own, t)
  }

  /** The answer at position `p` was given after its request arrived and in the same term, after a
      majority had confirmed that term since then, and after the log as of the arrival was committed. */
  ghost predicate Safe(h: seq<Event>, p: nat, voters: set<nat>, own: nat) {
    p < |h| && h[p].Serve? ==>
      && h[p].arrived < p && h[h[p].arrived].Arrive? && h[h[p].arrived].client == h[p].client
      && h[h[p].arrived].last <= h[p].commit && h[h[p].arrived].term == h[p].term
      && Confirmed(h[..p], h[p].arrived, voters, own, h[p].term)
  }

  ghost predicate Linearizable(h: seq<Event>, voters: set<nat>, own: nat) {
    forall p :: 0 <= p < |h| ==> Safe(h, p, voters, own)
  }

  /** `id` accepted a request of round `r` or later in term `t`. */
  ghost predicate Answered(h: seq<Event>, id: nat, r: nat, t: nat) {
    exists s, k :: Trip(h, s, k, id, t) && r <= h[s].round
  }

  ghost predicate AllAnswered(h: seq<Event>, r: nat, q: set<nat>, own: nat, t: nat) {
    forall id :: id in q && id != own ==> Answered(h, id, r, t)
  }

  /** A majority, the leader included, accepted round `r` or later in term `t`. */
  ghost predicate Backed(h: seq<Event>, r: nat, voters: set<nat>, own: nat, t: nat) {
    exists q: set<nat> :: q <= voters && 2 * |q| > |voters| && AllAnswered(h, r, q, own, t)
  }

  /** No request sent before position `a` carries round `r` or a later one. */
  ghost predicate Unsent(h: seq<Event>, a: nat, r: nat) {
    forall s :: 0 <= s < a && s < |h| && h[s].Send? ==> h[s].round < r
  }

  ghost predicate SentUpTo(h: seq<Event>, r: nat) {
    forall s :: 0 <= s < |h| && h[s].Send? ==> h[s].round <= r
  }

  /** Nothing was sent in a later term than `t`. */
  ghost predicate SentBy(h: seq<Event>, t: nat) {
    forall s :: 0 <= s < |h| && h[s].Send? ==> h[s].term <= t
  }

  /** Rounds above `floor` were sent in term `t`. */
  ghost predicate SentIn(h: seq<Event>, floor: nat, t: nat) {
    forall s :: 0 <= s < |h| && h[s].Send? && h[s].round > floor ==> h[s].term == t
  }

  ghost predicate UpTo(rounds: map<nat, nat>, r: nat) {
    forall id :: id in rounds ==> rounds[id] <= r
  }

  lemma AnsweredGrows(h: seq<Event>, e: seq<Event>, id: nat, r: nat, t: nat)
    requires Answered(h, id, r, t)
    ensures Answered(h + e, id, r, t)
  {
    var s, k :| Trip(h, s, k, id, t) && r <= h[s].round;
    assert Trip(h + e, s, k, id, t);
  }

  lemma BackedGrows(h: seq<Event>, e: seq<Event>, r: nat, voters: set<nat>, own: nat, t: nat)
    requires Backed(h, r, voters, own, t)
    ensures Backed(h + e, r, voters, own, t)
  {
    hide Answered;
    var q: set<nat> :| q <= voters && 2 * |q| > |voters| && AllAnswered(h, r, q, own, t);
    forall id | id in q && id != own
      ensures Answered(h + e, id, r, t)
    {
      AnsweredGrows(h, e, id, r, t);
    }
    assert AllAnswered(h + e, r, q, own, t);
  }

  /** A round that was not yet sent when the request arrived is confirmed by later round trips. */
  lemma BackedConfirms(h: seq<Event>, a: nat, r: nat, r': nat, voters: set<nat>, own: nat, t: nat)
    requires Backed(h, r', voters, own, t) && r <= r' && Unsent(h, a, r) && a < |h| && h[a].Arrive?
    ensures Confirmed(h, a, voters, own, t)
  {
    var q: set<nat> :| q <= voters && 2 * |q| > |voters| && AllAnswered(h, r', q, own, t);
    forall id | id in q && id != own
      ensures RoundTrip(h, a, id, t)
    {
      assert Answered(h, id, r', t);
      var s, k :| Trip(h, s, k, id, t) && r' <= h[s].round;
      assert a < s;
    }
    assert AllTripped(h, a, q, own, t);
  }

  // What the records mean. `floor` is the last round of earlier terms, `t` the leader's term

  ghost predicate AllAcked(h: seq<Event>, rounds: map<nat, nat>, floor: nat, own: nat, t: nat) {
    forall id :: id in rounds && id != own && rounds[id] > floor ==> Answered(h, id, rounds[id], t)
  }

  /** The request arrived at `a` in term `t` and its round was first sent later. */
  ghost predicate Waiting(h: seq<Event>, r: Read, a: nat, floor: nat, t: nat) {
    a < |h| && h[a] == Arrive(r.client, r.commit, t) && Unsent(h, a, r.round) && r.round > floor
  }

  ghost predicate AllWaiting(h: seq<Event>, queue: seq<Read>, arrived: seq<nat>, floor: nat, t: nat) {
    |queue| == |arrived| && forall i :: 0 <= i < |queue| ==> Waiting(h, queue[i], arrived[i], floor, t)
  }

  ghost predicate Ordered(queue: seq<Read>) {
    forall i, j :: 0 <= i < j < |queue| ==> queue[i].round <= queue[j].round && queue[i].commit <= queue[j].commit
  }

  ghost predicate Bounded(queue: seq<Read>, round: nat, lastIndex: nat) {
    forall i :: 0 <= i < |queue| ==> queue[i].round <= round && queue[i].commit <= lastIndex
  }

  /** All rounds and all commit indexes of the list are reached. */
  ghost predicate AllReady(queue: seq<Read>, roundMatch: nat, commit: nat) {
    forall i :: 0 <= i < |queue| ==> queue[i].round <= roundMatch && queue[i].commit <= commit
  }

  ghost predicate NoneReady(queue: seq<Read>, roundMatch: nat, commit: nat) {
    forall i :: 0 <= i < |queue| ==> queue[i].round > roundMatch || queue[i].commit > commit
  }

  /** The list is ordered in both coordinates: behind one that is not ready there is no ready one. */
  lemma FirstDecides(queue: seq<Read>, roundMatch: nat, commit: nat)
    requires Ordered(queue)
    requires queue != [] ==> queue[0].round > roundMatch || queue[0].commit > commit
    ensures NoneReady(queue, roundMatch, commit)
  {
  }

  lemma ReadySnoc(queue: seq<Read>, n: nat, roundMatch: nat, commit: nat)
    requires n < |queue| && AllReady(queue[..n], roundMatch, commit)
    requires queue[n].round <= roundMatch && queue[n].commit <= commit
    ensures AllReady(queue[..n + 1], roundMatch, commit)
  {
    assert queue[..n + 1] == queue[..n] + [queue[n]];
  }

  /** Taking the first one away keeps the list in order. */
  lemma QueueTail(queue: seq<Read>, round: nat, lastIndex: nat)
    requires Ordered(queue) && Bounded(queue, round, lastIndex) && queue != []
    ensures Ordered(queue[1..]) && Bounded(queue[1..], round, lastIndex)
  {
  }

  /** What the counters and lists of a leader in term `t` say about the past. */
  datatype View = View(rounds: map<nat, nat>, roundMatch: nat, queue: seq<Read>, arrived: seq<nat>,
                       own: nat, floor: nat, t: nat)

  ghost predicate Story(h: seq<Event>, v: View) {
    && SentBy(h, v.t) && SentIn(h, v.floor, v.t)
    && AllAcked(h, v.rounds, v.floor, v.own, v.t)
    && (v.roundMatch <= v.floor || Backed(h, v.roundMatch, v.rounds.Keys, v.own, v.t))
    && AllWaiting(h, v.queue, v.arrived, v.floor, v.t)
    && Linearizable(h, v.rounds.Keys, v.own)
  }

  lemma SafeGrows(h: seq<Event>, e: Event, p: nat, voters: set<nat>, own: nat)
    requires Safe(h, p, voters, own) && p < |h|
    ensures Safe(h + [e], p, voters, own)
  {
    assert (h + [e])[..p] == h[..p];
  }

  lemma LinearizableGrows(h: seq<Event>, e: Event, voters: set<nat>, own: nat)
    requires Linearizable(h, voters, own) && Safe(h + [e], |h|, voters, own)
    ensures Linearizable(h + [e], voters, own)
  {
    hide Safe;
    forall p | 0 <= p < |h + [e]|
      ensures Safe(h + [e], p, voters, own)
    {
      if p < |h| {
        SafeGrows(h, e, p, voters, own);
      }
    }
  }

  /** Whatever happens next, short of an answer, the past stays what it was. */
  lemma StoryGrows(h: seq<Event>, e: Event, v: View)
    requires Story(h, v) && Safe(h + [e], |h|, v.rounds.Keys, v.own)
    requires e.Send? ==> e.term == v.t
    ensures Story(h + [e], v)
  {
    hide Answered, Backed, Safe, Linearizable;
    var h' := h + [e];
    forall id | id in v.rounds && id != v.own && v.rounds[id] > v.floor
      ensures Answered(h', id, v.rounds[id], v.t)
    {
      AnsweredGrows(h, [e], id, v.rounds[id], v.t);
    }
    if v.roundMatch > v.floor {
      BackedGrows(h, [e], v.roundMatch, v.rounds.Keys, v.own, v.t);
    }
    LinearizableGrows(h, e, v.rounds.Keys, v.own);
  }

  /** Between leaderships nothing is claimed of the records. */
  lemma StoryIdle(h: seq<Event>, v: View)
    requires SentBy(h, v.t) && SentUpTo(h, v.floor) && UpTo(v.rounds, v.floor) && v.roundMatch <= v.floor
    requires v.queue == [] && v.arrived == [] && Linearizable(h, v.rounds.Keys, v.own)
    ensures Story(h, v)
  {
  }

  /** A refusal is recorded and the leadership ends. */
  lemma RefusalIdle(h: seq<Event>, id: nat, t: nat, r: nat, sent: nat, v: View)
    requires SentBy(h, v.t) && SentUpTo(h, v.floor) && UpTo(v.rounds, v.floor) && v.roundMatch <= v.floor
    requires v.queue == [] && v.arrived == [] && Linearizable(h, v.rounds.Keys, v.own)
    requires Send(id, sent, r) in h && id in v.rounds && v.t < t
    ensures SentUpTo(h + [Ack(id, t, r)], v.floor) && UpTo(v.rounds[id := r], v.floor)
    ensures Story(h + [Ack(id, t, r)], v.(rounds := v.rounds[id := r], t := t))
  {
    hide Linearizable, Story;
    LinearizableGrows(h, Ack(id, t, r), v.rounds.Keys, v.own);
    assert v.rounds[id := r].Keys == v.rounds.Keys;
    StoryIdle(h + [Ack(id, t, r)], v.(rounds := v.rounds[id := r], t := t));
  }

  /** A waiting request whose round is backed may be answered. */
  lemma StoryServes(h: seq<Event>, commit: nat, v: View)
    requires Story(h, v) && v.queue != [] && v.queue[0].round <= v.roundMatch && v.queue[0].commit <= commit
    ensures Story(h + [Serve(v.queue[0].client, v.arrived[0], commit, v.t)],
                  v.(queue := v.queue[1..], arrived := v.arrived[1..]))
  {
    hide Answered, Backed, Confirmed, Unsent, AllAcked, Linearizable;
    var r, a := v.queue[0], v.arrived[0];
    var e := Serve(r.client, a, commit, v.t);
    var h' := h + [e];
    assert Waiting(h, r, a, v.floor, v.t);
    BackedConfirms(h, a, r.round, v.roundMatch, v.rounds.Keys, v.own, v.t);
    assert h'[..|h|] == h && h'[a] == h[a];
    StoryGrows(h, e, v);
    assert AllWaiting(h', v.queue[1..], v.arrived[1..], v.floor, v.t) by {
      hide Waiting;
      assert forall i :: 0 <= i < |v.queue| - 1 ==>
          v.queue[1..][i] == v.queue[i + 1] && v.arrived[1..][i] == v.arrived[i + 1];
    }
  }

  /** The majority's round becomes the round all waiting requests are measured by. */
  lemma MiddleBacks(h: seq<Event>, rounds: map<nat, nat>, r: nat, floor: nat, own: nat, t: nat)
    requires AllAcked(h, rounds, floor, own, t) && Reached(rounds, r) && r > floor
    ensures Backed(h, r, rounds.Keys, own, t)
  {
    var q := Holders(rounds, r);
    forall id | id in q && id != own
      ensures Answered(h, id, r, t)
    {
      assert Answered(h, id, rounds[id], t);
    }
    assert AllAnswered(h, r, q, own, t) && |rounds| == |rounds.Keys|;
  }

  /** Behind the first `n` no request is left whose commit index is reached and whose round a majority
      has reached. */
  ghost predicate Prompt(queue: seq<Read>, n: int, rounds: map<nat, nat>, commit: nat) {
    forall i :: 0 <= i < |queue| && n <= i ==>
      queue[i].commit > commit || 2 * |set id | id in rounds && rounds[id] >= queue[i].round| <= |rounds|
  }

  lemma AllPrompt(queue: seq<Read>, n: nat, rounds: map<nat, nat>, r: nat, roundMatch: nat, commit: nat)
    requires n <= |queue| && NoneReady(queue[n..], roundMatch, commit) && Reached(rounds, r) && r <= roundMatch
    ensures Prompt(queue, n, rounds, commit)
  {
    forall i | n <= i < |queue| && queue[i].commit <= commit
      ensures 2 * |set id | id in rounds && rounds[id] >= queue[i].round| <= |rounds|
    {
      assert queue[i] == queue[n..][i - n];
      assert !Majority(rounds, queue[i].round);
      assert Holders(rounds, queue[i].round) == set id | id in rounds && rounds[id] >= queue[i].round;
    }
  }

  lemma NonePrompt(rounds: map<nat, nat>, commit: nat)
    ensures Prompt([], 0, rounds, commit)
  {
  }

  /** The answers given to a run of requests. */
  ghost function Answers(queue: seq<Read>, arrived: seq<nat>, commit: nat, t: nat): seq<Event>
    decreases |queue|
  {
    if queue == [] || arrived == [] then []
    else [Serve(queue[0].client, arrived[0], commit, t)] + Answers(queue[1..], arrived[1..], commit, t)
  }

  lemma NoAnswers(queue: seq<Read>, arrived: seq<nat>, commit: nat, roundMatch: nat, t: nat)
    ensures queue[..0] == [] && arrived[..0] == [] && Answers([], [], commit, t) == []
    ensures AllReady([], roundMatch, commit)
    ensures queue == [] ==> queue[0..] == queue
  {
  }

  /** node_clear_indexes for every node. */
  function AllAt(m: map<nat, nat>, v: nat): (r: map<nat, nat>)
    ensures r.Keys == m.Keys && forall id :: id in r ==> r[id] == v
  {
    map id | id in m :: v
  }

  /** The requests of one flush. */
  ghost function Sends(targets: seq<nat>, t: nat, round: nat): seq<Event>
    decreases |targets|
  {
    if targets == [] then [] else Sends(targets[..|targets| - 1], t, round) + [Send(targets[|targets| - 1], t, round)]
  }

  lemma SendsNone(targets: seq<nat>, t: nat, round: nat)
    ensures targets[..0] == [] && Sends([], t, round) == []
  {
  }

  lemma SendsSnoc(targets: seq<nat>, t: nat, round: nat, i: nat)
    requires i < |targets|
    ensures Sends(targets[..i + 1], t, round) == Sends(targets[..i], t, round) + [Send(targets[i], t, round)]
  {
    assert targets[..i + 1][..i] == targets[..i];
  }

  lemma {:induction false} AnswersSnoc(queue: seq<Read>, arrived: seq<nat>, commit: nat, t: nat, n: nat)
    requires |queue| == |arrived| && n < |queue|
    ensures Answers(queue[..n + 1], arrived[..n + 1], commit, t) ==
            Answers(queue[..n], arrived[..n], commit, t) + [Serve(queue[n].client, arrived[n], commit, t)]
    decreases n
  {
    if n > 0 {
      AnswersSnoc(queue[1..], arrived[1..], commit, t, n - 1);
      assert queue[..n + 1][1..] == queue[1..][..n] && arrived[..n + 1][1..] == arrived[1..][..n];
      assert queue[..n][1..] == queue[1..][..n - 1] && arrived[..n][1..] == arrived[1..][..n - 1];
    }
  }

  class Leader {
    const own: nat
    var leader: bool
    var term: nat
    var order: seq<nat>          // the node array, by id
    var matches: map<nat, nat>   // per node: match
    var rounds: map<nat, nat>    // per node: round
    var round: nat
    var roundPrev: nat
    var roundMatch: nat
    var commit: nat
    var lastIndex: nat
    var queue: seq<Read>
    ghost var floor: nat         // the last round sent before this leadership
    ghost var arrived: seq<nat>  // where each waiting request arrived
    ghost var history: seq<Event>

    ghost predicate Counts()
      reads this
    {
      && Lists(order, matches) && order != [] && matches.Keys == rounds.Keys
      && (leader && own in matches ==> matches[own] <= lastIndex)
      && commit <= lastIndex && floor <= roundPrev <= round && (!leader ==> floor == roundPrev)
    }

    ghost predicate Queued()
      reads this
    {
      && (!leader ==> queue == []) && Ordered(queue) && |queue| == |arrived|
      && Bounded(queue, round, lastIndex)
    }

    /** No round above `top` was sent or recorded. */
    ghost predicate Capped(top: nat)
      reads this
    {
      SentUpTo(history, top) && UpTo(rounds, top) && roundMatch <= top
    }

    ghost function Now(): View
      reads this
    {
      View(rounds, roundMatch, queue, arrived, own, floor, term)
    }

    ghost predicate Valid()
      reads this
    {
      Counts() && Queued() && Capped(roundPrev) && Story(history, Now())
    }

    /** A process start: nothing sent, nothing waiting. */
    constructor (own: nat, order: seq<nat>, lastIndex: nat, commit: nat, term: nat)
      requires order != [] && (forall i, j :: 0 <= i < j < |order| ==> order[i] != order[j]) && commit <= lastIndex
      ensures Valid() && !leader && history == [] && this.own == own && this.order == order && this.term == term
      ensures this.lastIndex == lastIndex && this.commit == commit && round == roundPrev == roundMatch == 0
      ensures forall id :: id in order ==> id in rounds && rounds[id] == 0
    {
      this.own, this.order, this.lastIndex, this.commit, this.term := own, order, lastIndex, commit, term;
      matches, rounds := map id | id in order :: 0, map id | id in order :: 0;
      leader, round, roundPrev, roundMatch, floor := false, 0, 0, 0, 0;
      queue, arrived, history := [], [], [];
      new;
      ListsAll(order, matches.Keys);
      assert |matches| == |matches.Keys|;
    }

    /** The readonly branch of server_on_client_recv. */
    method OnRead(client: nat)
      requires Valid() && leader
      modifies this`round, this`queue, this`arrived, this`history
      ensures Valid() && history == old(history) + [Arrive(client, lastIndex, term)]
      ensures queue == old(queue) + [Read(client, round, lastIndex)] && arrived == old(arrived) + [|old(history)|]
      ensures roundPrev < round <= old(round) + 1 && (old(round) > roundPrev ==> round == old(round))
    {
      hide Answered, Backed, Linearizable, Lists;
      if roundPrev == round {
        round := round + 1;
      }
      StoryGrows(history, Arrive(client, lastIndex, term), Now());
      arrived := arrived + [|history|];
      history := history + [Arrive(client, lastIndex, term)];
      queue := queue + [Read(client, round, lastIndex)];
    }

    /** server_create_entry: the log grows. */
    method Append(count: nat)
      requires Valid()
      modifies this`lastIndex
      ensures Valid() && lastIndex == old(lastIndex) + count
    {
      lastIndex := lastIndex + count;
    }

    /** server_on_append_resp, `t` being the term in the response and `sent` that of the request. A node
        that accepts a request does so in the request's term, whatever term its answer carries, and
        echoes its round. */
    method OnAppendResp(id: nat, t: nat, r: nat, index: nat, success: bool, ghost sent: nat)
      requires Valid() && id in rounds && id != own
      requires success ==> Send(id, sent, r) in history
      modifies this`leader, this`term, this`floor, this`matches, this`rounds, this`queue, this`arrived, this`history
      ensures Valid()
      ensures matches == (if old(leader) then old(matches)[id := index] else old(matches))
      ensures rounds == (if old(leader) && success then old(rounds)[id := r] else old(rounds))
      ensures history == (if old(leader) && success then old(history) + [Ack(id, sent, r)] else old(history))
      ensures if old(leader) && !success && t > old(term) then !leader && term == t && queue == []
              else leader == old(leader) && term == old(term) && queue == old(queue)
    {
      hide Story, Capped, Lists, Ordered;
      if !leader {
        return;
      }
      if success {
        Past();
        NoteAck(id, r, sent, sent);
      } else if t > term {
        StepDown(t);
      }
      SetMatch(id, index);
    }

    method SetMatch(id: nat, index: nat)
      requires Valid() && id in rounds && id != own
      modifies this`matches
      ensures Valid() && matches == old(matches)[id := index]
    {
      hide Story;
      matches := matches[id := index];
      assert matches.Keys == old(matches.Keys);
    }

    /** The answer to a request that was sent in term `sent` is recorded. */
    method NoteAck(id: nat, r: nat, ghost t: nat, ghost sent: nat)
      requires Valid() && id in rounds && id != own && Send(id, sent, r) in history && sent <= t <= term
      modifies this`rounds, this`history
      ensures Valid() && rounds == old(rounds)[id := r] && history == old(history) + [Ack(id, t, r)]
    {
      hide Answered, Backed, Linearizable, Lists, AllWaiting;
      StoryGrows(history, Ack(id, t, r), Now());
      AckAnswers(history, id, sent, t, r, floor, term);
      rounds := rounds[id := r];
      history := history + [Ack(id, t, r)];
      assert rounds.Keys == old(rounds.Keys);
    }

    /** server_on_snapshot_resp, which does not look at the role. A refusal also echoes the round; it
        comes with a higher term and ends the leadership. */
    method OnSnapshotResp(id: nat, t: nat, r: nat, ghost sent: nat)
      requires Valid() && id in rounds && id != own && Send(id, sent, r) in history && sent <= t
      modifies this`leader, this`term, this`floor, this`rounds, this`queue, this`arrived, this`history
      ensures Valid() && rounds == old(rounds)[id := r] && history == old(history) + [Ack(id, t, r)]
      ensures if t > old(term) then !leader && term == t && queue == []
              else leader == old(leader) && term == old(term) && queue == old(queue)
    {
      hide Story, Lists, Capped, Ordered;
      if t > term {
        NoteRefusal(id, t, r, sent);
      } else {
        NoteAck(id, r, t, sent);
      }
    }

    /** The round of a refusal is recorded on the way out of the leadership. */
    method NoteRefusal(id: nat, t: nat, r: nat, ghost sent: nat)
      requires Valid() && id in rounds && id != own && Send(id, sent, r) in history && term < t
      modifies this`leader, this`term, this`floor, this`rounds, this`queue, this`arrived, this`history
      ensures Valid() && rounds == old(rounds)[id := r] && history == old(history) + [Ack(id, t, r)]
      ensures !leader && term == t && queue == []
    {
      hide Story, Lists, Linearizable, SentUpTo, SentBy, UpTo;
      Past();
      ghost var v := View(rounds, roundMatch, [], [], own, roundPrev, term);
      RefusalIdle(history, id, t, r, sent, v);
      rounds := rounds[id := r];
      history := history + [Ack(id, t, r)];
      assert rounds.Keys == old(rounds.Keys);
      leader, term, floor, queue, arrived := false, t, roundPrev, [], [];
    }

    lemma Past()
      requires Valid()
      ensures Linearizable(history, rounds.Keys, own)
      ensures SentBy(history, term)
    {
    }

    /** node_clear_indexes when a connection goes. */
    method OnDisconnect(id: nat)
      requires Valid() && id in rounds
      modifies this`rounds
      ensures Valid() && rounds == old(rounds)[id := 0]
    {
      hide Answered, Backed, Linearizable, Lists;
      rounds := rounds[id := 0];
      assert rounds.Keys == old(rounds.Keys);
    }

    /** A client goes away while its request waits. */
    method OnClientGone(i: nat)
      requires Valid() && i < |queue|
      modifies this`queue, this`arrived
      ensures Valid() && queue == old(queue)[..i] + old(queue)[i + 1..]
    {
      hide Backed, Linearizable, Lists, AllAcked, Waiting, SentUpTo, UpTo, SentIn;
      queue, arrived := queue[..i] + queue[i + 1..], arrived[..i] + arrived[i + 1..];
    }

    /** server_on_election_timeout on a leader that lacks a quorum: ask again. */
    method OnElectionTimeout()
      requires Valid()
      modifies this`round
      ensures Valid() && round == old(round) + 1
    {
      hide Story;
      round := round + 1;
    }

    /** server_become_follower: every client is let go and the term is taken over. */
    method StepDown(t: nat)
      requires Valid() && term <= t
      modifies this`leader, this`term, this`floor, this`queue, this`arrived
      ensures Valid() && !leader && term == t && queue == []
    {
      hide Story, Lists, Linearizable;
      Past();
      leader, term, floor, queue, arrived := false, t, roundPrev, [], [];
      StoryIdle(history, Now());
    }

    /** As a follower the log may be replaced down to the commit index. */
    method OnFollowerLog(last: nat)
      requires Valid() && !leader && commit <= last
      modifies this`lastIndex
      ensures Valid() && lastIndex == last
    {
      hide Story;
      lastIndex := last;
    }

    /** server_become_leader after an election in term `t`: every record starts over at the end of the
        log. */
    method BecomeLeader(t: nat)
      requires Valid() && !leader && term <= t
      modifies this`leader, this`term, this`matches, this`rounds
      ensures Valid() && leader && term == t
      ensures matches == AllAt(old(matches), lastIndex) && rounds == AllAt(old(rounds), 0)
    {
      hide Story, Linearizable, Ordered, Bounded, SentUpTo, Lists, AllAt;
      Past();
      leader, term := true, t;
      matches := AllAt(matches, lastIndex);
      rounds := AllAt(rounds, 0);
      ListsKeys(order, old(matches), matches);
      StoryIdle(history, Now());
    }

    /** The state in the middle of a flush: this round may have been sent. */
    ghost predicate Flushing()
      reads this
    {
      Counts() && Queued() && leader && Capped(round) && Story(history, Now())
    }

    /** server_flush: send to some nodes, look for progress, and close the round. `applied` is what the
        state machine reports for newly committed entries; when it fails no request is answered. */
    method Flush(targets: seq<nat>, applied: bool) returns (ok: bool)
      requires Valid() && leader
      modifies this`order, this`matches, this`rounds, this`roundPrev, this`roundMatch, this`commit
      modifies this`queue, this`arrived, this`history
      ensures ok ==> Valid() && roundPrev == round
      ensures ok ==> Progressed(old(matches), old(commit), old(roundMatch), old(queue), old(arrived))
      ensures ok ==> var n := |old(queue)| - |queue|;
                     && 0 <= n <= |old(arrived)|
                     && history == old(history) + Sends(targets, term, round)
                                   + Answers(old(queue)[..n], old(arrived)[..n], commit, term)
      ensures !ok ==> Flushing() && !applied && commit == old(commit) && queue == old(queue)
      ensures !ok ==> history == old(history) + Sends(targets, term, round)
    {
      hide Story, Lists, Ordered, Bounded, NoneReady, Chosen, Reached, AllReady, Answers, Sends, Held, Prompt;
      var i := 0;
      SendsNone(targets, term, round);
      while i < |targets|
        modifies this`history
        invariant i <= |targets| && Flushing() && history == old(history) + Sends(targets[..i], term, round)
      {
        SendTo(targets[i]);
        SendsSnoc(targets, term, round, i);
        i := i + 1;
      }
      assert targets[..i] == targets;
      ok := CheckCommit(applied);
      if ok {
        roundPrev := round;
      }
    }

    /** What server_check_commit achieves: the commit index of a majority, the round of a majority,
        and answers to exactly the ready requests at the front of the list. */
    ghost predicate Progressed(matches0: map<nat, nat>, commit0: nat, roundMatch0: nat, queue0: seq<Read>,
        arrived0: seq<nat>)
      reads this
    {
      && commit0 <= commit <= lastIndex && (commit > commit0 ==> Held(matches0, own, commit))
      && (forall x: nat :: commit < x <= lastIndex ==> !Held(matches0, own, x))
      && (exists v :: Chosen(matches0, own, lastIndex, v)
                      && matches == if Reached(matches0, v) then matches0 else matches0[own := lastIndex])
      && (if queue0 == [] then roundMatch == roundMatch0
          else exists r: nat :: Reached(rounds, r) && roundMatch == if roundMatch0 < r then r else roundMatch0)
      && |queue| <= |queue0| == |arrived0|
      && queue == queue0[|queue0| - |queue|..] && AllReady(queue0[..|queue0| - |queue|], roundMatch, commit)
      && (queue != [] ==> queue[0].round > roundMatch || queue[0].commit > commit)
      && NoneReady(queue, roundMatch, commit)
      && Prompt(queue0, |queue0| - |queue|, rounds, commit)
    }

    /** A request of the current round goes out. */
    method SendTo(id: nat)
      requires Flushing()
      modifies this`history
      ensures Flushing() && history == old(history) + [Send(id, term, round)]
    {
      hide Story, Lists, Ordered;
      StoryGrows(history, Send(id, term, round), Now());
      history := history + [Send(id, term, round)];
    }

    /** server_check_commit. */
    method CheckCommit(applied: bool) returns (ok: bool)
      requires Flushing()
      modifies this`order, this`matches, this`rounds, this`roundMatch, this`commit
      modifies this`queue, this`arrived, this`history
      ensures Flushing()
      ensures ok ==> Progressed(old(matches), old(commit), old(roundMatch), old(queue), old(arrived))
      ensures ok ==> var n := |old(queue)| - |queue|;
                     && 0 <= n <= |old(arrived)|
                     && history == old(history) + Answers(old(queue)[..n], old(arrived)[..n], commit, term)
      ensures !ok ==> !applied && unchanged(`commit, `queue, `arrived, `roundMatch, `history)
      ensures rounds == if own in old(rounds) then old(rounds)[own := round] else old(rounds)
    {
      hide Flushing, Chosen, Reached, NoneReady, AllReady, Answers, Held, Prompt;
      OwnRound();
      ghost var v;
      ok, v := AdvanceCommit(applied);
      if ok {
        ServeReads();
      }
    }

    /** The read half of server_check_commit. */
    method ServeReads()
      requires Flushing()
      modifies this`order, this`roundMatch, this`queue, this`arrived, this`history
      ensures Flushing() && NoneReady(queue, roundMatch, commit)
      ensures queue != [] ==> queue[0].round > roundMatch || queue[0].commit > commit
      ensures if old(queue) == [] then roundMatch == old(roundMatch)
              else exists r: nat ::
                     Reached(rounds, r) && roundMatch == if old(roundMatch) < r then r else old(roundMatch)
      ensures Prompt(old(queue), |old(queue)| - |queue|, rounds, commit)
      ensures var n := |old(queue)| - |queue|;
              && 0 <= n <= |old(queue)| == |old(arrived)|
              && queue == old(queue)[n..] && AllReady(old(queue)[..n], roundMatch, commit)
              && history == old(history) + Answers(old(queue)[..n], old(arrived)[..n], commit, term)
    {
      hide Story, Reached, Lists, Ordered, Capped, Bounded, NoneReady, AllReady, Answers, Prompt;
      if queue == [] {
        FirstDecides(queue, roundMatch, commit);
        NoAnswers(queue, arrived, commit, roundMatch, term);
        NonePrompt(rounds, commit);
        return;
      }
      var r := MatchRounds();
      ServeReady();
      AllPrompt(old(queue), |old(queue)| - |queue|, rounds, r, roundMatch, commit);
    }

    /** The commit half of server_check_commit. It fails when newly committed entries do not apply. */
    method AdvanceCommit(applied: bool) returns (ok: bool, ghost v: nat)
      requires Flushing()
      modifies this`order, this`matches, this`commit
      ensures Flushing() && Chosen(old(matches), own, lastIndex, v)
      ensures ok <==> applied || v <= old(commit) || old(commit) == lastIndex
      ensures !ok ==> commit == old(commit)
      ensures old(commit) <= commit <= lastIndex && (commit > old(commit) ==> Held(old(matches), own, commit))
      ensures ok ==> forall x: nat :: commit < x <= lastIndex ==> !Held(old(matches), own, x)
      ensures matches == if Reached(old(matches), v) then old(matches) else old(matches)[own := lastIndex]
    {
      hide Story, Chosen, Reached, Lists, Ordered, SentUpTo, Bounded, Held;
      var match_;
      match_, matches, order := Choose(matches, own, lastIndex, order);
      v := match_;
      forall x: nat | x <= lastIndex
        ensures x <= v <==> Held(old(matches), own, x)
      {
        ChosenHeld(old(matches), own, lastIndex, v, x);
      }
      ok := true;
      if match_ > commit {
        var min := if match_ < lastIndex then match_ else lastIndex;
        if min > commit && !applied {
          return false, v;
        }
        commit := min;
      }
    }

    /** The leader takes part in its own round. */
    method OwnRound()
      requires Flushing()
      modifies this`rounds
      ensures Flushing() && rounds == if own in old(rounds) then old(rounds)[own := round] else old(rounds)
    {
      hide Answered, Backed, Linearizable, Lists, AllWaiting;
      if own in rounds {
        rounds := rounds[own := round];
        assert rounds.Keys == old(rounds.Keys);
      }
    }

    /** The round a majority has reached; it never goes back. */
    method MatchRounds() returns (v: nat)
      requires Flushing()
      modifies this`order, this`roundMatch
      ensures Flushing() && Reached(rounds, v)
      ensures roundMatch == if old(roundMatch) < v then v else old(roundMatch)
    {
      hide Answered, Backed, Linearizable, AllWaiting, AllAcked, Reached, Descending;
      order := Sort(rounds, order);
      Middle(order, rounds);
      v := Of(rounds, order[|order| / 2]);
      if v > roundMatch {
        if v > floor {
          MiddleBacks(history, rounds, v, floor, own, term);
        }
        roundMatch := v;
      }
    }

    /** The serving loop: the list is ordered, so stopping at the first request that is not ready
        passes over no ready one. */
    method ServeReady()
      requires Flushing()
      modifies this`queue, this`arrived, this`history
      ensures Flushing()
      ensures queue != [] ==> queue[0].round > roundMatch || queue[0].commit > commit
      ensures NoneReady(queue, roundMatch, commit)
      ensures var n := |old(queue)| - |queue|;
              && 0 <= n && queue == old(queue)[n..] && AllReady(old(queue)[..n], roundMatch, commit)
              && history == old(history) + Answers(old(queue)[..n], old(arrived)[..n], commit, term)
    {
      hide Story, Lists, Ordered, Bounded, NoneReady, AllReady, Answers;
      ghost var n := 0;
      NoAnswers(queue, arrived, commit, roundMatch, term);
      while queue != [] && !(queue[0].round > roundMatch || queue[0].commit > commit)
        invariant Flushing() && n <= |old(queue)| && |old(arrived)| == |old(queue)|
        invariant queue == old(queue)[n..] && arrived == old(arrived)[n..]
        invariant AllReady(old(queue)[..n], roundMatch, commit)
        invariant history == old(history) + Answers(old(queue)[..n], old(arrived)[..n], commit, term)
        decreases |queue|
      {
        StoryServes(history, commit, Now());
        ReadySnoc(old(queue), n, roundMatch, commit);
        AnswersSnoc(old(queue), old(arrived), commit, term, n);
        QueueTail(queue, round, lastIndex);
        history := history + [Serve(queue[0].client, arrived[0], commit, term)];
        queue, arrived, n := queue[1..], arrived[1..], n + 1;
      }
      FirstDecides(queue, roundMatch, commit);
    }
  }

  /** An answer to a request of this term, given in this term. */
  lemma AckAnswers(h: seq<Event>, id: nat, sent: nat, t: nat, r: nat, floor: nat, now: nat)
    requires Send(id, sent, r) in h && sent <= t <= now && SentIn(h, floor, now)
    ensures r > floor ==> Answered(h + [Ack(id, t, r)], id, r, now)
  {
    if r > floor {
      var s :| 0 <= s < |h| && h[s] == Send(id, sent, r);
      var h' := h + [Ack(id, t, r)];
      assert Trip(h', s, |h|, id, now);
    }
  }
}
