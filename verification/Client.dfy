/** The numbering rule of the C client (cresql/resql.c): a new operation takes the next number, a
    retry repeats it, and a reconnect checks it against what the session has seen. It is what makes
    a session of src/state.c run every operation once.

    `log` holds the requests of this client's session in log order and `wire` what the connection
    still carries; neither is part of the client. A connection delivers in order or breaks, and what
    it had not delivered is lost by the time the next connection is answered. */
module Client {
  import opened Entry
  import Sessions

  datatype Sent = Sent(num: nat, req: seq<byte>)

  /** Numbers start above zero and never go back, and one number stands for one request. */
  ghost predicate Steady(log: seq<Sent>) {
    && (forall i :: 0 <= i < |log| ==> log[i].num > 0)
    && (forall i, j :: 0 <= i < j < |log| ==> log[i].num <= log[j].num)
    && (forall i, j :: 0 <= i < j < |log| && log[i].num == log[j].num ==> log[i].req == log[j].req)
  }

  /** What the session answers a connect request with. */
  function Last(log: seq<Sent>): nat {
    if log == [] then 0 else log[|log| - 1].num
  }

  /** The running operation is the only one that may carry its number. */
  ghost predicate Current(log: seq<Sent>, num: nat, req: seq<byte>) {
    forall i :: 0 <= i < |log| && log[i].num == num ==> log[i].req == req
  }

  lemma LastBounds(log: seq<Sent>)
    requires Steady(log)
    ensures forall i :: 0 <= i < |log| ==> log[i].num <= Last(log)
  {
  }

  lemma SteadySnoc(log: seq<Sent>, num: nat, req: seq<byte>)
    requires Steady(log) && Last(log) <= num && num > 0 && Current(log, num, req)
    ensures Steady(log + [Sent(num, req)]) && Current(log + [Sent(num, req)], num, req)
  {
    LastBounds(log);
  }

  class Client {
    var number: nat          // seq
    var connected: bool
    var created: bool        // the request buffer has been set up
    var busy: bool           // a numbered operation is running
    var req: seq<byte>       // its request
    ghost var log: seq<Sent>
    ghost var wire: seq<Sent>

    ghost predicate Valid()
      reads this
    {
      && Steady(log)
      && (created ==> Last(log) <= number)
      && (connected ==> created)
      && (busy ==> created && number > 0 && Current(log, number, req))
      && (wire != [] ==> connected && busy)
      && (forall i :: 0 <= i < |wire| ==> wire[i] == Sent(number, req))
    }

    /** A client that has not connected yet; a session under its name may already exist. */
    constructor (ghost log: seq<Sent>)
      requires Steady(log)
      ensures Valid() && !created && this.log == log && number == 0 && !connected && !busy && wire == []
    {
      number, connected, created, busy, req := 0, false, false, false, [];
      this.log, wire := log, [];
    }

    /** resql_recv_connect_resp: the first connection adopts the session's number, a later one
        requires it to be the running operation's or the one before. */
    method OnConnectResp(seen: nat) returns (ok: bool)
      requires Valid() && !connected && seen == Last(log)
      modifies this
      ensures Valid() && log == old(log) && wire == []
      ensures ok <==> !old(created) || seen == old(number) || seen + 1 == old(number)
      ensures number == if ok && old(created) then old(number) else seen
      ensures created && connected == ok && busy == (ok && old(busy)) && req == old(req)
    {
      hide Steady, Current;
      if !created {
        number := seen;
        created := true;
      } else if seen != number && seen + 1 != number {
        number, busy := seen, false;
        return false;
      }
      connected := true;
      ok := true;
    }

    /** resql_exec with a statement that may write. Its number is new to the session. */
    method Exec(statement: seq<byte>)
      requires Valid() && created && !busy
      modifies this`number, this`busy, this`req
      ensures Valid() && busy && req == statement && number == old(number) + 1
      ensures forall m :: m in log ==> m.num < number
    {
      LastBounds(log);
      number, busy, req := number + 1, true, statement;
    }

    /** The send of resql_send_req. */
    method Send()
      requires Valid() && connected && busy
      modifies this`wire
      ensures Valid() && wire == old(wire) + [Sent(number, req)]
    {
      wire := wire + [Sent(number, req)];
    }

    /** The leader appends the next request of the connection. */
    ghost method Deliver()
      requires Valid() && wire != []
      modifies this`wire, this`log
      ensures Valid() && log == old(log) + [Sent(number, req)] && wire == old(wire)[1..]
    {
      SteadySnoc(log, number, req);
      log, wire := log + [wire[0]], wire[1..];
    }

    /** The response arrived, on a connection that carries nothing else. */
    method OnResponse()
      requires Valid() && connected && busy && wire == []
      modifies this`busy
      ensures Valid() && !busy
    {
      busy := false;
    }

    /** The connection broke. */
    method OnBroken()
      requires Valid()
      modifies this`connected, this`wire
      ensures Valid() && !connected && wire == []
    {
      connected, wire := false, [];
    }

    /** The operation is given up; that happens before it is sent on a connection. */
    method OnTimeout()
      requires Valid() && wire == []
      modifies this`busy
      ensures Valid() && !busy
    {
      busy := false;
    }

    /** The session expired and the name will get a new one. */
    ghost method SessionGone()
      requires Valid() && !connected
      modifies this`log
      ensures Valid() && log == []
    {
      log := [];
    }
  }

  /** The requests of one session in a trace. */
  ghost function Requests(trace: seq<Sessions.Event>, id: nat): seq<Sent> {
    if trace == [] then []
    else
      var e, rest := trace[|trace| - 1], Requests(trace[..|trace| - 1], id);
      if e.id == id then rest + [Sent(e.num, e.req)] else rest
  }

  lemma RequestsSnoc(trace: seq<Sessions.Event>, e: Sessions.Event, id: nat)
    ensures Requests(trace + [e], id) ==
            if e.id == id then Requests(trace, id) + [Sent(e.num, e.req)] else Requests(trace, id)
  {
    assert (trace + [e])[..|trace|] == trace;
  }

  lemma {:induction false} RequestsNone(trace: seq<Sessions.Event>, id: nat)
    requires forall i :: 0 <= i < |trace| ==> trace[i].id < id
    ensures Requests(trace, id) == []
  {
    if trace != [] {
      RequestsNone(trace[..|trace| - 1], id);
    }
  }

  /** What the session remembers is the last number of its requests. */
  lemma {:induction false} LastIsRemembered(trace: seq<Sessions.Event>, id: nat)
    ensures Last(Requests(trace, id)) == Sessions.LastNum(trace, id)
  {
    if trace != [] {
      LastIsRemembered(trace[..|trace| - 1], id);
    }
  }

  lemma {:induction false} RequestsHold(trace: seq<Sessions.Event>, id: nat, i: nat)
    requires i < |trace| && trace[i].id == id
    ensures Sent(trace[i].num, trace[i].req) in Requests(trace, id)
  {
    if i < |trace| - 1 {
      RequestsHold(trace[..|trace| - 1], id, i);
    }
  }

  lemma {:induction false} RequestsOrder(trace: seq<Sessions.Event>, id: nat, i: nat, j: nat)
    requires Steady(Requests(trace, id)) && i < j < |trace| && trace[i].id == trace[j].id == id
    ensures 0 < trace[i].num <= trace[j].num && (trace[i].num == trace[j].num ==> trace[i].req == trace[j].req)
  {
    var init, all := trace[..|trace| - 1], Requests(trace, id);
    RequestsHold(trace, id, i);
    if j == |trace| - 1 {
      RequestsHold(init, id, i);
      var k :| 0 <= k < |Requests(init, id)| && Requests(init, id)[k] == Sent(trace[i].num, trace[i].req);
      assert all[k] == Requests(init, id)[k] && all[|all| - 1] == Sent(trace[j].num, trace[j].req);
    } else {
      assert forall k :: 0 <= k < |Requests(init, id)| ==> Requests(init, id)[k] == all[k];
      RequestsOrder(init, id, i, j);
    }
  }

  /** End to end: a session fed by this client runs every operation once, answers repeats with the
      first response, and never answers one request with the response of another. */
  lemma ClientRunsOnce<D>(exec: (D, nat, nat, seq<byte>) -> (D, seq<byte>), db: D, trace: seq<Sessions.Event>, id: nat)
    requires Sessions.Told(exec, db, trace) && Steady(Requests(trace, id))
    ensures Sessions.Once(trace, id)
    ensures forall i, j :: 0 <= i < j < |trace| && trace[i].id == trace[j].id == id && trace[i].num == trace[j].num ==>
              trace[i].req == trace[j].req
  {
    hide Steady, Sessions.Once, Sessions.Told, Sessions.Runs;
    forall i, j | 0 <= i < j < |trace| && trace[i].id == trace[j].id == id
      ensures trace[i].num <= trace[j].num && (trace[i].num == trace[j].num ==> trace[i].req == trace[j].req)
    {
      RequestsOrder(trace, id, i, j);
    }
    forall i | 0 <= i < |trace| && trace[i].id == id
      ensures trace[i].num > 0
    {
      RequestPositive(trace, id, i);
    }
    Sessions.RisingRuns(trace, id);
    Sessions.ExactlyOnce(exec, db, trace, id);
  }

  lemma RequestPositive(trace: seq<Sessions.Event>, id: nat, i: nat)
    requires Steady(Requests(trace, id)) && i < |trace| && trace[i].id == id
    ensures trace[i].num > 0
  {
    RequestsHold(trace, id, i);
  }
}
