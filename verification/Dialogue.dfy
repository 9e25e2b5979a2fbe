/** A client (cresql/resql.c) and the state machine that serves it (src/state.c), joined by the log:
    the numbers the client is told are the ones the sessions remember, and its requests reach them in
    order. What follows, for every run: within a session every operation runs once, and over all
    sessions of the client an operation runs once unless its number is 1. */
module Dialogue {
  import opened Entry
  import opened Client
  import Sessions

  /** What the client does on its own. */
  datatype Move = Exec(statement: seq<byte>) | Send | Respond | Break | GiveUp

  class Dialogue<D> {
    const name: string
    const client: Client
    const state: Sessions.State<D>
    ghost var id: nat             // the client's last session
    ghost var had: set<nat>       // all its sessions
    ghost var serial: nat         // how many operations the client has started
    ghost var ops: map<nat, nat>  // which operation each of its requests in the trace belongs to
    ghost const start: nat        // where the trace ended when the client started

    /** The client's log is what its session was given, and a connected client's session is not away. */
    ghost predicate Joined()
      reads this`id, this`had, client, state
    {
      && (client.connected ==> name in state.names && state.names[name] !in state.disconnects)
      && (if name in state.names then state.names[name].id == id && id in had && client.log == Requests(state.trace, id)
          else client.log == [])
    }

    /** All sessions of this client got steady numbers, and none of them belongs to another one now. */
    ghost predicate Past()
      reads this`had, state
    {
      && (forall i :: i in had ==> Steady(Requests(state.trace, i)) && i <= state.index)
      && (forall i :: i in had && i in state.ids ==> state.ids[i].name == name)
    }

    ghost predicate Valid()
      reads this, client, state, state.Objects()
    {
      && client.Valid() && state.Valid() && Joined() && Past()
      && Marks(state.trace, ops, serial, had, start)
      && (client.busy ==> Running(state.trace, ops, serial, id, client.number, client.req))
    }

    /** A client starts; a session under its name may already exist. */
    constructor (name: string, state: Sessions.State<D>)
      requires state.Valid()
      requires name in state.names ==> Steady(Requests(state.trace, state.names[name].id))
      ensures Valid() && this.name == name && this.state == state && fresh(client) && !client.created && !client.busy
      ensures !client.connected && ops == map[] && serial == 0
    {
      hide Steady, Requests, Sessions.LastNum, Sessions.LastResp, Sessions.Told, Sessions.Db, Sessions.Distinct;
      this.name, this.state := name, state;
      if name in state.names {
        client := new Client(Requests(state.trace, state.names[name].id));
        id, had := state.names[name].id, {state.names[name].id};
      } else {
        NothingSteady();
        client := new Client([]);
        id, had := 0, {};
      }
      serial, ops, start := 0, map[], |state.trace|;
    }

    /** Within a session every operation runs once, in every session this client had. */
    lemma RunsOnce(i: nat)
      requires Valid() && i in had
      ensures Sessions.Once(state.trace, i)
    {
      hide Steady, Sessions.Once, Marks, Running;
      ClientRunsOnce(state.exec, state.start, state.trace, i);
    }

    /** An operation that ran twice ran in two sessions, and its number was 1. */
    lemma RunsOnceOverall(p: nat, q: nat)
      requires Valid() && p in ops && q in ops && p != q && ops[p] == ops[q]
      ensures p < |state.trace| && q < |state.trace|
      ensures state.trace[p].ran && state.trace[q].ran ==>
                state.trace[p].id != state.trace[q].id && state.trace[p].num == state.trace[q].num == 1
    {
      hide Steady, Running;
      var a, b := state.trace[p], state.trace[q];
      assert SameOperation(a, b);
      if a.id == b.id && a.ran && b.ran {
        RunsOnce(a.id);
        OneRun(state.trace, a.id, p, q);
      }
    }

    /** The connect request goes through the log, and its answer carries the session's number. A running
        operation goes on in the old session, and in a new one if and only if its number is 1. */
    method Connect() returns (ok: bool)
      requires Valid() && !client.connected
      modifies this, client, state, state.Objects()
      ensures Valid() && name in state.names && state.trace == old(state.trace)
      ensures ops == old(ops) && serial == old(serial)
      ensures var seen := Sessions.LastNum(state.trace, id);
              && (ok <==> !old(client.created) || seen == old(client.number) || seen + 1 == old(client.number))
              && client.number == if ok && old(client.created) then old(client.number) else seen
      ensures client.created && client.connected == ok && client.busy == (ok && old(client.busy))
      ensures if name in old(state.names) then id == old(id)
              else id !in old(had) && Sessions.LastNum(state.trace, id) == 0
      ensures name !in old(state.names) && old(client.busy) ==> (client.busy <==> old(client.number) == 1)
      ensures client.req == old(client.req) && fresh(state.Objects() - old(state.Objects()))
    {
      hide Steady, Requests, Sessions.LastNum, Sessions.LastResp, Sessions.Told, Sessions.Db, Sessions.Distinct;
      hide Sessions.Paired, Marks, Running;
      Register();
      if name !in old(state.names) {
        id, had := state.index, had + {state.index};
        NothingSteady();
        NewMarks(state.trace, ops, serial, old(had), start, state.index);
        NewRunning(state.trace, ops, serial, old(id), id, client.number, client.req);
      }
      LastIsRemembered(state.trace, id);
      ok := client.OnConnectResp(state.names[name].seq_);
    }

    /** The connect command is applied: the session is found or made. */
    method Register()
      requires state.Valid() && Past()
      modifies state, state.Objects()
      ensures state.Valid() && Past() && state.trace == old(state.trace)
      ensures fresh(state.Objects() - old(state.Objects()))
      ensures name in state.names && state.names[name] !in state.disconnects
      ensures var s := state.names[name];
              && s.id in state.ids && state.ids[s.id] == s && s.name == name
              && if name in old(state.names) then s == old(state.names)[name]
                 else s.id == state.index && Requests(state.trace, s.id) == []
      ensures name !in old(state.names) ==> forall i :: 0 <= i < |state.trace| ==> state.trace[i].id < state.index
      ensures forall i :: i in had && name !in old(state.names) ==> i < state.index
    {
      hide Steady, Requests, Sessions.State.Valid;
      state.Pairs();
      var resp := state.Apply(state.index + 1, Sessions.Connect(name));
      if name !in old(state.names) {
        RequestsNone(state.trace, state.index);
      }
      state.Pairs();
    }

    /** The next request of the connection is applied. */
    method Deliver() returns (resp: seq<byte>)
      requires Valid() && client.wire != []
      modifies this`ops, client, state, state.Objects()
      ensures Valid() && ops == old(ops)[|old(state.trace)| := serial] && state.Objects() == old(state.Objects())
      ensures client.connected && client.busy && unchanged(client`number, client`created, client`req)
      ensures state.names == old(state.names)
      ensures var e := Sessions.Event(id, client.number, state.index, client.req, resp,
                                      client.number != Sessions.LastNum(old(state.trace), id));
              state.trace == old(state.trace) + [e]
    {
      hide Steady, Requests, Sessions.LastNum, Sessions.LastResp, Sessions.Told, Sessions.Db, Sessions.Distinct;
      hide Marks, Running, Sessions.Paired, Current;
      var num, req := client.number, client.req;
      resp := ApplyOwn(num, req);
      client.Deliver();
      Grown(old(state.trace), state.trace, had);
      MarkNext(old(state.trace), state.trace, ops, serial, had, start, id, num, req);
      ops := ops[|old(state.trace)| := serial];
    }

    /** The request command is applied. */
    method ApplyOwn(num: nat, req: seq<byte>) returns (resp: seq<byte>)
      requires state.Valid() && name in state.names
      modifies state, state.Objects()
      ensures state.Valid() && state.names == old(state.names) && state.ids == old(state.ids)
      ensures state.index == old(state.index) + 1
      ensures var i := state.names[name].id;
              state.trace == old(state.trace) + [Sessions.Event(i, num, state.index, req, resp,
                                                                num != Sessions.LastNum(old(state.trace), i))]
      ensures state.names[name] !in old(state.disconnects) ==> state.names[name] !in state.disconnects
    {
      hide Sessions.State.Valid, Sessions.LastNum;
      state.Pairs();
      state.Remembered(state.names[name].id);
      resp := state.Apply(state.index + 1, Sessions.Request(state.names[name].id, num, req));
      if state.names[name] !in old(state.disconnects) {
        Sessions.NotAMember(state.disconnects, old(state.disconnects), state.names[name]);
      }
    }

    ghost predicate Possible(m: Move)
      reads client
    {
      match m
      case Exec(_) => client.created && !client.busy
      case Send => client.connected && client.busy
      case Respond => client.connected && client.busy && client.wire == []
      case Break => true
      case GiveUp => client.wire == []
    }

    /** The moves of the client leave the log alone, and a new operation gets a number of its own. */
    method Moves(m: Move)
      requires Valid() && Possible(m)
      modifies this`serial, client
      ensures Valid() && client.log == old(client.log) && client.created == old(client.created)
      ensures client.connected == (old(client.connected) && !m.Break?)
      ensures if m.Exec? then client.busy && client.number == old(client.number) + 1 && client.req == m.statement
              else client.number == old(client.number) && client.req == old(client.req)
      ensures m.Send? || m.Break? ==> client.busy == old(client.busy)
      ensures m.Send? ==> client.wire == old(client.wire) + [Sent(client.number, client.req)]
      ensures serial == old(serial) + (if m.Exec? then 1 else 0)
      ensures m.Exec? && name in state.names ==> forall e :: e in Requests(state.trace, id) ==> e.num < client.number
    {
      hide Steady, Requests, Sessions.LastNum, Sessions.LastResp, Sessions.Told, Sessions.Db, Sessions.Distinct;
      hide Sessions.Paired, Past, Current, Marks, Running;
      match m {
        case Exec(statement) =>
          client.Exec(statement);
          MarksLater(state.trace, ops, serial, had, start, id, client.number, client.req);
          serial := serial + 1;
        case Send => client.Send();
        case Respond => client.OnResponse();
        case Break => client.OnBroken();
        case GiveUp => client.OnTimeout();
      }
    }

    /** A command that neither comes from this client nor makes its session. */
    ghost predicate Foreign(cmd: Sessions.Cmd)
      reads this, state
    {
      && state.Applicable(cmd)
      && (cmd.Request? ==> state.ids[cmd.id].name != name)
      && (cmd.Connect? ==> cmd.name != name)
    }

    /** A command that can end this client's session. */
    predicate Ends(cmd: Sessions.Cmd) {
      cmd.TermStart? || (cmd.Disconnect? && cmd.name == name)
    }

    /** Anything else in the log: other clients, the clock, this client's disconnection. */
    method Other(cmd: Sessions.Cmd)
      requires Valid() && Foreign(cmd) && (Ends(cmd) ==> !client.connected)
      modifies client, state, state.Objects()
      ensures Valid() && unchanged(client`number, client`connected, client`created, client`busy, client`req)
      ensures !cmd.Request? ==> state.trace == old(state.trace)
      ensures fresh(state.Objects() - old(state.Objects()))
      ensures cmd == Sessions.Disconnect(name, false) && name in old(state.names) ==>
                name in state.names && state.names[name] in state.disconnects &&
                state.names[name].disconnectTime == state.timestamp
      ensures cmd.Timestamp? ==> state.timestamp == old(state.timestamp) + cmd.monotonic - old(state.monotonic)
      ensures cmd.Timestamp? && name in old(state.names) ==>
                var s := old(state.names)[name];
                (name !in state.names <==>
                   s in old(state.disconnects) &&
                   state.timestamp - old(state.names[name].disconnectTime) > 60000)
    {
      hide Steady, Requests, Sessions.LastNum, Sessions.LastResp, Sessions.Told, Sessions.Db, Sessions.Distinct;
      hide Sessions.Paired, Past, Marks, Running;
      ApplyOther(cmd);
      MarksStay(old(state.trace), state.trace, ops, serial, had, start, id, client.number, client.req);
      if name in old(state.names) && name !in state.names {
        client.SessionGone();
      }
    }

    method ApplyOther(cmd: Sessions.Cmd)
      requires state.Valid() && Past() && Foreign(cmd)
      modifies state, state.Objects()
      ensures state.Valid() && Past()
      ensures name in state.names ==> name in old(state.names) && state.names[name] == old(state.names)[name]
      ensures id in had ==> Requests(state.trace, id) == Requests(old(state.trace), id)
      ensures !cmd.Request? ==> state.trace == old(state.trace)
      ensures Foreigners(old(state.trace), state.trace, had) && fresh(state.Objects() - old(state.Objects()))
      ensures cmd == Sessions.Disconnect(name, false) && name in old(state.names) ==>
                name in state.names && state.names[name] in state.disconnects &&
                state.names[name].disconnectTime == state.timestamp
      ensures cmd.Timestamp? ==> state.timestamp == old(state.timestamp) + cmd.monotonic - old(state.monotonic)
      ensures cmd.Timestamp? && name in old(state.names) ==>
                var s := old(state.names)[name];
                (name !in state.names <==>
                   s in old(state.disconnects) &&
                   state.timestamp - old(state.names[name].disconnectTime) > 60000)
      ensures !Ends(cmd) && old(name in state.names && state.names[name] !in state.disconnects) ==>
                name in state.names && state.names[name] !in state.disconnects
    {
      hide Steady, Requests, Sessions.State.Valid;
      state.Pairs();
      var resp := state.Apply(state.index + 1, cmd);
      state.Pairs();
      if cmd.Request? {
        Grown(old(state.trace), state.trace, had);
      }
      if cmd.Timestamp? && name in old(state.names) {
        var s := old(state.names)[name];
        assert s.id in state.ids <==> !(s in old(state.disconnects) && state.Late(s));
        assert s.disconnectTime == old(state.names[name].disconnectTime);
      }
      if !Ends(cmd) && name in state.names && state.names[name] !in old(state.disconnects) {
        var other := if cmd.Disconnect? && cmd.name in old(state.names) then [old(state.names)[cmd.name]] else [];
        Sessions.NotAMember(state.disconnects, old(state.disconnects) + other, state.names[name]);
      }
    }
  }

  // The client's requests in the trace, and the operations they belong to

  ghost predicate SameOperation(a: Sessions.Event, b: Sessions.Event) {
    a.num == b.num && a.req == b.req && (a.id == b.id || a.num == 1)
  }

  /** Since `start` every request of the client's sessions is marked with its operation, and one
      operation stays in one session unless its number is 1. */
  ghost predicate Marks(trace: seq<Sessions.Event>, ops: map<nat, nat>, serial: nat, had: set<nat>, start: nat) {
    && (forall p :: p in ops ==> p < |trace| && trace[p].id in had && ops[p] <= serial)
    && (forall p: nat :: start <= p < |trace| && trace[p].id in had ==> p in ops)
    && (forall p, q :: p in ops && q in ops && ops[p] == ops[q] ==> SameOperation(trace[p], trace[q]))
  }

  /** What was delivered of the running operation. */
  ghost predicate Running(trace: seq<Sessions.Event>, ops: map<nat, nat>, serial: nat,
                          id: nat, num: nat, req: seq<byte>)
  {
    forall p :: p in ops && p < |trace| && ops[p] == serial ==>
      trace[p].num == num && trace[p].req == req && (trace[p].id == id || num == 1)
  }

  lemma MarksLater(trace: seq<Sessions.Event>, ops: map<nat, nat>, serial: nat, had: set<nat>, start: nat,
                   id: nat, num: nat, req: seq<byte>)
    requires Marks(trace, ops, serial, had, start)
    ensures Marks(trace, ops, serial + 1, had, start) && Running(trace, ops, serial + 1, id, num, req)
  {
  }

  lemma NewMarks(trace: seq<Sessions.Event>, ops: map<nat, nat>, serial: nat, had: set<nat>, start: nat, id: nat)
    requires Marks(trace, ops, serial, had, start) && forall i :: 0 <= i < |trace| ==> trace[i].id < id
    ensures Marks(trace, ops, serial, had + {id}, start)
  {
  }

  lemma NewRunning(trace: seq<Sessions.Event>, ops: map<nat, nat>, serial: nat, id: nat, id': nat,
                   num: nat, req: seq<byte>)
    ensures Running(trace, ops, serial, id, num, req) && num == 1 ==> Running(trace, ops, serial, id', num, req)
  {
  }

  /** The running operation's request is delivered. */
  lemma MarkNext(was: seq<Sessions.Event>, trace: seq<Sessions.Event>, ops: map<nat, nat>, serial: nat, had: set<nat>,
                 start: nat, id: nat, num: nat, req: seq<byte>)
    requires Marks(was, ops, serial, had, start) && Running(was, ops, serial, id, num, req) && id in had
    requires |trace| == |was| + 1 && was == trace[..|was|]
    requires trace[|was|].id == id && trace[|was|].num == num && trace[|was|].req == req
    ensures Marks(trace, ops[|was| := serial], serial, had, start)
    ensures Running(trace, ops[|was| := serial], serial, id, num, req)
  {
    assert forall p :: 0 <= p < |was| ==> trace[p] == was[p];
  }

  /** What was added belongs to other sessions. */
  ghost predicate Foreigners(was: seq<Sessions.Event>, trace: seq<Sessions.Event>, had: set<nat>) {
    was <= trace && forall p :: |was| <= p < |trace| ==> trace[p].id !in had
  }

  lemma MarksStay(was: seq<Sessions.Event>, trace: seq<Sessions.Event>, ops: map<nat, nat>, serial: nat, had: set<nat>,
                  start: nat, id: nat, num: nat, req: seq<byte>)
    requires Marks(was, ops, serial, had, start) && Foreigners(was, trace, had)
    ensures Marks(trace, ops, serial, had, start)
    ensures Running(was, ops, serial, id, num, req) ==> Running(trace, ops, serial, id, num, req)
  {
    assert forall p :: 0 <= p < |was| ==> trace[p] == was[p];
  }

  lemma OneRun(trace: seq<Sessions.Event>, id: nat, p: nat, q: nat)
    requires Sessions.Once(trace, id) && p < |trace| && q < |trace| && p != q
    requires trace[p].id == trace[q].id == id && trace[p].num == trace[q].num
    ensures !(trace[p].ran && trace[q].ran)
  {
    if p < q {
      Sessions.OnceRepeat(trace, id, p, q);
    } else {
      Sessions.OnceRepeat(trace, id, q, p);
    }
  }

  /** One more request changes the requests of its own session only. */
  lemma Grown(was: seq<Sessions.Event>, trace: seq<Sessions.Event>, had: set<nat>)
    requires |trace| == |was| + 1 && was == trace[..|was|]
    ensures var e := trace[|was|];
            forall i :: i in had ==>
              Requests(trace, i) == if e.id == i then Requests(was, i) + [Sent(e.num, e.req)] else Requests(was, i)
  {
    hide Requests;
    var e := trace[|was|];
    assert trace == was + [e];
    forall i | i in had
      ensures Requests(trace, i) == if e.id == i then Requests(was, i) + [Sent(e.num, e.req)] else Requests(was, i)
    {
      RequestsSnoc(was, e, i);
    }
  }

  lemma NothingSteady()
    ensures Steady([])
  {
  }
}
