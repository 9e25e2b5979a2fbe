/** Exactly-once execution (src/state.c): every session remembers the number and the response of its
    last request, and a request that repeats the number is answered from memory.

    `trace` records the client requests the state machine was given; the code keeps no such list. */
module Sessions {
  import opened Entry

  /** A request as the log gave it: which session, which number, what was answered and whether it ran. */
  datatype Event = Event(id: nat, num: nat, index: nat, req: seq<byte>, resp: seq<byte>, ran: bool)

  /** The number and the response a session remembers after a trace; a new session remembers number
      zero and an empty response. */
  ghost function LastNum(trace: seq<Event>, id: nat): nat {
    if trace == [] then 0
    else if trace[|trace| - 1].id == id then trace[|trace| - 1].num
    else LastNum(trace[..|trace| - 1], id)
  }

  ghost function LastResp(trace: seq<Event>, id: nat): seq<byte> {
    if trace == [] then []
    else if trace[|trace| - 1].id == id then trace[|trace| - 1].resp
    else LastResp(trace[..|trace| - 1], id)
  }

  /** The database after the requests that ran, in order. */
  ghost function Db<D>(exec: (D, nat, nat, seq<byte>) -> (D, seq<byte>), db: D, trace: seq<Event>): D {
    if trace == [] then db
    else
      var before, e := Db(exec, db, trace[..|trace| - 1]), trace[|trace| - 1];
      if e.ran then exec(before, e.id, e.index, e.req).0 else before
  }

  /** The event follows from what came before it. */
  ghost predicate Follows<D>(exec: (D, nat, nat, seq<byte>) -> (D, seq<byte>), db: D, before: seq<Event>, e: Event) {
    && (e.ran <==> e.num != LastNum(before, e.id))
    && e.resp == if e.ran then exec(Db(exec, db, before), e.id, e.index, e.req).1 else LastResp(before, e.id)
  }

  ghost predicate Told<D>(exec: (D, nat, nat, seq<byte>) -> (D, seq<byte>), db: D, trace: seq<Event>) {
    forall i :: 0 <= i < |trace| ==> Follows(exec, db, trace[..i], trace[i])
  }

  lemma ToldSnoc<D>(exec: (D, nat, nat, seq<byte>) -> (D, seq<byte>), db: D, trace: seq<Event>, e: Event)
    requires Told(exec, db, trace) && Follows(exec, db, trace, e)
    ensures Told(exec, db, trace + [e])
  {
    var t := trace + [e];
    forall i | 0 <= i < |t|
      ensures Follows(exec, db, t[..i], t[i])
    {
      assert t[..i] == trace[..i];
      if i == |trace| {
        assert t[..i] == trace;
      }
    }
  }

  // Exactly once, for one session

  ghost predicate Same(a: Event, b: Event) {
    a.id == b.id && a.num == b.num
  }

  /** Each number of the session ran once, at its first appearance, and repeats got that response. */
  ghost predicate Once(trace: seq<Event>, id: nat) {
    && (forall i :: 0 <= i < |trace| && trace[i].id == id ==>
          (trace[i].ran <==> forall j :: 0 <= j < i ==> !Same(trace[j], trace[i])))
    && (forall i, j :: 0 <= j < i < |trace| && trace[i].id == id && Same(trace[j], trace[i]) ==>
        trace[j].resp == trace[i].resp)
  }

  /** The session's numbers never return once left, and do not start at zero. */
  ghost predicate Runs(trace: seq<Event>, id: nat) {
    && (forall i, j, k :: 0 <= i < j < k < |trace| && trace[i].id == trace[j].id == id && Same(trace[i], trace[k]) ==>
          trace[j].num == trace[i].num)
    && (forall i :: 0 <= i < |trace| && trace[i].id == id && trace[i].num == 0 ==>
        exists j :: 0 <= j < i && trace[j].id == id)
  }

  /** The session's previous request, if there is one. */
  lemma {:induction false} Previous(trace: seq<Event>, n: nat, id: nat) returns (p: int)
    requires n <= |trace|
    ensures -1 <= p < n && (forall j :: p < j < n ==> trace[j].id != id)
    ensures p == -1 ==> LastNum(trace[..n], id) == 0 && LastResp(trace[..n], id) == []
    ensures p >= 0 ==>
              trace[p].id == id && LastNum(trace[..n], id) == trace[p].num && LastResp(trace[..n], id) == trace[p].resp
  {
    if n == 0 {
      p := -1;
    } else if trace[n - 1].id == id {
      p := n - 1;
    } else {
      p := Previous(trace, n - 1, id);
      assert trace[..n][..n - 1] == trace[..n - 1];
    }
  }

  /** A request runs exactly when it is its number's first appearance. */
  lemma RunsFirst<D>(exec: (D, nat, nat, seq<byte>) -> (D, seq<byte>), db: D, trace: seq<Event>, id: nat, i: nat)
    requires Told(exec, db, trace) && Runs(trace, id) && i < |trace| && trace[i].id == id
    ensures trace[i].ran <==> forall j :: 0 <= j < i ==> !Same(trace[j], trace[i])
  {
    hide LastNum, LastResp, Db, Told;
    var p := Previous(trace, i, id);
    assert Follows(exec, db, trace[..i], trace[i]) by {
      ToldAt(exec, db, trace, i);
    }
    if p >= 0 && trace[p].num == trace[i].num {
      assert Same(trace[p], trace[i]);
    } else {
      forall j | 0 <= j < i
        ensures !Same(trace[j], trace[i])
      {
        assert j < p ==> !Same(trace[j], trace[i]);
      }
    }
  }

  lemma ToldAt<D>(exec: (D, nat, nat, seq<byte>) -> (D, seq<byte>), db: D, trace: seq<Event>, i: nat)
    requires Told(exec, db, trace) && i < |trace|
    ensures Follows(exec, db, trace[..i], trace[i])
  {
  }

  /** A repeat is answered with the bytes of the first answer. */
  lemma {:induction false} RepeatAnswer<D>(exec: (D, nat, nat, seq<byte>) -> (D, seq<byte>), db: D, trace: seq<Event>,
      id: nat, j: nat, i: nat)
    requires Told(exec, db, trace) && Runs(trace, id) && j < i < |trace| && trace[i].id == id
              && Same(trace[j], trace[i])
    ensures trace[j].resp == trace[i].resp
    decreases i
  {
    hide LastNum, LastResp, Db, Told;
    RunsFirst(exec, db, trace, id, i);
    ToldAt(exec, db, trace, i);
    var p := Previous(trace, i, id);
    assert j <= p;
    if j < p {
      assert Same(trace[j], trace[p]);
      RepeatAnswer(exec, db, trace, id, j, p);
    }
  }

  lemma OnceRepeat(trace: seq<Event>, id: nat, i: nat, k: nat)
    requires Once(trace, id) && i < k < |trace| && trace[k].id == id && Same(trace[i], trace[k])
    ensures !trace[k].ran
  {
  }

  /** A number that comes back after another one runs again. */
  lemma {:induction false} NoReturn<D>(exec: (D, nat, nat, seq<byte>) -> (D, seq<byte>), db: D, trace: seq<Event>,
      id: nat, i: nat, j: nat, k: nat)
    requires Told(exec, db, trace) && Once(trace, id)
    requires i < j < k < |trace| && trace[i].id == trace[j].id == id && Same(trace[i], trace[k])
    ensures trace[j].num == trace[i].num
    decreases k
  {
    hide LastNum, LastResp, Db, Told, Once;
    assert !trace[k].ran by {
      OnceRepeat(trace, id, i, k);
    }
    ToldAt(exec, db, trace, k);
    var p := Previous(trace, k, id);
    if j < p {
      NoReturn(exec, db, trace, id, i, j, p);
    }
  }

  /** Exactly once holds of a session if and only if its numbers form runs that do not start at zero. */
  lemma ExactlyOnce<D>(exec: (D, nat, nat, seq<byte>) -> (D, seq<byte>), db: D, trace: seq<Event>, id: nat)
    requires Told(exec, db, trace)
    ensures Once(trace, id) <==> Runs(trace, id)
  {
    hide LastNum, LastResp, Db, Told, Same;
    if Runs(trace, id) {
      forall i | 0 <= i < |trace| && trace[i].id == id
        ensures trace[i].ran <==> forall j :: 0 <= j < i ==> !Same(trace[j], trace[i])
      {
        RunsFirst(exec, db, trace, id, i);
      }
      forall i, j | 0 <= j < i < |trace| && trace[i].id == id && Same(trace[j], trace[i])
        ensures trace[j].resp == trace[i].resp
      {
        RepeatAnswer(exec, db, trace, id, j, i);
      }
    }
    if Once(trace, id) {
      forall i, j, k | 0 <= i < j < k < |trace| && trace[j].id == id && Same(trace[i], trace[k]) && trace[i].id == id
        ensures trace[j].num == trace[i].num
      {
        NoReturn(exec, db, trace, id, i, j, k);
      }
      forall i | 0 <= i < |trace| && trace[i].id == id && trace[i].num == 0
        ensures exists j :: 0 <= j < i && trace[j].id == id
      {
        StartsAboveZero(exec, db, trace, id, i);
      }
    }
  }

  lemma StartsAboveZero<D>(exec: (D, nat, nat, seq<byte>) -> (D, seq<byte>), db: D, trace: seq<Event>, id: nat, i: nat)
    requires Told(exec, db, trace) && Once(trace, id) && i < |trace| && trace[i].id == id && trace[i].num == 0
    ensures exists j :: 0 <= j < i && trace[j].id == id
  {
    hide LastNum, LastResp, Db, Told;
    ToldAt(exec, db, trace, i);
    var p := Previous(trace, i, id);
    if p >= 0 {
      assert trace[p].id == id;
    }
  }

  /** Numbers that never go back and start above zero form such runs. */
  lemma RisingRuns(trace: seq<Event>, id: nat)
    requires forall i, j :: 0 <= i < j < |trace| && trace[i].id == trace[j].id == id ==> trace[i].num <= trace[j].num
    requires forall i :: 0 <= i < |trace| && trace[i].id == id ==> trace[i].num > 0
    ensures Runs(trace, id)
  {
  }

  /** Without that it fails: a session that goes back to number 1 after 2 runs it twice. */
  lemma GoingBackRunsTwice<D>(exec: (D, nat, nat, seq<byte>) -> (D, seq<byte>), db: D, req: seq<byte>)
    ensures exists trace: seq<Event> :: Told(exec, db, trace) && |trace| == 3 && trace[0].num == trace[2].num == 1
              && trace[0].ran && trace[2].ran
  {
    var a := Event(1, 1, 2, req, exec(db, 1, 2, req).1, true);
    var db1 := exec(db, 1, 2, req).0;
    var b := Event(1, 2, 3, req, exec(db1, 1, 3, req).1, true);
    var db2 := exec(db1, 1, 3, req).0;
    var c := Event(1, 1, 4, req, exec(db2, 1, 4, req).1, true);
    assert [a, b][..1] == [a] && [a][..0] == [];
    assert Db(exec, db, []) == db && Db(exec, db, [a]) == db1 && Db(exec, db, [a, b]) == db2;
    ToldSnoc(exec, db, [], a);
    assert [] + [a] == [a];
    ToldSnoc(exec, db, [a], b);
    assert [a] + [b] == [a, b];
    ToldSnoc(exec, db, [a, b], c);
    assert [a, b] + [c] == [a, b, c];
  }

  class Session {
    const name: string
    const id: nat
    var seq_: nat
    var resp: seq<byte>
    var disconnectTime: nat

    /** session_create. */
    constructor (name: string, id: nat)
      ensures this.name == name && this.id == id && seq_ == 0 && resp == [] && disconnectTime == 0
    {
      this.name, this.id, seq_, resp, disconnectTime := name, id, 0, [], 0;
    }
  }

  datatype Cmd =
    | Connect(name: string)
    | Disconnect(name: string, clean: bool)
    | Request(id: nat, num: nat, req: seq<byte>)
    | Timestamp(monotonic: nat)
    | TermStart(monotonic: nat)
    | Other

  const SESSION_TIMEOUT := 60000

  /** Both tables hold the same sessions, each under its own name and its own id. */
  ghost predicate Paired(names: map<string, Session>, ids: map<nat, Session>, index: nat) {
    && (forall name :: name in names ==>
        names[name].name == name && names[name].id in ids && ids[names[name].id] == names[name])
    && (forall id :: id in ids ==> ids[id].id == id <= index && ids[id].name in names && names[ids[id].name] == ids[id])
  }

  lemma PairedAdd(names: map<string, Session>, ids: map<nat, Session>, index: nat, s: Session)
    requires Paired(names, ids, index) && s.name !in names && s.id !in ids && s.id <= index
    ensures Paired(names[s.name := s], ids[s.id := s], index)
  {
  }

  lemma PairedRemove(names: map<string, Session>, ids: map<nat, Session>, index: nat, s: Session)
    requires Paired(names, ids, index) && s.id in ids && ids[s.id] == s
    ensures Paired(names - {s.name}, ids - {s.id}, index)
  {
  }

  class State<D> {
    const exec: (D, nat, nat, seq<byte>) -> (D, seq<byte>)  // SQL execution
    var db: D
    var index: nat
    var timestamp: nat
    var monotonic: nat
    var names: map<string, Session>
    var ids: map<nat, Session>
    var disconnects: seq<Session>
    ghost const start: D
    ghost var trace: seq<Event>

    ghost predicate Live(s: Session)
      reads this
    {
      s.id in ids && ids[s.id] == s
    }

    ghost predicate Tables()
      reads this
    {
      Paired(names, ids, index)
    }

    ghost function Objects(): set<Session>
      reads this
    {
      set id | id in ids :: ids[id]
    }

    /** The disconnected sessions are live sessions, each listed once. */
    ghost predicate Away()
      reads this, Objects()
    {
      Distinct(disconnects) && forall s :: s in disconnects ==> Live(s) && s.disconnectTime <= timestamp
    }

    /** Every live session remembers its last request. */
    ghost predicate Remembers()
      reads this, Objects()
    {
      && (forall id :: id in ids ==> ids[id].seq_ == LastNum(trace, id) && ids[id].resp == LastResp(trace, id))
      && (forall i :: 0 <= i < |trace| ==> trace[i].id <= index)
    }

    ghost predicate Valid()
      reads this, Objects()
    {
      Tables() && Away() && Remembers() && Told(exec, start, trace) && db == Db(exec, start, trace)
    }

    constructor (exec: (D, nat, nat, seq<byte>) -> (D, seq<byte>), db: D)
      ensures Valid() && trace == [] && ids == map[] && names == map[] && disconnects == [] && index == 0
      ensures this.db == db == start && this.exec == exec && timestamp == monotonic == 0
    {
      this.exec, this.db, start := exec, db, db;
      index, timestamp, monotonic := 0, 0, 0;
      names, ids, disconnects, trace := map[], map[], [], [];
    }

    /** state_on_client_request: a number equal to the last one is answered from memory. */
    method OnRequest(id: nat, num: nat, req: seq<byte>) returns (resp: seq<byte>)
      requires Valid() && id in ids
      modifies this`db, this`trace, ids[id]
      ensures Valid()
      ensures var ran := num != old(ids[id].seq_); trace == old(trace) + [Event(id, num, index, req, resp, ran)]
    {
      hide LastNum, LastResp, Db, Told, Paired, Distinct;
      OwnIds();
      var sess := ids[id];
      ghost var ran := num != sess.seq_;
      if num == sess.seq_ {
        resp := sess.resp;
      } else {
        var r := exec(db, id, index, req);
        db, resp := r.0, r.1;
        sess.resp := resp;
        sess.seq_ := num;
      }
      ghost var e := Event(id, num, index, req, resp, ran);
      ToldSnoc(exec, start, trace, e);
      DbSnoc(exec, start, trace, e);
      forall other
        ensures LastNum(trace + [e], other) == if other == id then num else LastNum(trace, other)
        ensures LastResp(trace + [e], other) == if other == id then resp else LastResp(trace, other)
      {
        LastSnoc(trace, e, other);
      }
      trace := trace + [e];
    }

    /** state_on_client_connect: a known name resumes its session, number and response included; a
        new one gets a session whose id is the index of this entry. */
    method OnConnect(name: string) returns (s: Session)
      requires Valid() && index !in ids && (forall i :: 0 <= i < |trace| ==> trace[i].id < index)
      modifies this`names, this`ids, this`disconnects, Objects()
      ensures Valid() && Live(s) && s.name == name && s !in disconnects
      ensures name in old(names) ==> s == old(names)[name] && ids == old(ids) && names == old(names)
      ensures name !in old(names) ==>
                s.id == index && fresh(s) && ids == old(ids)[index := s] && names == old(names)[name := s]
      ensures disconnects == Without(old(disconnects), s) && s.disconnectTime == 0
      ensures Members(disconnects) == Members(old(disconnects)) - {s}
      ensures forall o :: o in old(Objects()) ==>
                o.seq_ == old(o.seq_) && o.resp == old(o.resp) && (o != s ==> unchanged(o))
    {
      if name in names {
        s := names[name];
      } else {
        s := Create(name);
      }
      WithoutMembers(disconnects, s);
      Resume(s);
    }

    method Create(name: string) returns (s: Session)
      requires Valid() && index !in ids && name !in names && (forall i :: 0 <= i < |trace| ==> trace[i].id < index)
      modifies this`names, this`ids
      ensures Valid() && fresh(s) && s.name == name && s.id == index
      ensures names == old(names)[name := s] && ids == old(ids)[index := s]
    {
      hide LastNum, LastResp, Db, Told, Distinct, Paired;
      s := new Session(name, index);
      NewSession(trace, index);
      PairedAdd(names, ids, index, s);
      names, ids := names[name := s], ids[index := s];
    }

    /** session_connected. */
    method Resume(s: Session)
      requires Valid() && Live(s)
      modifies this`disconnects, s`disconnectTime
      ensures Valid() && s !in disconnects && disconnects == Without(old(disconnects), s) && s.disconnectTime == 0
    {
      hide LastNum, LastResp, Db, Told, Distinct, Paired;
      s.disconnectTime := 0;
      WithoutIn(disconnects, s);
      disconnects := Without(disconnects, s);
    }

    /** session_disconnected and the list of those away. */
    method Leave(s: Session)
      requires Valid() && Live(s)
      modifies this`disconnects, s`disconnectTime
      ensures Valid() && disconnects == Without(old(disconnects), s) + [s] && s.disconnectTime == timestamp
    {
      hide LastNum, LastResp, Db, Told, Distinct, Paired;
      s.disconnectTime := timestamp;
      WithoutIn(disconnects, s);
      DistinctSnoc(Without(disconnects, s), s);
      disconnects := Without(disconnects, s) + [s];
    }

    /** A session is forgotten: it leaves both tables and the list. */
    method Forget(s: Session)
      requires Valid() && Live(s)
      modifies this`names, this`ids, this`disconnects
      ensures Valid() && ids == old(ids) - {s.id} && names == old(names) - {s.name}
      ensures disconnects == Without(old(disconnects), s)
    {
      hide LastNum, LastResp, Db, Told, Distinct, Paired;
      WithoutIn(disconnects, s);
      PairedRemove(names, ids, index, s);
      OwnIds();
      names, ids := names - {s.name}, ids - {s.id};
      disconnects := Without(disconnects, s);
    }

    /** state_on_client_disconnect: a clean disconnect forgets the session, another one keeps it for a while. */
    method OnDisconnect(name: string, clean: bool)
      requires Valid()
      modifies this`names, this`ids, this`disconnects, Objects()
      ensures Valid()
      ensures name in old(names) && clean ==> names == old(names) - {name} && ids == old(ids) - {old(names)[name].id}
      ensures !(name in old(names) && clean) ==> names == old(names) && ids == old(ids)
      ensures name in old(names) && !clean ==>
                var s := old(names)[name];
                disconnects == Without(old(disconnects), s) + [s] && s.disconnectTime == timestamp
      ensures name in old(names) && clean ==> Members(disconnects) == Members(old(disconnects)) - {old(names)[name]}
      ensures name in old(names) && !clean ==> Members(disconnects) == Members(old(disconnects)) + {old(names)[name]}
      ensures name !in old(names) ==> disconnects == old(disconnects)
      ensures forall o :: o in old(Objects()) ==>
                o.seq_ == old(o.seq_) && o.resp == old(o.resp) && (o.name != name ==> unchanged(o))
    {
      hide Remembers, Away, Db, Told;
      if name !in names {
        return;
      }
      var s := names[name];
      WithoutMembers(disconnects, s);
      Leave(s);
      if clean {
        WithoutMembers(disconnects, s);
        Forget(s);
      }
    }

    /** The session has been away for more than the timeout. */
    predicate Late(s: Session)
      reads this, s
    {
      timestamp - s.disconnectTime > SESSION_TIMEOUT
    }

    /** state_on_timestamp: exactly the sessions that were away too long are forgotten. */
    method OnTimestamp(mono: nat)
      requires Valid() && monotonic <= mono
      modifies this`timestamp, this`monotonic, this`names, this`ids, this`disconnects
      ensures Valid() && timestamp == old(timestamp) + mono - old(monotonic) && monotonic == mono
      ensures ids == Kept(old(ids), old(disconnects), timestamp)
      ensures forall s :: s in disconnects <==> s in old(disconnects) && !Late(s)
      ensures Members(disconnects) <= Members(old(disconnects))
    {
      Tick(mono);
      Sweep();
    }

    method Tick(mono: nat)
      requires Valid() && monotonic <= mono
      modifies this`timestamp, this`monotonic
      ensures Valid() && timestamp == old(timestamp) + mono - old(monotonic) && monotonic == mono
    {
      hide LastNum, LastResp, Db, Told, Distinct, Paired;
      timestamp := timestamp + (mono - monotonic);
      monotonic := mono;
    }

    lemma OwnIds()
      requires Tables()
      ensures forall id :: id in ids ==> ids[id].id == id <= index
      ensures forall name :: name in names ==> Live(names[name])
    {
    }

    method Sweep()
      requires Valid()
      modifies this`names, this`ids, this`disconnects
      ensures Valid() && ids == Kept(old(ids), old(disconnects), timestamp)
      ensures forall s :: s in disconnects <==> s in old(disconnects) && !Late(s)
    {
      hide Remembers, Db, Told, Tables;
      OwnIds();
      var it, i := disconnects, 0;
      while i < |it|
        modifies this`names, this`ids, this`disconnects
        invariant i <= |it| && Valid()
        invariant ids == Kept(old(ids), it[..i], timestamp)
        invariant forall k :: i <= k < |it| ==> it[k] in disconnects
        invariant forall s :: s in disconnects <==> s in it && !(s in it[..i] && Late(s))
      {
        var s := it[i];
        KeptNext(old(ids), it, i, timestamp);
        if Late(s) {
          WithoutIn(disconnects, s);
          Forget(s);
        }
        i := i + 1;
      }
      assert it[..i] == it;
    }

    /** state_on_term_start: a new leader knows no connection, so every session counts as away. */
    method OnTermStart(mono: nat)
      requires Valid()
      modifies this`monotonic, this`disconnects, Objects()
      ensures Valid() && monotonic == mono && names == old(names) && ids == old(ids)
      ensures forall name :: name in names ==> names[name] in disconnects && names[name].disconnectTime == timestamp
      ensures forall o :: o in old(Objects()) ==> o.seq_ == old(o.seq_) && o.resp == old(o.resp)
    {
      hide Remembers, Away, Db, Told, Paired;
      OwnIds();
      SetClock(mono);
      var todo := names.Keys;
      while todo != {}
        modifies this`disconnects, Objects()
        invariant Valid() && todo <= names.Keys
        invariant forall name :: name in names && name !in todo ==>
                    names[name] in disconnects && names[name].disconnectTime == timestamp
        invariant forall o :: o in old(Objects()) ==> o.seq_ == old(o.seq_) && o.resp == old(o.resp)
      {
        var name :| name in todo;
        WithoutIn(disconnects, names[name]);
        Leave(names[name]);
        todo := todo - {name};
      }
    }

    /** The command can be applied: a request names a live session, time does not run backwards. */
    ghost predicate Applicable(cmd: Cmd)
      reads this
    {
      && (cmd.Request? ==> cmd.id in ids)
      && (cmd.Timestamp? ==> monotonic <= cmd.monotonic)
    }

    /** state_apply. Only client requests touch the database, and each leaves its mark in the trace. */
    method Apply(index: nat, cmd: Cmd) returns (resp: seq<byte>)
      requires Valid() && index == this.index + 1 && Applicable(cmd)
      modifies this, Objects()
      ensures Valid() && this.index == index
      ensures cmd.Request? ==>
                var ran := cmd.num != old(ids[cmd.id].seq_);
                trace == old(trace) + [Event(cmd.id, cmd.num, index, cmd.req, resp, ran)]
      ensures !cmd.Request? ==> trace == old(trace) && db == old(db)
      ensures cmd.Connect? ==>
                cmd.name in names &&
                if cmd.name in old(names) then names == old(names)
                else names == old(names)[cmd.name := names[cmd.name]] && names[cmd.name].id == index
      ensures cmd.Connect? ==>
                ids == if cmd.name in old(names) then old(ids) else old(ids)[index := names[cmd.name]]
      ensures cmd.Disconnect? ==> names == if cmd.clean then old(names) - {cmd.name} else old(names)
      ensures cmd.Disconnect? ==>
                ids == if cmd.clean && cmd.name in old(names) then old(ids) - {old(names)[cmd.name].id} else old(ids)
      ensures cmd.Timestamp? ==> ids == Kept(old(ids), old(disconnects), timestamp)
      ensures cmd.TermStart? ==> ids == old(ids) && names == old(names)
      ensures cmd.TermStart? ==>
                forall name :: name in names ==> names[name] in disconnects && names[name].disconnectTime == timestamp
      ensures cmd.Request? || cmd.Other? ==> names == old(names) && ids == old(ids)
      ensures cmd.Connect? ==> names[cmd.name] !in disconnects
      ensures cmd.Disconnect? && cmd.name in old(names) ==>
                Members(disconnects) <= Members(old(disconnects)) + {old(names)[cmd.name]}
      ensures !cmd.TermStart? && !(cmd.Disconnect? && cmd.name in old(names)) ==>
                Members(disconnects) <= Members(old(disconnects))
      ensures cmd.Disconnect? && !cmd.clean && cmd.name in old(names) ==>
                names[cmd.name] in disconnects && names[cmd.name].disconnectTime == timestamp
      ensures timestamp == old(timestamp) + if cmd.Timestamp? then cmd.monotonic - old(monotonic) else 0
      ensures monotonic == if cmd.Timestamp? || cmd.TermStart? then cmd.monotonic else old(monotonic)
      ensures cmd.Timestamp? ==> forall o :: o in old(Objects()) ==> o.disconnectTime == old(o.disconnectTime)
      ensures fresh(Objects() - old(Objects()))
    {
      hide Remembers, Away, Db, Told, Tables;
      NextIndex();
      resp := [];
      match cmd {
        case Connect(name) => var s := OnConnect(name);
        case Disconnect(name, clean) => OnDisconnect(name, clean);
        case Request(id, num, req) => resp := OnRequest(id, num, req);
        case Timestamp(mono) => OnTimestamp(mono);
        case TermStart(mono) => OnTermStart(mono);
        case Other =>
      }
    }

    lemma Pairs()
      requires Valid()
      ensures Paired(names, ids, index) && forall i :: 0 <= i < |trace| ==> trace[i].id <= index
    {
    }

    lemma Remembered(id: nat)
      requires Valid() && id in ids
      ensures ids[id].seq_ == LastNum(trace, id)
    {
    }

    method NextIndex()
      requires Valid()
      modifies this`index
      ensures Valid() && index == old(index) + 1 && index !in ids
      ensures forall i :: 0 <= i < |trace| ==> trace[i].id < index
    {
      hide LastNum, LastResp, Db, Told, Distinct;
      index := index + 1;
    }

    method SetClock(mono: nat)
      requires Valid()
      modifies this`monotonic
      ensures Valid() && monotonic == mono
    {
      hide LastNum, LastResp, Db, Told, Distinct, Paired;
      monotonic := mono;
    }
  }

  /** The sessions that stay when those of `away` that are late go. */
  ghost function Kept(ids: map<nat, Session>, away: seq<Session>, timestamp: nat): map<nat, Session>
    reads away
  {
    map id | id in ids && !(ids[id] in away && timestamp - ids[id].disconnectTime > 60000) :: ids[id]
  }

  lemma KeptNext(ids: map<nat, Session>, away: seq<Session>, i: nat, timestamp: nat)
    requires i < |away| && away[i].id in ids && ids[away[i].id] == away[i]
    requires forall id :: id in ids ==> ids[id].id == id
    ensures Kept(ids, away[..i + 1], timestamp)
         == if timestamp - away[i].disconnectTime > 60000 then Kept(ids, away[..i], timestamp) - {away[i].id}
            else Kept(ids, away[..i], timestamp)
  {
    assert away[..i + 1] == away[..i] + [away[i]];
  }

  lemma DistinctSnoc<T>(s: seq<T>, x: T)
    requires Distinct(s) && x !in s
    ensures Distinct(s + [x])
  {
  }

  lemma {:induction false} NewSession(trace: seq<Event>, id: nat)
    requires forall i :: 0 <= i < |trace| ==> trace[i].id < id
    ensures LastNum(trace, id) == 0 && LastResp(trace, id) == []
  {
    if trace != [] {
      NewSession(trace[..|trace| - 1], id);
    }
  }

  /** sc_list_del. */
  function Without<T(==)>(s: seq<T>, x: T): seq<T> {
    if s == [] then [] else if s[0] == x then Without(s[1..], x) else [s[0]] + Without(s[1..], x)
  }

  ghost function Members<T>(s: seq<T>): set<T> {
    set x | x in s
  }

  lemma {:induction false} WithoutMembers<T>(s: seq<T>, x: T)
    ensures Members(Without(s, x)) == Members(s) - {x} && Members(Without(s, x) + [x]) == Members(s) + {x}
  {
    if s == [] {
      assert Members<T>([]) == {} && Members([] + [x]) == {x};
    } else {
      WithoutMembers(s[1..], x);
      assert Members(s) == {s[0]} + Members(s[1..]);
      MembersSnoc(Without(s, x), x);
      if s[0] != x {
        assert Members(Without(s, x)) == {s[0]} + Members(Without(s[1..], x));
      }
    }
  }

  lemma NotAMember<T>(a: seq<T>, b: seq<T>, x: T)
    requires Members(a) <= Members(b) && x !in b
    ensures x !in a
  {
    assert x !in Members(b);
  }

  lemma MembersSnoc<T>(s: seq<T>, x: T)
    ensures Members(s + [x]) == Members(s) + {x}
  {
  }

  ghost predicate Distinct<T>(s: seq<T>) {
    forall i, j :: 0 <= i < j < |s| ==> s[i] != s[j]
  }

  lemma {:induction false} WithoutIn<T>(s: seq<T>, x: T)
    ensures forall y :: y in Without(s, x) <==> y in s && y != x
    ensures Distinct(s) ==> Distinct(Without(s, x))
  {
    if s != [] {
      WithoutIn(s[1..], x);
      if Distinct(s) && s[0] != x {
        assert s[0] !in Without(s[1..], x);
      }
    }
  }

  lemma LastSnoc(trace: seq<Event>, e: Event, id: nat)
    ensures LastNum(trace + [e], id) == if id == e.id then e.num else LastNum(trace, id)
    ensures LastResp(trace + [e], id) == if id == e.id then e.resp else LastResp(trace, id)
  {
    assert (trace + [e])[..|trace|] == trace;
  }

  lemma DbSnoc<D>(exec: (D, nat, nat, seq<byte>) -> (D, seq<byte>), db: D, trace: seq<Event>, e: Event)
    ensures Db(exec, db, trace + [e]) == if e.ran then exec(Db(exec, db, trace), e.id, e.index, e.req).0
              else Db(exec, db, trace)
  {
    assert (trace + [e])[..|trace|] == trace;
  }
}
