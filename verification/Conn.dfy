/** A connection's input (src/conn.c, lib/sc/sc_buf.c): bytes arrive in pieces of any size, are
    collected in a buffer that is compacted and grown, and leave it as messages. */
module Conn {
  import Entry
  import opened Image
  import opened Message

  type byte = Entry.byte

  /** What a stream of bytes yields: its messages, the bytes after the last one, and whether it
      turned out invalid, which ends the connection. */
  datatype Out = Out(msgs: seq<Msg>, rest: seq<byte>, bad: bool)

  function ParseAll(data: seq<byte>): Out
    decreases |data|
  {
    match Parse(data)
    case Partial => Out([], data, false)
    case Invalid => Out([], data, true)
    case Ok(m, n) => Then([m], ParseAll(data[n..]))
  }

  /** One more piece of input. */
  function Feed(o: Out, chunk: seq<byte>): Out {
    if o.bad then o
    else Then(o.msgs, ParseAll(o.rest + chunk))
  }

  function Then(msgs: seq<Msg>, r: Out): Out {
    Out(msgs + r.msgs, r.rest, r.bad)
  }

  function FeedAll(o: Out, chunks: seq<seq<byte>>): Out
    decreases |chunks|
  {
    if chunks == [] then o else FeedAll(Feed(o, chunks[0]), chunks[1..])
  }

  /** Parsing what has arrived and then the rest is parsing it all. */
  lemma {:induction false} ParseMore(data: seq<byte>, more: seq<byte>)
    ensures var o, r := ParseAll(data), ParseAll(data + more);
            if o.bad then r.bad && r.msgs == o.msgs else r == Then(o.msgs, ParseAll(o.rest + more))
    decreases |data|
  {
    hide Parse, ParseAll;
    Unfold(data);
    if Parse(data).Partial? {
      assert Then([], ParseAll(data + more)) == ParseAll(data + more);
    } else {
      ParseStable(data, more);
      Unfold(data + more);
      if Parse(data).Ok? {
        var n := Parse(data).len;
        ParseMore(data[n..], more);
        assert (data + more)[n..] == data[n..] + more;
        ThenThen([Parse(data).msg], ParseAll(data[n..]).msgs, ParseAll(ParseAll(data[n..]).rest + more));
      }
    }
  }

  lemma ThenThen(a: seq<Msg>, b: seq<Msg>, r: Out)
    ensures Then(a, Then(b, r)) == Then(a + b, r)
  {
    assert a + (b + r.msgs) == a + b + r.msgs;
  }

  lemma Unfold(data: seq<byte>)
    ensures Parse(data).Partial? ==> ParseAll(data) == Out([], data, false)
    ensures Parse(data).Invalid? ==> ParseAll(data) == Out([], data, true)
    ensures Parse(data).Ok? ==> ParseAll(data) == Then([Parse(data).msg], ParseAll(data[Parse(data).len..]))
  {
    hide Parse;
  }

  lemma FeedTwice(o: Out, a: seq<byte>, b: seq<byte>)
    requires !ParseAll(o.rest + a).bad
    ensures Feed(Feed(o, a), b) == Feed(o, a + b)
  {
    hide ParseAll;
    ParseMore(o.rest + a, b);
    assert o.rest + a + b == o.rest + (a + b);
    ThenThen(o.msgs, ParseAll(o.rest + a).msgs, ParseAll(ParseAll(o.rest + a).rest + b));
  }

  /** How the stream was cut into pieces makes no difference: the messages are the same, and so is
      what is left of a stream that is not invalid. */
  lemma {:induction false} Chunking(o: Out, chunks: seq<seq<byte>>)
    requires Parse(o.rest).Partial? && !o.bad
    ensures var r, w := FeedAll(o, chunks), Feed(o, Flatten(chunks));
            r.msgs == w.msgs && r.bad == w.bad && (!r.bad ==> r.rest == w.rest)
    decreases |chunks|
  {
    hide Parse;
    if chunks == [] {
      assert o.rest + [] == o.rest && ParseAll(o.rest) == Out([], o.rest, false);
    } else {
      var first := Feed(o, chunks[0]);
      if first.bad {
        FeedBad(first, chunks[1..]);
        ParseMore(o.rest + chunks[0], Flatten(chunks[1..]));
        assert o.rest + chunks[0] + Flatten(chunks[1..]) == o.rest + Flatten(chunks);
      } else {
        RestPartial(o.rest + chunks[0]);
        Chunking(first, chunks[1..]);
        FeedTwice(o, chunks[0], Flatten(chunks[1..]));
      }
    }
  }

  lemma {:induction false} FeedBad(o: Out, chunks: seq<seq<byte>>)
    requires o.bad
    ensures FeedAll(o, chunks) == o
    decreases |chunks|
  {
    if chunks != [] {
      FeedBad(o, chunks[1..]);
    }
  }

  lemma {:induction false} RestPartial(data: seq<byte>)
    ensures !ParseAll(data).bad ==> Parse(ParseAll(data).rest).Partial?
    decreases |data|
  {
    hide Parse;
    if Parse(data).Ok? {
      RestPartial(data[Parse(data).len..]);
    }
  }

  function EncodeAll(msgs: seq<Msg>): seq<byte> {
    if msgs == [] then [] else Encode(msgs[0]) + EncodeAll(msgs[1..])
  }

  lemma {:induction false} ParseEncoded(msgs: seq<Msg>)
    requires forall m :: m in msgs ==> Fits(m)
    ensures ParseAll(EncodeAll(msgs)) == Out(msgs, [], false)
    decreases |msgs|
  {
    hide Parse, Encode, Fits;
    if msgs == [] {
      assert Parse([]).Partial? by {
        ParseEmpty();
      }
    } else {
      var m, rest := msgs[0], EncodeAll(msgs[1..]);
      RoundTrip(m, rest);
      ParseEncoded(msgs[1..]);
      assert (Encode(m) + rest)[|Encode(m)|..] == rest;
    }
  }

  lemma ParseEmpty()
    ensures Parse([]).Partial?
  {
  }

  /** End to end: whatever pieces the encoded messages arrive in, exactly they come out. */
  lemma StreamDelivers(msgs: seq<Msg>, chunks: seq<seq<byte>>)
    requires (forall m :: m in msgs ==> Fits(m)) && Flatten(chunks) == EncodeAll(msgs)
    ensures FeedAll(Out([], [], false), chunks) == Out(msgs, [], false)
  {
    hide Parse, ParseAll, FeedAll;
    ParseEmpty();
    Chunking(Out([], [], false), chunks);
    ParseEncoded(msgs);
    assert [] + Flatten(chunks) == Flatten(chunks);
  }

  const BUF_MAX := 0xFFFF_FFFF  // SC_BUF_MAX

  /** The next multiple of 4096. */
  function RoundUp(n: nat): (r: nat)
    ensures n <= r < n + 4096 && r % 4096 == 0
  {
    (n + 4095) / 4096 * 4096
  }

  class Input {
    var mem: array<byte>
    var rpos: nat
    var wpos: nat
    const limit: nat

    ghost predicate Valid()
      reads this
    {
      rpos <= wpos <= mem.Length && mem.Length > 0
    }

    /** The bytes received and not yet parsed. */
    ghost function Data(): seq<byte>
      requires Valid()
      reads this, mem
    {
      mem[rpos..wpos]
    }

    constructor (cap: nat, limit: nat)
      requires cap > 0
      ensures Valid() && Data() == [] && fresh(mem) && this.limit == limit
    {
      mem := new byte[cap];
      rpos, wpos, this.limit := 0, 0, limit;
    }

    /** sc_buf_compact: what is unread moves to the front. */
    method Compact()
      requires Valid()
      modifies this`rpos, this`wpos, mem
      ensures Valid() && Data() == old(Data()) && rpos == 0
    {
      var size := wpos - rpos;
      ghost var data := Data();
      if rpos != 0 {
        forall i | 0 <= i < size {
          mem[i] := mem[rpos + i];
        }
        rpos, wpos := 0, size;
      }
      assert mem[0..size] == data;
    }

    /** sc_buf_reserve for twice the capacity, on a full buffer. */
    method Grow() returns (ok: bool)
      requires Valid() && 3 * mem.Length + 4095 <= BUF_MAX
      modifies this`mem
      ensures Valid() && Data() == old(Data()) && (ok <==> RoundUp(3 * old(mem.Length)) <= limit)
      ensures if ok then fresh(mem) && mem.Length > old(mem.Length) else mem == old(mem)
    {
      var size := RoundUp(mem.Length + 2 * mem.Length);
      if size > limit || mem.Length >= BUF_MAX - 4096 {
        return false;
      }
      ghost var data := Data();
      var old_ := mem;
      var grown := new byte[size];
      forall i | 0 <= i < wpos {
        grown[i] := old_[i];
      }
      mem := grown;
      assert mem[rpos..wpos] == data;
      ok := true;
    }

    /** conn_on_readable: as much of what the socket has as fits. Fails when the buffer is full of an
        unfinished message and may not grow. */
    method OnReadable(avail: seq<byte>) returns (ok: bool, n: nat)
      requires Valid() && avail != [] && 3 * mem.Length + 4095 <= BUF_MAX
      modifies this, mem
      ensures Valid() && n <= |avail| && Data() == old(Data()) + avail[..n]
      ensures ok <==> |old(Data())| < old(mem.Length) || RoundUp(3 * old(mem.Length)) <= limit
      ensures ok <==> n > 0
      ensures ok ==> n == |avail| || wpos == mem.Length
    {
      Compact();
      if mem.Length - wpos == 0 {
        ok := Grow();
        if !ok {
          return false, 0;
        }
      }
      ok := true;
      var cap := mem.Length - wpos;
      n := if |avail| < cap then |avail| else cap;
      Take(avail[..n]);
    }

    /** The received bytes are written behind the others. */
    method Take(s: seq<byte>)
      requires Valid() && wpos + |s| <= mem.Length
      modifies this`wpos, mem
      ensures Valid() && Data() == old(Data()) + s && wpos == old(wpos) + |s|
    {
      ghost var data := Data();
      forall i | 0 <= i < |s| {
        mem[wpos + i] := s[i];
      }
      assert mem[rpos..wpos] == data;
      wpos := wpos + |s|;
      assert mem[rpos..wpos] == data + s;
    }

    /** The loop around msg_parse that empties the buffer of whole messages. */
    method Drain() returns (msgs: seq<Msg>, bad: bool)
      requires Valid()
      modifies this`rpos
      ensures Valid() && msgs == ParseAll(old(Data())).msgs && bad == ParseAll(old(Data())).bad
      ensures !bad ==> Data() == ParseAll(old(Data())).rest
    {
      hide Parse;
      msgs := [];
      while true
        invariant Valid()
        invariant var o, r := ParseAll(old(Data())), ParseAll(Data());
                  o.msgs == msgs + r.msgs && o.bad == r.bad && (!o.bad ==> o.rest == r.rest)
        decreases wpos - rpos
      {
        match Parse(mem[rpos..wpos]) {
          case Partial => return msgs, false;
          case Invalid => return msgs, true;
          case Ok(m, n) =>
            assert mem[rpos..wpos][n..] == mem[rpos + n..wpos];
            rpos, msgs := rpos + n, msgs + [m];
        }
      }
    }
  }

  /** The bytes fit, or the buffer may grow to hold them. */
  predicate Reservable(cap: nat, wpos: nat, len: nat, limit: nat) {
    wpos + len <= cap || (RoundUp(cap + len) <= limit && cap < BUF_MAX - 4096)
  }

  class Output {
    var mem: array<byte>
    var wpos: nat
    var err: bool
    const limit: nat

    ghost predicate Valid()
      reads this
    {
      wpos <= mem.Length
    }

    /** The bytes written. */
    ghost function Data(): seq<byte>
      requires Valid()
      reads this, mem
    {
      mem[..wpos]
    }

    constructor (limit: nat)
      ensures Valid() && Data() == [] && !err && fresh(mem) && this.limit == limit
    {
      mem := new byte[0];
      wpos, err, this.limit := 0, false, limit;
    }

    /** sc_buf_reserve: in steps of 4096 bytes up to the limit. */
    method Reserve(len: nat) returns (ok: bool)
      requires Valid() && wpos + len <= BUF_MAX && mem.Length + len + 4095 <= BUF_MAX
      modifies this`mem, this`err
      ensures Valid() && Data() == old(Data()) && (mem == old(mem) || fresh(mem))
      ensures ok <==> Reservable(old(mem.Length), wpos, len, limit)
      ensures if ok then wpos + len <= mem.Length && err == old(err) else err && mem == old(mem)
      ensures mem.Length <= old(mem.Length) + len + 4095
    {
      if wpos + len > mem.Length {
        var size := RoundUp(mem.Length + len);
        if size > limit || mem.Length >= BUF_MAX - 4096 {
          err := true;
          return false;
        }
        var grown := new byte[size];
        forall i | 0 <= i < wpos {
          grown[i] := mem[i];
        }
        assert grown[..wpos] == mem[..wpos];
        mem := grown;
      }
      ok := true;
    }

    /** sc_buf_put_raw; nothing is written once a write has failed. */
    method Put(s: seq<byte>)
      requires Valid() && wpos + |s| <= BUF_MAX && mem.Length + |s| + 4095 <= BUF_MAX
      modifies this, mem
      ensures Valid() && (mem == old(mem) || fresh(mem))
      ensures err <==> old(err) || !Reservable(old(mem.Length), old(wpos), |s|, limit)
      ensures Data() == if err then old(Data()) else old(Data()) + s
      ensures mem.Length <= old(mem.Length) + |s| + 4095
    {
      ghost var data := Data();
      var ok := Reserve(|s|);
      if !ok || err {
        return;
      }
      forall i | 0 <= i < |s| {
        mem[wpos + i] := s[i];
      }
      assert mem[..wpos] == data;
      wpos := wpos + |s|;
      assert mem[..wpos] == data + s;
    }

    /** A msg_create function: the whole message is written or nothing is. */
    method Create(m: Msg) returns (ok: bool)
      requires Valid() && wpos + |Encode(m)| <= BUF_MAX && mem.Length + |Encode(m)| + 4 * 4095 <= BUF_MAX
      modifies this, mem
      ensures Valid() && ok == !err && (mem == old(mem) || fresh(mem))
      ensures Data() == if ok then old(Data()) + Encode(m) else old(Data())
      ensures !old(err) && old(mem.Length) + |Encode(m)| + 4 * 4096 <= limit <= BUF_MAX ==> ok
    {
      hide Body, DeclaredLen, TypeOf, Encode, Entry.Le;
      var head := wpos;
      ghost var data := Data();
      var a, b, c := Entry.Le(DeclaredLen(m), 4), Entry.Le(TypeOf(m), 1), Body(m);
      Parts(m, data);
      Put(a);
      Put(b);
      Put(c);
      assert head <= wpos && Data()[..head] == data;
      if err {
        wpos := head;
      }
      ok := !err;
    }
  }

  lemma Parts(m: Msg, data: seq<byte>)
    ensures |Encode(m)| == 5 + |Body(m)|
    ensures data + Entry.Le(DeclaredLen(m), 4) + Entry.Le(TypeOf(m), 1) + Body(m) == data + Encode(m)
  {
    hide Body, DeclaredLen, TypeOf, Entry.Le;
  }
}
