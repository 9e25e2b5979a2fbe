/** Sending a snapshot to a follower in chunks (server_flush_snapshot in src/server.c and
    snapshot_recv in src/snapshot.c), over a connection that delivers in order until it breaks. */
module Snapshot {
  import opened Entry
  import opened Basics

  const CHUNK := 16 * 1024  // MAX_SIZE of src/server.c

  datatype Key = Key(term: nat, index: nat)

  datatype Chunk = Chunk(key: Key, offset: nat, data: seq<byte>, done: bool)

  /** How far a snapshot has come on a connection; zero when nothing was sent. */
  datatype Mark = Mark(key: Key, pos: nat)

  datatype Accepted = Accepted(key: Key, bytes: seq<byte>)

  const NONE := Mark(Key(0, 0), 0)

  function EndOf(c: Chunk): Mark {
    Mark(c.key, c.offset + |c.data|)
  }

  /** The chunk is a piece of the leader's snapshot with its key, and the last piece says so. */
  ghost predicate Piece(snaps: map<Key, seq<byte>>, c: Chunk) {
    && c.key in snaps && c.offset + |c.data| <= |snaps[c.key]| && 0 < |c.data| <= CHUNK
    && c.data == snaps[c.key][c.offset..c.offset + |c.data|]
    && (c.done <==> c.offset + |c.data| == |snaps[c.key]|)
  }

  /** Every chunk starts over or goes on where the one before ended. */
  ghost predicate Flow(snaps: map<Key, seq<byte>>, at: Mark, channel: seq<Chunk>)
    decreases |channel|
  {
    channel == [] ||
    (Piece(snaps, channel[0]) && (channel[0].offset == 0 || at == Mark(channel[0].key, channel[0].offset))
     && Flow(snaps, EndOf(channel[0]), channel[1..]))
  }

  ghost function Tail(at: Mark, channel: seq<Chunk>): Mark {
    if channel == [] then at else EndOf(channel[|channel| - 1])
  }

  lemma {:induction false} FlowSnoc(snaps: map<Key, seq<byte>>, at: Mark, channel: seq<Chunk>, c: Chunk)
    requires Flow(snaps, at, channel) && Piece(snaps, c)
    requires c.offset == 0 || Tail(at, channel) == Mark(c.key, c.offset)
    ensures Flow(snaps, at, channel + [c])
    decreases |channel|
  {
    hide Piece;
    if channel == [] {
      assert [c][1..] == [];
    } else {
      FlowSnoc(snaps, EndOf(channel[0]), channel[1..], c);
      assert (channel + [c])[1..] == channel[1..] + [c];
    }
  }

  lemma {:induction false} FlowMore(snaps: map<Key, seq<byte>>, key: Key, bytes: seq<byte>, at: Mark,
      channel: seq<Chunk>)
    requires Flow(snaps, at, channel) && key !in snaps
    ensures Flow(snaps[key := bytes], at, channel)
    decreases |channel|
  {
    if channel != [] {
      FlowMore(snaps, key, bytes, EndOf(channel[0]), channel[1..]);
    }
  }

  /** file_write_at: bytes past the old end are filled with zeros. */
  function WriteAt(file: seq<byte>, offset: nat, data: seq<byte>): (r: seq<byte>)
    ensures |r| == if offset + |data| > |file| then offset + |data| else |file|
  {
    (if offset <= |file| then file[..offset] else file + Zeros(offset - |file|))
    + data
    + (if offset + |data| < |file| then file[offset + |data|..] else [])
  }

  function Zeros(n: nat): (r: seq<byte>)
    ensures |r| == n && forall i :: 0 <= i < n ==> r[i] == 0
  {
    seq(n, i => 0)
  }

  /** From `from` to `to` the file holds the snapshot, and below `from` nothing was written. */
  ghost predicate Holds(file: seq<byte>, s: seq<byte>, from: nat, to: nat) {
    && from <= to <= |file| <= |s| && file[from..to] == s[from..to]
    && (from > 0 ==> file[..from] == Zeros(from))
  }

  lemma HoldsFirst(s: seq<byte>, offset: nat, data: seq<byte>)
    requires offset + |data| <= |s| && data == s[offset..offset + |data|]
    ensures Holds(WriteAt([], offset, data), s, offset, offset + |data|)
  {
    var r := WriteAt([], offset, data);
    assert r == Zeros(offset) + data;
    assert r[offset..] == data;
  }

  lemma HoldsNext(file: seq<byte>, s: seq<byte>, from: nat, to: nat, data: seq<byte>)
    requires Holds(file, s, from, to) && to + |data| <= |s| && data == s[to..to + |data|]
    ensures Holds(WriteAt(file, to, data), s, from, to + |data|)
  {
    var r := WriteAt(file, to, data);
    assert r[..to] == file[..to] && r[to..to + |data|] == data;
    assert r[from..to + |data|] == r[..to][from..] + r[to..to + |data|];
    assert s[from..to + |data|] == s[from..to] + s[to..to + |data|];
    assert r[..from] == file[..from];
  }

  lemma HoldsRestart(file: seq<byte>, s: seq<byte>, data: seq<byte>)
    requires |file| <= |s| && |data| <= |s| && data == s[..|data|]
    ensures Holds(WriteAt(file, 0, data), s, 0, |data|)
  {
    assert WriteAt(file, 0, data)[..|data|] == data;
  }

  class Transfer {
    // the leader
    var key: Key             // ss.term, ss.index
    var map_: seq<byte>      // ss.map
    var nodeIndex: nat       // n->ss_index
    var nodePos: nat         // n->ss_pos
    // the follower
    var recv: Key            // recv_term, recv_index
    var tmp: Option<seq<byte>>
    var accepted: Option<Accepted>
    // the connection
    var channel: seq<Chunk>
    ghost var at: Mark                      // the last chunk received on it
    ghost var from: nat                     // where the unbroken run of chunks in `tmp` began
    ghost var torn: bool                    // the follower dropped its file in the middle of a run
    ghost var snaps: map<Key, seq<byte>>    // every snapshot the leader had

    ghost predicate Sending()
      reads this
    {
      && key in snaps && snaps[key] == map_ && (forall k :: k in snaps ==> k.index <= key.index)
      && Flow(snaps, at, channel)
      && (nodeIndex == key.index && nodePos > 0 ==> Tail(at, channel) == Mark(key, nodePos) && nodePos <= |map_|)
      && nodeIndex <= key.index
    }

    ghost predicate Receiving()
      reads this
    {
      && (at.pos > 0 ==> at.key in snaps)
      && (tmp.Some? ==> recv in snaps && |tmp.value| <= |snaps[recv]|)
      && (tmp.Some? && at.pos > 0 ==> recv == at.key && Holds(tmp.value, snaps[recv], from, at.pos))
      && (!torn && tmp.Some? ==> from == 0)
      && (!torn && at.pos > 0 && tmp.None? ==> at.pos == |snaps[at.key]|)
    }

    ghost predicate Valid()
      reads this
    {
      Sending() && Receiving()
    }

    constructor (key: Key, bytes: seq<byte>)
      ensures Valid() && this.key == key && map_ == bytes && snaps == map[key := bytes] && !torn
      ensures nodeIndex == nodePos == 0 && channel == [] && tmp == None && accepted == None
    {
      this.key, map_, nodeIndex, nodePos := key, bytes, 0, 0;
      recv, tmp, accepted, channel := Key(0, 0), None, None, [];
      at, from, torn, snaps := NONE, 0, false, map[key := bytes];
    }

    /** server_flush_snapshot on a node with room for another message. */
    method SendChunk()
      requires Valid()
      modifies this`nodeIndex, this`nodePos, this`channel
      ensures Valid()
      ensures var pos := if old(nodeIndex) != key.index then 0 else old(nodePos);
              && nodeIndex == key.index && pos <= nodePos
              && nodePos == (if pos + 16384 < |map_| then pos + 16384 else |map_|)
              && channel == old(channel)
                            + (if pos == nodePos then [] else [Chunk(key, pos, map_[pos..nodePos], nodePos == |map_|)])
    {
      hide Holds, Flow;
      if nodeIndex != key.index {
        nodeIndex := key.index;
        nodePos := 0;
      }
      var len := if CHUNK < |map_| - nodePos then CHUNK else |map_| - nodePos;
      if len == 0 {
        return;
      }
      var c := Chunk(key, nodePos, map_[nodePos..nodePos + len], nodePos + len == |map_|);
      assert Piece(snaps, c);
      FlowSnoc(snaps, at, channel, c);
      channel := channel + [c];
      nodePos := nodePos + len;
    }

    /** snapshot_replace: the leader has a newer snapshot. */
    method Replace(newKey: Key, bytes: seq<byte>)
      requires Valid() && newKey.index > key.index
      modifies this`key, this`map_, this`snaps
      ensures Valid() && key == newKey && map_ == bytes && snaps == old(snaps)[newKey := bytes]
    {
      hide Holds;
      FlowMore(snaps, newKey, bytes, at, channel);
      snaps := snaps[newKey := bytes];
      key, map_ := newKey, bytes;
    }

    /** The connection broke and a new one was made: what was under way is lost and node_clear_indexes
        sends the leader back to the start. */
    method Reconnect()
      requires Valid()
      modifies this`channel, this`nodeIndex, this`nodePos, this`at, this`torn
      ensures Valid() && channel == [] && nodeIndex == nodePos == 0 && at == NONE && tmp == old(tmp)
    {
      channel, nodeIndex, nodePos := [], 0, 0;
      at := NONE;
    }

    /** snapshot_clear from server_become_follower. */
    method Clear()
      requires Valid()
      modifies this`recv, this`tmp, this`torn
      ensures Valid() && tmp == None && (torn <==> old(torn) || at.pos > 0)
    {
      if tmp.Some? {
        tmp, recv := None, Key(0, 0);
      }
      torn := torn || at.pos > 0;
    }

    /** snapshot_recv of the next chunk. An accepted snapshot is the leader's, byte for byte, unless
        the follower dropped its file in the middle of the run that ended here. */
    method Receive() returns (done: bool)
      requires Valid() && channel != []
      modifies this`recv, this`tmp, this`accepted, this`channel, this`at, this`from, this`torn
      ensures Valid() && channel == old(channel)[1..] && at == EndOf(old(channel)[0]) && recv == old(channel)[0].key
      ensures torn <==> old(torn) && old(channel)[0].offset > 0
      ensures from == StartOf(old(tmp), old(recv), old(from), old(channel)[0])
      ensures done == old(channel)[0].done && (!done ==> accepted == old(accepted))
      ensures tmp.None? <==> done
      ensures done ==> accepted.Some? && accepted.value.key == old(channel)[0].key && accepted.value.key in snaps
      ensures done ==> (accepted.value.bytes == snaps[accepted.value.key] <==> BlankTo(snaps[accepted.value.key], from))
      ensures done && !torn ==> accepted.value.bytes == snaps[accepted.value.key]
    {
      hide Holds, WriteAt, BlankTo;
      var c := channel[0];
      channel := channel[1..];
      Write(c);
      done := c.done;
      if done {
        WholeFile(tmp.value, snaps[recv], from);
        BlankZero(snaps[recv]);
        accepted := Some(Accepted(c.key, tmp.value));
        tmp := None;
      }
    }

    /** The middle of snapshot_recv: the chunk goes into the file. */
    method Write(c: Chunk)
      requires Receiving() && Piece(snaps, c) && (c.offset == 0 || at == Mark(c.key, c.offset))
      modifies this`recv, this`tmp, this`at, this`from, this`torn
      ensures Receiving() && at == EndOf(c) && recv == c.key && tmp.Some? && Holds(tmp.value, snaps[recv], from, at.pos)
      ensures torn <==> old(torn) && c.offset > 0
      ensures from == StartOf(old(tmp), old(recv), old(from), c)
    {
      hide Holds, WriteAt;
      ghost var s := snaps[c.key];
      if recv != c.key {
        tmp := None;
        recv := c.key;
      }
      if tmp.None? {
        HoldsFirst(s, c.offset, c.data);
        tmp, from := Some([]), c.offset;
      } else if c.offset == 0 {
        HoldsRestart(tmp.value, s, c.data);
        from := 0;
      } else {
        HoldsNext(tmp.value, s, from, c.offset, c.data);
      }
      torn := torn && c.offset > 0;
      tmp := Some(WriteAt(tmp.value, c.offset, c.data));
      at := EndOf(c);
      HoldsSize(tmp.value, s, from, at.pos);
    }
  }

  /** Where the run a chunk belongs to began: a new file and offset zero start one. */
  function StartOf(tmp: Option<seq<byte>>, recv: Key, from: nat, c: Chunk): nat {
    if tmp.None? || recv != c.key then c.offset else if c.offset == 0 then 0 else from
  }

  /** The first `n` bytes are zero. */
  ghost predicate BlankTo(s: seq<byte>, n: nat) {
    n <= |s| && s[..n] == Zeros(n)
  }

  lemma HoldsSize(file: seq<byte>, s: seq<byte>, from: nat, to: nat)
    requires Holds(file, s, from, to)
    ensures from <= to <= |file| <= |s|
  {
  }

  lemma WholeFile(file: seq<byte>, s: seq<byte>, from: nat)
    requires Holds(file, s, from, |s|)
    ensures file == s <==> BlankTo(s, from)
  {
    assert file == file[..from] + file[from..] && s == s[..from] + s[from..];
    assert file[from..|s|] == file[from..] && s[from..|s|] == s[from..];
  }

  lemma BlankZero(s: seq<byte>)
    ensures BlankTo(s, 0)
  {
  }
}
