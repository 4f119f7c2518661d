/** Packet buffers: segments with a data room, linked through `next`. */
module Mbufs {
  import opened Common

  class Mbuf {
    const buf: array<byte>  // the data room, from the first data byte on
    var dataLen: nat
    var next: Mbuf?
    var nbSegs: nat
    var pktLen: nat
    var vlanTci: nat
    var vlanTciOuter: nat
    var olFlags: nat
    var txOffload: nat

    /** A segment just taken from the pool: empty, unlinked, `room` bytes of tailroom. */
    constructor (room: nat)
      ensures fresh(buf) && buf.Length == room
      ensures dataLen == 0 && next == null
    {
      buf := new byte[room];
      dataLen, next, nbSegs, pktLen := 0, null, 1, 0;
      vlanTci, vlanTciOuter, olFlags, txOffload := 0, 0, 0, 0;
    }
  }

  function Bufs(segs: seq<Mbuf>): set<array<byte>> {
    set m | m in segs :: m.buf
  }

  /** No segment occurs twice and no two segments share a data room. */
  ghost predicate Separate(segs: seq<Mbuf>) {
    forall i, j :: 0 <= i < j < |segs| ==> segs[i] != segs[j] && segs[i].buf != segs[j].buf
  }

  /** `segs` is exactly what following `next` from `first` visits. */
  ghost predicate IsChain(first: Mbuf?, segs: seq<Mbuf>)
    reads segs
  {
    && first == (if segs == [] then null else segs[0])
    && forall i {:trigger segs[i].next} :: 0 <= i < |segs| ==>
      segs[i].next == if i + 1 < |segs| then segs[i + 1] else null
  }

  ghost predicate InBounds(segs: seq<Mbuf>)
    reads segs
  {
    forall i :: 0 <= i < |segs| ==> segs[i].dataLen <= segs[i].buf.Length
  }

  /** The whole data rooms, data and tailroom alike. */
  ghost function Rooms(segs: seq<Mbuf>): (r: seq<seq<byte>>)
    reads Bufs(segs)
    ensures |r| == |segs| && forall i :: 0 <= i < |segs| ==> r[i] == segs[i].buf[..]
  {
    seq(|segs|, i requires 0 <= i < |segs| reads Bufs(segs) => segs[i].buf[..])
  }

  ghost function Lens(segs: seq<Mbuf>): (l: seq<nat>)
    reads segs
    ensures |l| == |segs| && forall i :: 0 <= i < |segs| ==> l[i] == segs[i].dataLen
  {
    seq(|segs|, i requires 0 <= i < |segs| reads segs => segs[i].dataLen)
  }

  predicate Fit(rooms: seq<seq<byte>>, lens: seq<nat>) {
    |rooms| == |lens| && forall i :: 0 <= i < |rooms| ==> lens[i] <= |rooms[i]|
  }

  /** The data part of each room. */
  function Heads(rooms: seq<seq<byte>>, lens: seq<nat>): (h: seq<seq<byte>>)
    requires Fit(rooms, lens)
    ensures |h| == |rooms| && forall i :: 0 <= i < |h| ==> h[i] == rooms[i][..lens[i]]
  {
    seq(|rooms|, i requires 0 <= i < |rooms| => rooms[i][..lens[i]])
  }

  /** The packet held in `rooms` as one flat byte sequence. */
  function PacketOf(rooms: seq<seq<byte>>, lens: seq<nat>): seq<byte>
    requires Fit(rooms, lens)
  {
    Flatten(Heads(rooms, lens))
  }

  /** The packet as one flat byte sequence. */
  ghost function Flat(segs: seq<Mbuf>): seq<byte>
    requires InBounds(segs)
    reads segs, Bufs(segs)
  {
    PacketOf(Rooms(segs), Lens(segs))
  }

  /** Overwriting below `n` is seen in the first `n` bytes and leaves the rest alone. */
  lemma PutPrefix(base: seq<byte>, at: nat, x: seq<byte>, n: nat)
    requires at + |x| <= n <= |base|
    ensures Put(base, at, x)[..n] == Put(base[..n], at, x)
    ensures Put(base, at, x)[n..] == base[n..]
  {
  }

  lemma PutAdjacent(base: seq<byte>, at: nat, x: seq<byte>, y: seq<byte>)
    requires at + |x| + |y| <= |base|
    ensures Put(Put(base, at, x), at + |x|, y) == Put(base, at, x + y)
  {
  }

  /** Overwriting inside piece `k` overwrites the concatenation at the matching place. */
  lemma FlattenPut(v: seq<seq<byte>>, k: nat, p: nat, x: seq<byte>)
    requires k < |v| && p + |x| <= |v[k]|
    ensures |Flatten(v[..k])| + p + |x| <= |Flatten(v)|
    ensures Flatten(v[k := Put(v[k], p, x)]) == Put(Flatten(v), |Flatten(v[..k])| + p, x)
  {
    var w := v[k := Put(v[k], p, x)];
    FlattenSplit(v, k);
    FlattenSplit(w, k);
    assert w[..k] == v[..k] && w[k + 1..] == v[k + 1..];
  }
}
