/** Writing a flat buffer into a segmented packet (txonly.c). */
module PktSegs {
  import opened Common
  import opened Mbufs

  /** From `was` to `now`, the packet bytes at `offset` became `x` and no other byte of any room,
      data or tailroom, changed. */
  ghost predicate Written(was: seq<seq<byte>>, now: seq<seq<byte>>, lens: seq<nat>,
                          offset: nat, x: seq<byte>)
    requires Fit(was, lens)
  {
    && Fit(now, lens)
    && offset + |x| <= |PacketOf(was, lens)|
    && PacketOf(now, lens) == Put(PacketOf(was, lens), offset, x)
    && forall i :: 0 <= i < |lens| ==> now[i][lens[i]..] == was[i][lens[i]..]
  }

  lemma WrittenNothing(rooms: seq<seq<byte>>, lens: seq<nat>, offset: nat)
    requires Fit(rooms, lens) && offset <= |PacketOf(rooms, lens)|
    ensures Written(rooms, rooms, lens, offset, [])
  {
  }

  /** One write inside the data of segment `k` is one overwrite of the flat packet. */
  lemma WrittenOnce(rooms: seq<seq<byte>>, lens: seq<nat>, k: nat, p: nat, x: seq<byte>)
    requires Fit(rooms, lens) && k < |rooms| && p + |x| <= lens[k]
    ensures Written(rooms, rooms[k := Put(rooms[k], p, x)], lens, Sum(lens[..k]) + p, x)
  {
    var h := Heads(rooms, lens);
    var now := rooms[k := Put(rooms[k], p, x)];
    PutPrefix(rooms[k], p, x, lens[k]);
    assert Heads(now, lens) == h[k := Put(h[k], p, x)];
    FlattenPut(h, k, p, x);
    FlattenLength(h[..k], lens[..k]);
  }

  /** A write that continues where the previous one stopped. */
  lemma WrittenMore(was: seq<seq<byte>>, mid: seq<seq<byte>>, lens: seq<nat>,
                    offset: nat, x: seq<byte>, k: nat, p: nat, y: seq<byte>)
    requires Fit(was, lens) && Written(was, mid, lens, offset, x)
    requires k < |lens| && p + |y| <= lens[k] && Sum(lens[..k]) + p == offset + |x|
    ensures Written(was, mid[k := Put(mid[k], p, y)], lens, offset, x + y)
  {
    WrittenOnce(mid, lens, k, p, y);
    PutAdjacent(PacketOf(was, lens), offset, x, y);
  }

  /** One memcpy into segment `seg` of the packet. */
  method WriteSeg(seg: Mbuf, ghost segs: seq<Mbuf>, ghost k: nat, p: nat, buf: array<byte>, s: nat, n: nat)
    requires Separate(segs) && k < |segs| && seg == segs[k] && buf !in Bufs(segs)
    requires p + n <= seg.buf.Length && s + n <= buf.Length
    modifies seg.buf
    ensures Rooms(segs) == old(Rooms(segs)[k := Put(seg.buf[..], p, buf[s..s + n])])
  {
    ghost var rooms := Rooms(segs);
    Memcpy(seg.buf, p, buf, s, n);
    forall i | 0 <= i < |segs| && i != k
      ensures segs[i].buf[..] == rooms[i]
    {
    }
  }

  /** The memcpy of the walk: with bytes [0, s) of `buf` already written at `offset`, the bytes up
      to `e` follow. */
  method WriteOn(seg: Mbuf, ghost segs: seq<Mbuf>, ghost k: nat, p: nat, buf: array<byte>, s: nat, e: nat,
                 ghost was: seq<seq<byte>>, ghost lens: seq<nat>, ghost offset: nat)
    requires Separate(segs) && k < |segs| && seg == segs[k] && buf !in Bufs(segs)
    requires s <= e <= buf.Length
    requires Fit(was, lens) && |lens| == |segs| && p + e - s <= lens[k]
    requires Sum(lens[..k]) + p == offset + s
    requires Written(was, Rooms(segs), lens, offset, buf[..s])
    modifies seg.buf
    ensures Written(was, Rooms(segs), lens, offset, buf[..e])
  {
    assert buf[..s] + buf[s..e] == buf[..e];
    WrittenMore(was, Rooms(segs), lens, offset, buf[..s], k, p, buf[s..e]);
    WriteSeg(seg, segs, k, p, buf, s, e - s);
  }

  /** The walk over the segments: exactly bytes [offset, offset + len) of the packet become the
      first `len` bytes of `buf`; nothing beyond a segment's data is touched. */
  method CopyBufToPktSegs(buf: array<byte>, len: nat, pkt: Mbuf, offset: nat, ghost segs: seq<Mbuf>)
    requires IsChain(pkt, segs) && Separate(segs) && InBounds(segs) && buf !in Bufs(segs)
    requires 0 < len <= buf.Length && offset + len <= |Flat(segs)|
    modifies Bufs(segs)
    ensures Written(old(Rooms(segs)), Rooms(segs), Lens(segs), offset, buf[..len])
  {
    ghost var lens, was := Lens(segs), Rooms(segs);
    FlattenLength(Heads(was, lens), lens);
    WrittenNothing(was, lens, offset);
    assert buf[..0] == [];
    var off, seg, k := FindSeg(pkt, offset, segs);
    CopyFrom(seg, off, buf, len, segs, k, was, lens, offset);
  }

  /** The second loop: whole segments while more than one is needed, then the rest. */
  method CopyFrom(first: Mbuf, off: nat, buf: array<byte>, len: nat, ghost segs: seq<Mbuf>, ghost k0: nat,
                  ghost was: seq<seq<byte>>, ghost lens: seq<nat>, ghost offset: nat)
    requires segs != [] && IsChain(segs[0], segs) && Separate(segs) && buf !in Bufs(segs)
    requires k0 < |segs| && first == segs[k0] && Lens(segs) == lens
    requires off < lens[k0] && Sum(lens[..k0]) + off == offset
    requires 0 < len <= buf.Length && offset + len <= Sum(lens)
    requires Fit(was, lens) && Written(was, Rooms(segs), lens, offset, buf[..0])
    modifies Bufs(segs)
    ensures Written(was, Rooms(segs), lens, offset, buf[..len])
  {
    hide Written, Fit, Rooms, Sum;
    var left: nat, from: nat, at: nat, copyLen: nat := len, 0, off, first.dataLen - off;
    var seg := first;
    ghost var k := k0;
    while left > copyLen
      invariant k < |segs| && seg == segs[k] && at + copyLen == lens[k]
      invariant left > 0 && from + left == len
      invariant Sum(lens[..k]) + at == offset + from
      invariant Written(was, Rooms(segs), lens, offset, buf[..from])
      decreases |segs| - k
    {
      WriteOn(seg, segs, k, at, buf, from, from + copyLen, was, lens, offset);
      left, from := left - copyLen, from + copyLen;
      NotLast(lens, k, offset + from);
      assert segs[k].next == segs[k + 1];
      seg, k, at := seg.next, k + 1, 0;
      copyLen := seg.dataLen;
    }
    WriteOn(seg, segs, k, at, buf, from, len, was, lens, offset);
  }

  /** A position before the end of the packet, at or after the end of segment `k`, is in a later one. */
  lemma NotLast(lens: seq<nat>, k: nat, position: nat)
    requires k < |lens| && Sum(lens[..k]) + lens[k] <= position < Sum(lens)
    ensures k + 1 < |lens| && Sum(lens[..k + 1]) == Sum(lens[..k]) + lens[k]
  {
    SumSnoc(lens, k);
    assert lens[..|lens|] == lens;
  }

  /** The first loop: the segment that holds packet position `offset`. */
  method FindSeg(pkt: Mbuf, offset: nat, ghost segs: seq<Mbuf>) returns (off: nat, seg: Mbuf, ghost k: nat)
    requires IsChain(pkt, segs) && offset < Sum(Lens(segs))
    ensures k < |segs| && seg == segs[k]
    ensures off < seg.dataLen && Sum(Lens(segs)[..k]) + off == offset
  {
    off, seg, k := offset, pkt, 0;
    while off >= seg.dataLen
      invariant k < |segs| && seg == segs[k]
      invariant off + Sum(Lens(segs)[..k]) == offset
      decreases |segs| - k
    {
      NotLast(Lens(segs), k, offset);
      assert segs[k].next == segs[k + 1];
      off, seg, k := off - seg.dataLen, seg.next, k + 1;
    }
  }

  /** The entry point with its one-segment fast path has the effect of the walk; the fast path also
      serves an empty write that starts inside the first segment. */
  method CopyBufToPkt(buf: array<byte>, len: nat, pkt: Mbuf, offset: nat, ghost segs: seq<Mbuf>)
    requires IsChain(pkt, segs) && Separate(segs) && InBounds(segs) && buf !in Bufs(segs)
    requires len <= buf.Length && offset + len <= |Flat(segs)|
    requires len > 0 || offset <= pkt.dataLen
    modifies Bufs(segs)
    ensures Written(old(Rooms(segs)), Rooms(segs), Lens(segs), offset, buf[..len])
  {
    if offset + len <= pkt.dataLen {
      WrittenOnce(Rooms(segs), Lens(segs), 0, offset, buf[..len]);
      WriteSeg(pkt, segs, 0, offset, buf, 0, len);
      return;
    }
    CopyBufToPktSegs(buf, len, pkt, offset, segs);
  }
}
