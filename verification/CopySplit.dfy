/** Repacking a packet into freshly allocated segments (csumonly.c). */
module CopySplit {
  import opened Common
  import opened Mbufs

  const U16 := 0x1_0000
  const ENOBUFS := 105
  const EINVAL := 22

  // ---------- the greedy cut, without a heap ----------

  /** Can source segments of lengths `lens` be used up by destination segments of capacities `caps`,
      each destination taking bytes of one source segment only, as many as fit? */
  predicate CutsThrough(lens: seq<nat>, caps: seq<nat>)
    decreases |caps|
  {
    if lens == [] then true
    else if caps == [] then false
    else if lens[0] <= caps[0] then CutsThrough(lens[1..], caps[1..])
    else CutsThrough([lens[0] - caps[0]] + lens[1..], caps[1..])
  }

  /** What is left of the source once `j` segments are gone and `slen` bytes of the next remain
      (`slen == 0`: nothing of it was taken yet). */
  function Remaining(lens: seq<nat>, j: nat, slen: nat): seq<nat>
    requires j <= |lens| && (slen > 0 ==> j < |lens|)
  {
    if slen == 0 then lens[j..] else [slen] + lens[j + 1..]
  }

  /** A one-segment source fits exactly when the capacities together suffice. */
  lemma {:induction false} OneSegmentCuts(n: nat, caps: seq<nat>)
    requires caps != []
    ensures CutsThrough([n], caps) <==> n <= Sum(caps)
    decreases |caps|
  {
    if n > caps[0] {
      assert [n][1..] == [] && [n - caps[0]] + [n][1..] == [n - caps[0]];
      if |caps| > 1 {
        OneSegmentCuts(n - caps[0], caps[1..]);
      } else {
        assert caps[1..] == [];
      }
    }
  }

  /** Cutting through never needs less room than the source has bytes. */
  lemma {:induction false} CutsNeedRoom(lens: seq<nat>, caps: seq<nat>)
    requires CutsThrough(lens, caps)
    ensures Sum(lens) <= Sum(caps)
    decreases |caps|
  {
    if lens == [] {
    } else if lens[0] <= caps[0] {
      CutsNeedRoom(lens[1..], caps[1..]);
    } else {
      var rest := [lens[0] - caps[0]] + lens[1..];
      assert rest[1..] == lens[1..];
      CutsNeedRoom(rest, caps[1..]);
    }
  }

  /** If the capacities are at least the source lengths, one for one, the cut succeeds: a chain is
      always copied into segments no smaller than its own. */
  lemma {:induction false} SameShapeCuts(lens: seq<nat>, caps: seq<nat>)
    requires |lens| <= |caps| && forall i :: 0 <= i < |lens| ==> lens[i] <= caps[i]
    ensures CutsThrough(lens, caps)
    decreases |caps|
  {
    if lens != [] {
      SameShapeCuts(lens[1..], caps[1..]);
    }
  }

  lemma CutUnfold(lens: seq<nat>, caps: seq<nat>)
    requires lens != [] && caps != []
    ensures CutsThrough(lens, caps)
         == if lens[0] <= caps[0] then CutsThrough(lens[1..], caps[1..])
            else CutsThrough([lens[0] - caps[0]] + lens[1..], caps[1..])
  {
  }

  /** One round of the cut: destination `caps[0]` takes what it can of the `s` bytes still to come
      from source segment `j`. */
  lemma CutStep(lens: seq<nat>, j: nat, s: nat, caps: seq<nat>)
    requires j < |lens| && caps != []
    ensures CutsThrough([s] + lens[j + 1..], caps)
         == CutsThrough(Remaining(lens, if s <= caps[0] then j + 1 else j, s - Min(s, caps[0])), caps[1..])
  {
    hide CutsThrough;
    var l, rest := [s] + lens[j + 1..], lens[j + 1..];
    assert l[0] == s && l[1..] == rest;
    CutUnfold(l, caps);
  }

  /** The bytes of segment `j` from `off` on, seen in the flat packet. */
  lemma FlatWindow(heads: seq<seq<byte>>, j: nat, off: nat, n: nat)
    requires j < |heads| && off + n <= |heads[j]|
    ensures |Flatten(heads[..j])| + off + n <= |Flatten(heads)|
    ensures Flatten(heads)[..|Flatten(heads[..j])| + off] + heads[j][off..off + n]
         == Flatten(heads)[..|Flatten(heads[..j])| + off + n]
  {
    FlattenSplit(heads, j);
  }

  /** How far the copy got: `i` destination segments hold the first `tlen` bytes of the packet, and
      `slen` bytes of source segment `j`, from `soff` on, are still to come (none of it was touched
      yet when `slen == 0`). */
  ghost predicate Progress(heads: seq<seq<byte>>, caps: seq<nat>, i: nat, j: nat, slen: nat, soff: nat,
                           tlen: nat, chunks: seq<seq<byte>>)
  {
    && i == |chunks| <= |caps| && j <= |heads|
    && (i == 0 ==> j == 0 && slen == 0)
    && (slen > 0 ==> j < |heads| && soff + slen == |heads[j]|)
    && tlen == |Flatten(heads[..j])| + (if slen > 0 then soff else 0) <= |Flatten(heads)|
    && Flatten(chunks) == Flatten(heads)[..tlen]
    && CutsThrough(Remaining(Sizes(heads), j, slen), caps[i..]) == CutsThrough(Sizes(heads), caps)
  }

  function Sizes(heads: seq<seq<byte>>): (l: seq<nat>)
    ensures |l| == |heads| && forall i :: 0 <= i < |l| ==> l[i] == |heads[i]|
  {
    seq(|heads|, i requires 0 <= i < |heads| => |heads[i]|)
  }

  /** One round keeps the progress facts; `s` and `off` are the source position after the reload. */
  lemma ProgressStep(heads: seq<seq<byte>>, caps: seq<nat>, i: nat, j: nat, slen: nat, soff: nat,
                     tlen: nat, chunks: seq<seq<byte>>, s: nat, off: nat)
    requires Progress(heads, caps, i, j, slen, soff, tlen, chunks)
    requires i < |caps| && j < |heads|
    requires if slen == 0 then s == |heads[j]| && off == 0 else s == slen && off == soff
    ensures var n := Min(caps[i], s);
      && off + n <= |heads[j]|
      && Progress(heads, caps, i + 1, if s == n then j + 1 else j, s - n, off + n, tlen + n,
                  chunks + [heads[j][off..off + n]])
  {
    hide Flatten, CutsThrough;
    var n, lens := Min(caps[i], s), Sizes(heads);
    assert Remaining(lens, j, slen) == [s] + lens[j + 1..];
    CutStep(lens, j, s, caps[i..]);
    assert caps[i..][1..] == caps[i + 1..];
    FlatStep(heads, j, off, n, tlen, chunks);
  }

  /** Appending the next `n` bytes of segment `j` keeps the copied bytes a prefix of the packet. */
  lemma FlatStep(heads: seq<seq<byte>>, j: nat, off: nat, n: nat, tlen: nat, chunks: seq<seq<byte>>)
    requires j < |heads| && off + n <= |heads[j]|
    requires tlen == |Flatten(heads[..j])| + off <= |Flatten(heads)| && Flatten(chunks) == Flatten(heads)[..tlen]
    ensures tlen + n <= |Flatten(heads)|
    ensures Flatten(chunks + [heads[j][off..off + n]]) == Flatten(heads)[..tlen + n]
    ensures |Flatten(heads[..j + 1])| == |Flatten(heads[..j])| + |heads[j]|
  {
    hide Flatten;
    FlatWindow(heads, j, off, n);
    FlattenAdd(chunks, heads[j][off..off + n]);
    FlattenSnoc(heads, j);
  }

  /** When the loop stops, the source is used up exactly if the cut goes through. */
  lemma ProgressEnd(heads: seq<seq<byte>>, caps: seq<nat>, i: nat, j: nat, slen: nat, soff: nat,
                    tlen: nat, chunks: seq<seq<byte>>)
    requires Progress(heads, caps, i, j, slen, soff, tlen, chunks)
    requires j == |heads| || i == |caps|
    ensures j == |heads| <==> CutsThrough(Sizes(heads), caps)
    ensures j == |heads| ==> tlen == |Flatten(heads)| && Flatten(chunks) == Flatten(heads)
  {
    assert heads[..|heads|] == heads;
  }

  /** `md` is a well-formed packet holding `flat`, with the offload metadata of `pkt`, no segment of
      it filled beyond what was asked for. */
  ghost predicate IsCopy(md: seq<Mbuf>, flat: seq<byte>, pkt: Mbuf, caps: seq<nat>)
    reads md, Bufs(md), pkt
  {
    && 0 < |md| == |caps| && IsChain(md[0], md) && InBounds(md)
    && (forall k :: 0 <= k < |md| ==> md[k].dataLen <= caps[k])
    && Flat(md) == flat
    && md[0].nbSegs == |md| && md[0].pktLen == |flat| == pkt.pktLen
    && md[0].vlanTci == pkt.vlanTci && md[0].vlanTciOuter == pkt.vlanTciOuter
    && md[0].olFlags == pkt.olFlags && md[0].txOffload == pkt.txOffload
  }

  // ---------- mbuf_copy_split ----------

  ghost function Link(md: seq<Mbuf>, k: nat): Mbuf? {
    if k + 1 < |md| then md[k + 1] else null
  }

  /** The first `|chunks|` destination segments hold `chunks` and are linked onwards. */
  ghost predicate Filled(md: seq<Mbuf>, chunks: seq<seq<byte>>, caps: seq<nat>)
    reads md, Bufs(md)
  {
    && |chunks| <= |md| == |caps|
    && forall k {:trigger chunks[k]} {:trigger md[k].dataLen} {:trigger md[k].next} :: 0 <= k < |chunks| ==>
      && md[k].dataLen == |chunks[k]| <= md[k].buf.Length
      && |chunks[k]| <= caps[k]
      && md[k].buf[..md[k].dataLen] == chunks[k]
      && md[k].next == Link(md, k)
  }

  /** The source segments still hold `heads`. */
  ghost predicate Holds(src: seq<Mbuf>, heads: seq<seq<byte>>)
    reads src, Bufs(src)
  {
    |heads| == |src| && forall k :: 0 <= k < |src| ==>
      |heads[k]| == src[k].dataLen <= src[k].buf.Length && src[k].buf[..|heads[k]|] == heads[k]
  }

  lemma HoldsAt(src: seq<Mbuf>, heads: seq<seq<byte>>, j: nat)
    requires Holds(src, heads) && j < |src|
    ensures |heads| == |src| && |heads[j]| == src[j].dataLen
  {
  }

  /** data_len, next and the memcpy of one destination segment; the source is not disturbed. */
  method PlaceChunk(d: Mbuf, nxt: Mbuf?, m: Mbuf, soff: nat, n: nat,
                    ghost md: seq<Mbuf>, ghost chunks: seq<seq<byte>>, ghost caps: seq<nat>,
                    ghost src: seq<Mbuf>, ghost heads: seq<seq<byte>>, ghost j: nat)
    requires Separate(md) && Filled(md, chunks, caps) && |chunks| < |md|
    requires d == md[|chunks|] && nxt == Link(md, |chunks|) && d !in src && d.buf !in Bufs(src)
    requires src != [] && IsChain(src[0], src) && Holds(src, heads)
    requires j < |src| && m == src[j] && soff + n <= |heads[j]|
    requires n <= d.buf.Length && n <= caps[|chunks|]
    modifies d`dataLen, d`next, d.buf
    ensures Filled(md, chunks + [heads[j][soff..soff + n]], caps)
    ensures IsChain(src[0], src) && Holds(src, heads)
  {
    ghost var i := |chunks|;
    ghost var x := heads[j][soff..soff + n];
    assert m.buf[..|heads[j]|] == heads[j];
    forall q | 0 <= q < n
      ensures m.buf[soff + q] == x[q]
    {
      assert heads[j][soff + q] == x[q];
    }
    assert m.buf[soff..soff + n] == x;
    d.dataLen := n;
    d.next := nxt;
    Memcpy(d.buf, 0, m.buf, soff, n);
    assert d.buf[..n] == x;
    assert forall k :: 0 <= k < i ==> md[k] != d && md[k].buf != d.buf;
  }

  lemma Start(heads: seq<seq<byte>>, md: seq<Mbuf>, caps: seq<nat>)
    requires |md| == |caps|
    ensures Progress(heads, caps, 0, 0, 0, 0, 0, []) && Filled(md, [], caps)
  {
  }

  /** The copy loop. */
  method CopyLoop(pkt: Mbuf, md: seq<Mbuf>, seglen: seq<nat>, ghost src: seq<Mbuf>, ghost heads: seq<seq<byte>>)
    returns (ms: Mbuf?, tlen: nat, ghost chunks: seq<seq<byte>>)
    requires src != [] && IsChain(pkt, src) && Holds(src, heads)
    requires Separate(md) && |md| == |seglen| > 0
    requires Bufs(md) !! Bufs(src) && forall m :: m in md ==> m !in src
    requires |heads| > 0 && Min(seglen[0], |heads[0]|) <= md[0].buf.Length
    requires forall k :: 1 <= k < |md| ==> seglen[k] <= md[k].buf.Length
    modifies md, Bufs(md)
    ensures Filled(md, chunks, seglen)
    ensures ms == null <==> CutsThrough(Sizes(heads), seglen)
    ensures ms == null ==> tlen == |Flatten(heads)| && Flatten(chunks) == Flatten(heads)
  {
    hide Progress, Filled, CutsThrough, Flatten, Holds, Separate;
    var i: nat, slen: nat, dlen: nat, soff: nat := 0, 0, 0, 0;
    ms, tlen, chunks := pkt, 0, [];
    ghost var j: nat := 0;
    Start(heads, md, seglen);
    HoldsAt(src, heads, 0);
    while ms != null && i != |md|
      invariant i == |chunks| <= |md| && j <= |src| == |heads| && dlen == 0
      invariant slen > 0 ==> j < |src| && soff + slen == |heads[j]|
      invariant i == 0 ==> j == 0 && slen == 0
      invariant Progress(heads, seglen, i, j, slen, soff, tlen, chunks)
      invariant Filled(md, chunks, seglen) && Holds(src, heads) && IsChain(pkt, src)
      invariant ms == if j < |src| then src[j] else null
      decreases |md| - i
    {
      ghost var slen0, soff0 := slen, soff;
      HoldsAt(src, heads, j);
      if slen == 0 {
        slen := ms.dataLen;
        soff := 0;
      }
      if dlen == 0 {
        dlen := Min(seglen[i], slen);
      }
      var len := Min(slen, dlen);
      ProgressStep(heads, seglen, i, j, slen0, soff0, tlen, chunks, slen, soff);
      PlaceChunk(md[i], if i + 1 == |md| then null else md[i + 1], ms, soff, len,
                 md, chunks, seglen, src, heads, j);
      chunks := chunks + [heads[j][soff..soff + len]];
      tlen, slen, dlen, soff := tlen + len, slen - len, dlen - len, soff + len;
      if slen == 0 {
        assert src[j].next == if j + 1 < |src| then src[j + 1] else null;
        ms := ms.next;
        j := j + 1;
      }
      if dlen == 0 {
        i := i + 1;
      }
    }
    ProgressEnd(heads, seglen, i, j, slen, soff, tlen, chunks);
  }

  lemma {:induction false} FlattenBound(chunks: seq<seq<byte>>, caps: seq<nat>)
    requires |chunks| <= |caps| && forall k :: 0 <= k < |chunks| ==> |chunks[k]| <= caps[k]
    ensures |Flatten(chunks)| <= Sum(caps)
  {
    if chunks != [] {
      FlattenBound(chunks[1..], caps[1..]);
    }
  }

  /** Destination segments that are all filled form the packet of their chunks. */
  lemma FilledIsPacket(md: seq<Mbuf>, chunks: seq<seq<byte>>, caps: seq<nat>)
    requires Filled(md, chunks, caps) && |chunks| == |md| > 0
    ensures IsChain(md[0], md) && InBounds(md) && Flat(md) == Flatten(chunks)
    ensures forall k :: 0 <= k < |md| ==> md[k].dataLen <= caps[k]
  {
    assert forall k :: 0 <= k < |md| ==> md[k].dataLen == |chunks[k]|;
    assert Heads(Rooms(md), Lens(md)) == chunks;
  }

  /** Too little was copied to have used the last destination segment. */
  lemma AllFilled(md: seq<Mbuf>, chunks: seq<seq<byte>>, caps: seq<nat>, pktLen: nat)
    requires Filled(md, chunks, caps) && md != []
    requires Sum(caps[..|md| - 1]) < pktLen && |Flatten(chunks)| == pktLen
    ensures |chunks| == |md|
  {
    if |chunks| < |md| {
      FlattenBound(chunks, caps[..|md| - 1]);
    }
  }

  /** mbuf_copy_split: the segment count on success, -ENOBUFS when the destination segments run out,
      -EINVAL when the source chain does not hold the length it announces. The caller picks capacities
      that do not hold the packet without the last one; so success fills and links every segment. */
  method MbufCopySplit(pkt: Mbuf, md: seq<Mbuf>, seglen: seq<nat>, ghost src: seq<Mbuf>, ghost heads: seq<seq<byte>>)
    returns (rc: int)
    requires src != [] && IsChain(pkt, src) && Holds(src, heads)
    requires Separate(md) && |md| == |seglen| > 0
    requires Bufs(md) !! Bufs(src) && forall m :: m in md ==> m !in src
    requires |heads| > 0 && Min(seglen[0], |heads[0]|) <= md[0].buf.Length
    requires forall k :: 1 <= k < |md| ==> seglen[k] <= md[k].buf.Length
    requires Sum(seglen[..|md| - 1]) < pkt.pktLen
    modifies md, Bufs(md)
    ensures rc == if !CutsThrough(Sizes(heads), seglen) then -ENOBUFS
                  else if |Flatten(heads)| != pkt.pktLen then -EINVAL
                  else |md|
    ensures rc >= 0 ==> IsCopy(md, Flatten(heads), pkt, seglen)
  {
    hide CutsThrough, Flatten, Sum, Filled, Holds, Separate, IsCopy, Progress;
    assert pkt == src[0] && pkt !in md;
    ghost var chunks;
    var ms, tlen;
    ms, tlen, chunks := CopyLoop(pkt, md, seglen, src, heads);
    if ms != null {
      return -ENOBUFS;
    } else if tlen != pkt.pktLen {
      return -EINVAL;
    }
    AllFilled(md, chunks, seglen, pkt.pktLen);
    FilledIsPacket(md, chunks, seglen);
    Announce(md[0], |md|, md, tlen, pkt, chunks, seglen);
    rc := |md|;
  }

  /** The first segment carries the packet-wide fields. */
  method Announce(d: Mbuf, nbSeg: nat, ghost md: seq<Mbuf>, tlen: nat, pkt: Mbuf,
                  ghost chunks: seq<seq<byte>>, ghost seglen: seq<nat>)
    requires Filled(md, chunks, seglen) && |chunks| == |md| > 0 && d == md[0] && nbSeg == |md| && d != pkt
    requires tlen == |Flatten(chunks)| == pkt.pktLen
    modifies d`nbSegs, d`pktLen, d`vlanTci, d`vlanTciOuter, d`olFlags, d`txOffload
    ensures IsCopy(md, Flatten(chunks), pkt, seglen)
  {
    d.nbSegs := nbSeg;
    d.pktLen := tlen;
    d.vlanTci := pkt.vlanTci;
    d.vlanTciOuter := pkt.vlanTciOuter;
    d.olFlags := pkt.olFlags;
    d.txOffload := pkt.txOffload;
    FilledIsPacket(md, chunks, seglen);
  }

  // ---------- pkt_copy_split ----------

  /** The mbuf pool: `live` are the segments handed out and not yet given back. Whether an allocation
      succeeds is up to the environment. */
  class Mempool {
    const room: nat  // tailroom of a fresh segment
    ghost var live: set<Mbuf>
    ghost var refused: bool

    constructor (room: nat)
      ensures this.room == room && live == {} && !refused
    {
      this.room, live, refused := room, {}, false;
    }

    method Alloc() returns (p: Mbuf?)
      modifies this
      ensures p != null ==> fresh(p) && fresh(p.buf) && p.buf.Length == room
      ensures p != null ==> live == old(live) + {p} && refused == old(refused)
      ensures p == null ==> live == old(live) && refused
    {
      if * {
        p := null;
        refused := true;
      } else {
        p := new Mbuf(room);
        live := live + {p};
      }
    }

    /** rte_pktmbuf_free_seg: a segment can only be given back while it is out. */
    method FreeSeg(m: Mbuf)
      requires m in live
      modifies this
      ensures live == old(live) - {m} && refused == old(refused)
    {
      live := live - {m};
    }
  }

  function ToInt32(x: int): int {
    var r := x % 0x1_0000_0000;
    if r < 0x8000_0000 then r else r - 0x1_0000_0000
  }

  /** How many of the configured segment lengths it takes to reach `pktLen`. */
  function Used(tx: seq<nat>, pktLen: nat, i: nat): (u: nat)
    requires i <= |tx|
    ensures i <= u <= |tx|
    ensures i < u ==> Sum(tx[..u - 1]) < pktLen
    ensures u < |tx| ==> Sum(tx[..u]) >= pktLen
    decreases |tx| - i
  {
    if i == |tx| || Sum(tx[..i]) >= pktLen then i else Used(tx, pktLen, i + 1)
  }

  /** The capacities asked for: the configured lengths that are needed, the last one enlarged by the
      rest of the packet, in 16 bits. */
  function SegPlan(tx: seq<nat>, pktLen: nat): seq<nat>
    requires tx != [] && pktLen > 0
  {
    var u := Used(tx, pktLen, 0);
    var n := ToInt32(pktLen - Sum(tx[..u]));
    if n >= 0 then tx[..u - 1] + [(tx[u - 1] + n) % U16] else tx[..u]
  }

  /** The plan never holds the packet without its last segment; it holds the packet exactly when
      what is left for the last segment fits 16 bits. */
  lemma SegPlanRoom(tx: seq<nat>, pktLen: nat)
    requires tx != [] && 0 < pktLen < 0x1_0000_0000 && forall i :: 0 <= i < |tx| ==> tx[i] < U16
    ensures var plan := SegPlan(tx, pktLen);
      && 0 < |plan| <= |tx| && plan[..|plan| - 1] == tx[..|plan| - 1]
      && Sum(plan[..|plan| - 1]) < pktLen
      && (Sum(plan) >= pktLen <==> pktLen - Sum(plan[..|plan| - 1]) < U16)
  {
    hide Sum;
    var u, plan := Used(tx, pktLen, 0), SegPlan(tx, pktLen);
    assert u > 0 by {
      assert tx[..0] == [] && Sum([]) == 0 by { EmptySum(); }
    }
    SumSnoc(tx, u - 1);
    SumSnoc(plan, u - 1);
    assert plan[..u] == plan && plan[..u - 1] == tx[..u - 1];
    LastSegment(Sum(tx[..u - 1]), tx[u - 1], pktLen);
  }

  /** The configured lengths up to the first that reaches the packet's length, or all of them; the last one
      takes what is still missing, in 16 bits, unless that is 2 GiB or more. */
  ghost predicate PlanIs(plan: seq<nat>, tx: seq<nat>, pktLen: nat) {
    && 0 < |plan| <= |tx|
    && (forall i :: 0 <= i < |plan| ==> Sum(tx[..i]) < pktLen)
    && (|plan| == |tx| || Sum(tx[..|plan|]) >= pktLen)
    && var missing := pktLen - Sum(tx[..|plan|]);
       && (forall i :: 0 <= i < |plan| - 1 ==> plan[i] == tx[i])
       && (missing < 0 || missing >= 0x8000_0000 ==> plan[|plan| - 1] == tx[|plan| - 1])
       && (0 <= missing < 0x8000_0000 ==> plan[|plan| - 1] == (tx[|plan| - 1] + missing) % 0x1_0000)
  }

  lemma SegPlanIs(tx: seq<nat>, pktLen: nat)
    requires tx != [] && 0 < pktLen < 0x1_0000_0000 && forall i :: 0 <= i < |tx| ==> tx[i] < U16
    ensures PlanIs(SegPlan(tx, pktLen), tx, pktLen)
  {
    hide Sum;
    SegPlanRoom(tx, pktLen);
    var u, plan := Used(tx, pktLen, 0), SegPlan(tx, pktLen);
    EmptySum();
    assert tx[..0] == [];
    SumSnoc(tx, u - 1);
    assert plan[..u - 1] == tx[..u - 1];
    forall i | 0 <= i < u - 1
      ensures Sum(tx[..i]) < pktLen
      ensures plan[i] == tx[i]
    {
      SumGrows(tx, i, u - 1);
      assert plan[i] == plan[..u - 1][i] == tx[..u - 1][i];
    }
  }

  lemma SumGrows(s: seq<nat>, i: nat, j: nat)
    requires i <= j <= |s|
    ensures Sum(s[..i]) <= Sum(s[..j])
  {
    assert s[..j] == s[..i] + s[i..j];
    SumAppend(s[..i], s[i..j]);
  }

  lemma EmptySum()
    ensures Sum([]) == 0
  {
  }

  /** The arithmetic of the last segment: `before` bytes precede it, `last` is its configured length. */
  lemma LastSegment(before: nat, last: nat, pktLen: nat)
    requires before < pktLen < 0x1_0000_0000 && last < U16
    ensures var n := ToInt32(pktLen - (before + last));
      before + (if n >= 0 then (last + n) % U16 else last) >= pktLen <==> pktLen - before < U16
  {
    var x := pktLen - (before + last);
    if x < 0 {
      assert ToInt32(x) == x;
    } else if x < 0x8000_0000 {
      assert ToInt32(x) == x;
    } else {
      assert ToInt32(x) < 0;
    }
  }

  /** pkt_copy_split: `tx` are the configured lengths of the segments to use (tx_pkt_nb_segs of them,
      or a random number from 1 up). Success hands out a faithful copy in exactly the planned segments
      and keeps nothing else; failure gives every allocated segment back. The tailroom requirement is
      what the code misses: a first segment found too small is not skipped, so its chunk must fit. */
  method PktCopySplit(pkt: Mbuf, pool: Mempool, tx: seq<nat>, ghost src: seq<Mbuf>, ghost heads: seq<seq<byte>>)
    returns (p: Mbuf?, ghost md: seq<Mbuf>)
    requires src != [] && IsChain(pkt, src) && Holds(src, heads)
    requires tx != [] && forall i :: 0 <= i < |tx| ==> tx[i] < U16
    requires 0 < pkt.pktLen < 0x1_0000_0000
    requires |heads| > 0 && Min(SegPlan(tx, pkt.pktLen)[0], |heads[0]|) <= pool.room
    requires !pool.refused
    modifies pool
    ensures p != null ==> md != [] && p == md[0] && fresh(md)
    ensures p != null ==> IsCopy(md, Flatten(heads), pkt, SegPlan(tx, pkt.pktLen))
    ensures pool.live == if p == null then old(pool.live) else old(pool.live) + set m | m in md
    ensures p != null <==>
      && !pool.refused
      && (forall k :: 1 <= k < |SegPlan(tx, pkt.pktLen)| ==> SegPlan(tx, pkt.pktLen)[k] <= pool.room)
      && CutsThrough(Sizes(heads), SegPlan(tx, pkt.pktLen))
      && |Flatten(heads)| == pkt.pktLen
  {
    hide CutsThrough, Flatten, Sum, Filled, IsCopy, Progress;
    SegPlanRoom(tx, pkt.pktLen);
    var seglen := ChooseLens(tx, pkt.pktLen);
    var i, segs := AllocSegs(pool, seglen, src);
    var rc := 0;
    md := segs;
    if i == 0 {
      rc := MbufCopySplit(pkt, segs, seglen, src, heads);
    }
    if i == 0 && rc >= 0 {
      return segs[0], segs;
    }
    FreeSegs(pool, segs);
    p := null;
  }

  /** The first loop of pkt_copy_split. */
  method ChooseLens(tx: seq<nat>, pktLen: nat) returns (seglen: seq<nat>)
    requires tx != [] && 0 < pktLen < 0x1_0000_0000 && forall i :: 0 <= i < |tx| ==> tx[i] < U16
    ensures seglen == SegPlan(tx, pktLen) && PlanIs(seglen, tx, pktLen)
  {
    hide PlanIs;
    SegPlanIs(tx, pktLen);
    var i, len: nat := 0, 0;
    while i != |tx| && len < pktLen
      invariant 0 <= i <= |tx| && len == Sum(tx[..i])
      invariant Used(tx, pktLen, i) == Used(tx, pktLen, 0)
    {
      SumSnoc(tx, i);
      len := len + tx[i];
      i := i + 1;
    }
    var n := ToInt32(pktLen - len);
    seglen := tx[..i];
    if n >= 0 {
      seglen := seglen[i - 1 := (seglen[i - 1] + n) % U16];
    }
  }

  /** The allocation loop, last segment first. Stops early, with `i > 0`, when the pool refuses or a
      segment other than the first has too little tailroom. */
  method AllocSegs(pool: Mempool, seglen: seq<nat>, ghost src: seq<Mbuf>) returns (i: nat, md: seq<Mbuf>)
    requires seglen != [] && !pool.refused
    modifies pool
    ensures fresh(md) && fresh(Bufs(md)) && Separate(md) && forall m :: m in md ==> m.buf.Length == pool.room
    ensures pool.live == old(pool.live) + set m | m in md
    ensures i == 0 ==> |md| == |seglen|
    ensures i == 0 <==> !pool.refused && forall k :: 1 <= k < |seglen| ==> seglen[k] <= pool.room
  {
    i, md := |seglen|, [];
    while i != 0
      invariant i + |md| == |seglen| && !pool.refused
      invariant fresh(md) && fresh(Bufs(md)) && Separate(md)
      invariant forall m :: m in md ==> m.buf.Length == pool.room
      invariant pool.live == old(pool.live) + set m | m in md
      invariant forall k :: 1 <= k < |seglen| && i <= k ==> seglen[k] <= pool.room
    {
      var p := pool.Alloc();
      if p == null {
        return;
      }
      i := i - 1;
      md := [p] + md;
      assert Bufs(md) == {p.buf} + Bufs(md[1..]);
      if p.buf.Length < seglen[i] {
        return;
      }
    }
  }

  method FreeSegs(pool: Mempool, md: seq<Mbuf>)
    requires Separate(md) && forall m :: m in md ==> m in pool.live
    modifies pool
    ensures pool.live == old(pool.live) - set m | m in md
    ensures pool.refused == old(pool.refused)
  {
    var i := 0;
    while i != |md|
      invariant 0 <= i <= |md| && pool.refused == old(pool.refused)
      invariant pool.live == old(pool.live) - set m | m in md[..i]
      invariant forall m :: m in md[i..] ==> m in pool.live
    {
      pool.FreeSeg(md[i]);
      i := i + 1;
    }
  }

  /** A consistent one-segment packet is never refused by the cut, whatever lengths are configured. */
  lemma OneSegmentPacketCuts(tx: seq<nat>, pktLen: nat)
    requires tx != [] && 0 < pktLen < U16 && forall i :: 0 <= i < |tx| ==> tx[i] < U16
    ensures CutsThrough([pktLen], SegPlan(tx, pktLen))
  {
    SegPlanRoom(tx, pktLen);
    OneSegmentCuts(pktLen, SegPlan(tx, pktLen));
  }

  /** For several source segments enough room in all is not enough: a destination segment never spans
      two source segments. */
  lemma RoomIsNotEnough()
    ensures Sum([3, 3]) == Sum([4, 2]) && !CutsThrough([3, 3], [4, 2])
  {
    assert [3, 3][1..] == [3] && [4, 2][1..] == [2] && [3][1..] == [] && [2][1..] == [];
    assert [3 - 2] + [3][1..] == [1];
  }
}
