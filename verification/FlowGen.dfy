/** The flow generator (flowgen.c): bursts built from cloned packets, a flow counter that runs ahead
    while a burst is built and is backed out by what could not be sent. */
module FlowGen {
  import opened Common

  const U32 := 0x1_0000_0000

  /** The part of a generated packet buffer that matters here. */
  class Mbuf {
    var refcnt: nat
    var dstAddr: nat

    /** rte_mbuf_raw_alloc hands out a buffer with one reference; its headers are written next. */
    constructor (dstAddr: nat)
      ensures refcnt == 1 && this.dstAddr == dstAddr
    {
      refcnt, this.dstAddr := 1, dstAddr;
    }
  }

  /** The flow whose address packet `k` of a burst carries, in packets since the start of the burst:
      that of the first packet built from the same buffer. */
  function Leader(k: nat, clones: nat): nat {
    k - k % (clones + 1)
  }

  /** The flow counter after `n` packets. */
  function FlowAt(n: int, flows: nat): (f: int)
    requires flows > 0
    ensures 0 <= f < flows
  {
    n % flows
  }

  /** The destination address of flow number `n`, counted round the flows. */
  function FlowAddr(ipDst: nat, n: int, flows: nat): nat
    requires flows > 0
  {
    (ipDst + FlowAt(n, flows)) % U32
  }

  lemma FlowAddrOf(ipDst: nat, n: int, flows: nat)
    requires flows > 0
    ensures (ipDst + FlowAt(n, flows)) % U32 == FlowAddr(ipDst, n, flows)
  {
  }

  /** A transmit queue as the driver sees it: the packets it has taken over, in order, and what it was
      offered in each call. */
  class TxQueue {
    ghost var taken: seq<Mbuf>
    ghost var offers: seq<seq<Mbuf>>

    constructor ()
      ensures taken == [] && offers == []
    {
      taken, offers := [], [];
    }

    /** rte_eth_tx_burst: the driver takes any number of packets from the front. */
    method TxBurst(pkts: seq<Mbuf>) returns (k: nat)
      modifies this
      ensures k <= |pkts| && taken == old(taken) + pkts[..k] && offers == old(offers) + [pkts]
    {
      k :| 0 <= k <= |pkts|;
      taken, offers := taken + pkts[..k], offers + [pkts];
    }
  }

  /** A forwarding stream's own counters. */
  class FlowStream {
    const queue: TxQueue
    var txPackets: nat
    var fwdDropped: nat
    ghost var built: nat            // packets ever put into a burst
    ghost var handed: seq<Mbuf>     // packets the driver took from this stream

    /** The packets counted as transmitted are those the driver took, and every packet built was either
        taken or dropped. */
    ghost predicate Valid()
      reads this
    {
      txPackets == |handed| && txPackets + fwdDropped == built
    }

    constructor (queue: TxQueue)
      ensures Valid() && this.queue == queue && txPackets == fwdDropped == built == 0
    {
      this.queue := queue;
      txPackets, fwdDropped, built, handed := 0, 0, 0, [];
    }
  }

  /** The packets each stream has transmitted. */
  ghost function Sent(streams: seq<FlowStream>): (s: seq<nat>)
    reads streams
    ensures |s| == |streams| && forall i :: 0 <= i < |s| ==> s[i] == streams[i].txPackets
  {
    seq(|streams|, i requires 0 <= i < |streams| reads streams => streams[i].txPackets)
  }

  /** fs->tx_packets has grown: so has the total. */
  lemma SentMore(streams: seq<FlowStream>, fs: FlowStream, was: seq<nat>, nbTx: nat)
    requires Distinct(streams) && fs in streams && |was| == |streams|
    requires forall i :: 0 <= i < |streams| ==>
      streams[i].txPackets == if streams[i] == fs then was[i] + nbTx else was[i]
    ensures Sum(Sent(streams)) == Sum(was) + nbTx
  {
    var k :| 0 <= k < |streams| && streams[k] == fs;
    assert Sent(streams) == was[k := was[k] + nbTx];
    SumRaised(was, k, nbTx);
  }

  /** A forwarding lcore: one flow counter for all the streams it runs. */
  class FlowLcore {
    const flows: nat
    const ipDst: nat
    const streams: seq<FlowStream>
    ghost const start: int  // where the counter stands when nothing has been sent
    var nextFlow: int       // _next_flow of the lcore

    /** What every burst of every stream keeps: the counter stands exactly at the packets all streams of
        the lcore have transmitted, counted round the flows. */
    ghost predicate Valid()
      reads this, streams
    {
      && flows > 0
      && Distinct(streams)
      && (forall fs :: fs in streams ==> fs.Valid())
      && nextFlow == FlowAt(start + Sum(Sent(streams)), flows)
    }

    constructor (flows: nat, ipDst: nat, streams: seq<FlowStream>, nextFlow: nat)
      requires nextFlow < flows && Distinct(streams) && forall fs :: fs in streams ==> fs.Valid()
      ensures Valid() && this.flows == flows && this.ipDst == ipDst && this.streams == streams
      ensures this.nextFlow == nextFlow && start == nextFlow - Sum(Sent(streams))
    {
      this.flows, this.ipDst, this.streams, this.nextFlow := flows, ipDst, streams, nextFlow;
      start := nextFlow - Sum(Sent(streams));
      new;
      Settled(nextFlow, flows);
    }

    /** The build loop; the burst is shorter than asked for only if the pool ran dry. */
    method BuildBurst(perBurst: nat, cfgClones: nat) returns (burst: seq<Mbuf>, next: int)
      requires 0 <= nextFlow < flows
      ensures |burst| <= perBurst && next == FlowAt(nextFlow + |burst|, flows)
      ensures fresh(burst) && Built(burst, Min(cfgClones, perBurst), nextFlow, flows, ipDst)
    {
      hide Built, Leader, FlowAt, FlowAddr;
      ghost var c := Min(cfgClones, perBurst);
      next, burst := nextFlow, [];
      var nbClones := cfgClones;
      var last: Mbuf? := null;
      Settled(nextFlow, flows);
      BuiltNothing(c, nextFlow, flows, ipDst);
      for nbPkt := 0 to perBurst
        invariant |burst| == nbPkt && next == FlowAt(nextFlow + nbPkt, flows)
        invariant fresh(burst) && Built(burst, c, nextFlow, flows, ipDst)
        invariant nbPkt > 0 ==> last == burst[nbPkt - 1] && nbClones == c - (nbPkt - 1 - Leader(nbPkt - 1, c))
      {
        if nbPkt > 0 { LeaderStep(nbPkt - 1, c); }
        LeaderStep(nbPkt, c);
        var pkt: Mbuf;
        if nbPkt == 0 || nbClones == 0 {
          nbClones := cfgClones;
          if nbClones > perBurst {
            nbClones := perBurst;
          }
          if * {
            return;  // rte_mbuf_raw_alloc failed
          }
          FlowAddrOf(ipDst, nextFlow + nbPkt, flows);
          pkt := new Mbuf((ipDst + next) % U32);
          BuiltFirst(burst, pkt, c, nextFlow, flows, ipDst);
        } else {
          nbClones, pkt := nbClones - 1, last;
          AddReference(pkt, burst, c, nextFlow, flows, ipDst);
        }
        burst, last := burst + [pkt], pkt;
        NextFlowStep(nextFlow + nbPkt, flows);
        next := next + 1;
        if next >= flows {
          next := 0;
        }
      }
    }

    /** One call of the engine: build, transmit with retries, back out and free what was not taken. The
        counter and the stream's count advance by exactly the packets the driver took over, and each
        buffer is left with exactly the references it took. */
    method PktBurst(fs: FlowStream, perBurst: nat, cfgClones: nat, retryEnabled: bool, retryNum: nat)
      returns (burst: seq<Mbuf>, ghost took: seq<Mbuf>)
      requires 0 <= nextFlow < flows && fs.Valid()
      modifies `nextFlow, fs, fs.queue
      ensures fs.Valid() && |burst| <= perBurst && fresh(burst)
      ensures fs.queue.taken == old(fs.queue.taken) + took && took <= burst
      ensures fs.handed == old(fs.handed) + took && fs.built == old(fs.built) + |burst|
      ensures nextFlow == (old(nextFlow) + |took|) % flows
      ensures forall m :: m in burst ==> m.refcnt == multiset(took)[m]
      ensures SharedInRuns(burst, Min(cfgClones, perBurst))
      ensures Addressed(burst, Min(cfgClones, perBurst), old(nextFlow), flows, ipDst)
    {
      hide Leader, SharedInRuns, FlowAddr;
      var next;
      burst, next := BuildBurst(perBurst, cfgClones);
      ghost var tries;
      var nbTx;
      nbTx, tries := Transmit(fs.queue, burst, retryEnabled, retryNum);
      took := burst[..nbTx];
      fs.txPackets := fs.txPackets + nbTx;
      fs.handed := fs.handed + took;
      fs.built := fs.built + |burst|;
      var nbDropped := |burst| - nbTx;
      if nbDropped > 0 {
        next := BackOut(next, nextFlow + |burst|, nbDropped, flows);
        fs.fwdDropped := fs.fwdDropped + nbDropped;
        FreeRest(burst, nbTx);
      } else {
        assert burst[..nbTx] == burst;
      }
      nextFlow := next;
    }

    /** A burst of any stream of the lcore, at any time. */
    method Forward(fs: FlowStream, perBurst: nat, cfgClones: nat, retryEnabled: bool, retryNum: nat)
      returns (burst: seq<Mbuf>, ghost took: seq<Mbuf>)
      requires Valid() && fs in streams
      modifies this, fs, fs.queue
      ensures Valid() && |burst| <= perBurst && took <= burst
      ensures Sum(Sent(streams)) == old(Sum(Sent(streams))) + |took|
      ensures fs.queue.taken == old(fs.queue.taken) + took
      ensures fs.handed == old(fs.handed) + took && fs.built == old(fs.built) + |burst|
      ensures forall m :: m in burst ==> m.refcnt == multiset(took)[m]
      ensures Addressed(burst, Min(cfgClones, perBurst), old(start + Sum(Sent(streams))), flows, ipDst)
    {
      hide FlowAt, Distinct, Sum, SharedInRuns, Leader, Addressed;
      ghost var was := Sent(streams);
      burst, took := PktBurst(fs, perBurst, cfgClones, retryEnabled, retryNum);
      SentMore(streams, fs, was, |took|);
      AddressedFrom(burst, Min(cfgClones, perBurst), start + Sum(was), flows, ipDst);
      FlowAtSum(start + Sum(was), |took|, flows);
      FlowAtIs(FlowAt(start + Sum(was), flows) + |took|, flows);
    }

    /** run_pkt_fwd_on_lcore: all streams in turn, pass after pass until stopped. */
    method Run(passes: nat, perBurst: nat, cfgClones: nat, retryEnabled: bool, retryNum: nat)
      requires Valid()
      modifies this, streams, set fs | fs in streams :: fs.queue
      ensures Valid() && nextFlow == (old(nextFlow) + Sum(Sent(streams)) - old(Sum(Sent(streams)))) % flows
    {
      hide FlowAt, Distinct, Sum, SharedInRuns, Addressed;
      for pass := 0 to passes
        invariant Valid()
      {
        for smId := 0 to |streams|
          invariant Valid()
        {
          var burst;
          ghost var took;
          burst, took := Forward(streams[smId], perBurst, cfgClones, retryEnabled, retryNum);
        }
      }
      ghost var was: int, now: int := old(Sum(Sent(streams))), Sum(Sent(streams));
      FlowAtSum(start + was, now - was, flows);
      FlowAtIs(FlowAt(start + was, flows) + (now - was), flows);
    }
  }

  lemma FlowAtIs(n: int, flows: nat)
    requires flows > 0
    ensures FlowAt(n, flows) == n % flows
  {
  }

  /** The transmit call and its retries: the driver ends up with the first `nbTx` packets, each once and in
      order. Each try offers what the tries before it left, and never nothing but the first time; with
      retries enabled they end when all is taken or their number is used up. */
  method Transmit(queue: TxQueue, burst: seq<Mbuf>, retryEnabled: bool, retryNum: nat)
    returns (nbTx: nat, ghost tries: seq<seq<Mbuf>>)
    modifies queue
    ensures nbTx <= |burst| && queue.taken == old(queue.taken) + burst[..nbTx]
    ensures queue.offers == old(queue.offers) + tries && |tries| > 0 && tries[0] == burst
    ensures forall i :: 0 < i < |tries| ==> 0 < |tries[i]| <= |burst| && tries[i] == burst[|burst| - |tries[i]|..]
    ensures !retryEnabled ==> |tries| == 1
    ensures |tries| <= 1 + retryNum && (retryEnabled && nbTx < |burst| ==> |tries| == 1 + retryNum)
  {
    nbTx := queue.TxBurst(burst);
    tries := [burst];
    if nbTx < |burst| && retryEnabled {
      var retry := 0;
      while nbTx < |burst| && retry < retryNum
        invariant nbTx <= |burst| && queue.taken == old(queue.taken) + burst[..nbTx]
        invariant queue.offers == old(queue.offers) + tries && |tries| == 1 + retry && tries[0] == burst
        invariant forall i :: 0 < i < |tries| ==>
          0 < |tries[i]| <= |burst| && tries[i] == burst[|burst| - |tries[i]|..]
        invariant retry <= retryNum
        decreases retryNum - retry
      {
        retry := retry + 1;
        var left := burst[nbTx..];
        var k := queue.TxBurst(left);
        tries := tries + [left];
        assert burst[..nbTx] + left[..k] == burst[..nbTx + k];
        nbTx := nbTx + k;
      }
    }
  }

  /** Backing out the counter: it ends where it would stand had the dropped packets not been built. */
  method BackOut(counter: int, ghost n: int, dropped: nat, flows: nat) returns (next: int)
    requires flows > 0 && counter == FlowAt(n, flows)
    ensures next == FlowAt(n - dropped, flows)
  {
    hide FlowAt;
    next := counter - dropped;
    FlowAtSum(n, 0 - dropped, flows);
    while next < 0
      invariant next < flows && FlowAt(next, flows) == FlowAt(n - dropped, flows)
    {
      FlowAtRound(next, flows);
      next := next + flows;
    }
    Settled(next, flows);
  }

  lemma FlowAtRound(n: int, flows: nat)
    requires flows > 0
    ensures FlowAt(n + flows, flows) == FlowAt(n, flows)
  {
    assert flows * (n / flows + 1) == flows * (n / flows) + flows;
    DivModUnique(n + flows, flows, n / flows + 1, n % flows);
  }

  /** Reducing the counter on the way does not matter. */
  lemma FlowAtSum(n: int, k: int, flows: nat)
    requires flows > 0
    ensures FlowAt(FlowAt(n, flows) + k, flows) == FlowAt(n + k, flows)
  {
    var q, q', r := n / flows, (n % flows + k) / flows, (n % flows + k) % flows;
    assert flows * (q + q') == flows * q + flows * q';
    DivModUnique(n + k, flows, q + q', r);
  }

  /** The references of the buffers of `burst` are those counted by `refs`. */
  ghost predicate Refs(burst: seq<Mbuf>, refs: multiset<Mbuf>)
    reads burst
  {
    forall m :: m in burst ==> m.refcnt == refs[m]
  }

  /** rte_pktmbuf_free gives one reference back. */
  method Free(m: Mbuf, ghost burst: seq<Mbuf>, ghost refs: multiset<Mbuf>)
    requires m in burst && Refs(burst, refs + multiset{m})
    modifies m`refcnt
    ensures Refs(burst, refs)
  {
    m.refcnt := m.refcnt - 1;
  }

  /** Every place after the first `nbTx` gives up its reference, once. */
  method FreeRest(burst: seq<Mbuf>, nbTx: nat)
    requires nbTx < |burst| && Referenced(burst)
    modifies burst`refcnt
    ensures Refs(burst, multiset(burst[..nbTx]))
  {
    hide Refs;
    ghost var kept := multiset(burst[..nbTx]);
    SplitRefs(burst, nbTx);
    for i := nbTx to |burst|
      invariant Refs(burst, kept + multiset(burst[i..]))
    {
      assert burst[i..] == [burst[i]] + burst[i + 1..];
      assert kept + multiset(burst[i..]) == kept + multiset(burst[i + 1..]) + multiset{burst[i]};
      Free(burst[i], burst, kept + multiset(burst[i + 1..]));
    }
    assert kept + multiset(burst[|burst|..]) == kept;
  }

  lemma SplitRefs(burst: seq<Mbuf>, i: nat)
    requires i <= |burst| && Referenced(burst)
    ensures Refs(burst, multiset(burst[..i]) + multiset(burst[i..]))
  {
    assert burst == burst[..i] + burst[i..];
  }

  /** A buffer's references are its places in `burst`. */
  ghost predicate Referenced(burst: seq<Mbuf>)
    reads burst
  {
    Refs(burst, multiset(burst))
  }

  /** Two places hold the same buffer exactly if they are in the same run of `c + 1` packets. */
  ghost predicate SharedInRuns(burst: seq<Mbuf>, c: nat) {
    forall j, k :: 0 <= j < k < |burst| ==> (burst[j] == burst[k] <==> Leader(j, c) == Leader(k, c))
  }

  /** A buffer carries the flow of the first packet of its run. */
  ghost predicate Addressed(burst: seq<Mbuf>, c: nat, from: int, flows: nat, ipDst: nat)
    requires flows > 0
    reads burst
  {
    forall k :: 0 <= k < |burst| ==> burst[k].dstAddr == FlowAddr(ipDst, from + Leader(k, c), flows)
  }

  /** In numbers: runs are counted by division, and the k-th packet's address is the configured one plus
      its run's first flow, in 32 bits. */
  lemma InNumbers(burst: seq<Mbuf>, c: nat, from: int, flows: nat, ipDst: nat, j: nat, k: nat)
    requires flows > 0 && SharedInRuns(burst, c) && Addressed(burst, c, from, flows, ipDst)
    requires j < |burst| && k < |burst|
    ensures burst[j] == burst[k] <==> j / (c + 1) == k / (c + 1)
    ensures burst[k].dstAddr == (ipDst + (from + (c + 1) * (k / (c + 1))) % flows) % 0x1_0000_0000
  {
    LeaderIs(k, c);
    LeaderIs(j, c);
    hide Leader;
    var a, b := j / (c + 1), k / (c + 1);
    if a < b {
      MulGap(c + 1, a, b);
    } else if b < a {
      MulGap(c + 1, b, a);
    }
  }

  lemma LeaderIs(k: nat, c: nat)
    ensures Leader(k, c) == (c + 1) * (k / (c + 1))
  {
  }

  /** The flows go on from one burst to the next, whichever stream sends it. */
  lemma AddressedFrom(burst: seq<Mbuf>, c: nat, n: int, flows: nat, ipDst: nat)
    requires flows > 0 && Addressed(burst, c, FlowAt(n, flows), flows, ipDst)
    ensures Addressed(burst, c, n, flows, ipDst)
  {
    hide FlowAt, Leader;
    forall k | 0 <= k < |burst|
      ensures burst[k].dstAddr == FlowAddr(ipDst, n + Leader(k, c), flows)
    {
      FlowAtSum(n, Leader(k, c), flows);
    }
  }

  ghost predicate Built(burst: seq<Mbuf>, c: nat, from: int, flows: nat, ipDst: nat)
    requires flows > 0
    reads burst
  {
    Referenced(burst) && SharedInRuns(burst, c) && Addressed(burst, c, from, flows, ipDst)
  }

  lemma BuiltNothing(c: nat, from: int, flows: nat, ipDst: nat)
    requires flows > 0
    ensures Built([], c, from, flows, ipDst)
  {
  }

  lemma Settled(f: int, flows: nat)
    requires 0 <= f < flows
    ensures FlowAt(f, flows) == f
  {
    DivModUnique(f, flows, 0, f);
  }

  lemma NextFlowStep(x: nat, flows: nat)
    requires flows > 0
    ensures FlowAt(x + 1, flows) == if FlowAt(x, flows) + 1 >= flows then 0 else FlowAt(x, flows) + 1
  {
    DivStep(x, flows);
  }

  /** A buffer just allocated starts a run. */
  lemma BuiltFirst(burst: seq<Mbuf>, pkt: Mbuf, c: nat, from: int, flows: nat, ipDst: nat)
    requires flows > 0 && Built(burst, c, from, flows, ipDst)
    requires pkt !in burst && pkt.refcnt == 1 && Leader(|burst|, c) == |burst|
    requires pkt.dstAddr == FlowAddr(ipDst, from + |burst|, flows)
    ensures Built(burst + [pkt], c, from, flows, ipDst)
  {
    hide Leader, FlowAddr;
    assert SharedInRuns(burst + [pkt], c) by {
      forall j | 0 <= j < |burst|
        ensures burst[j] != pkt && Leader(j, c) != Leader(|burst|, c)
      {
        LeaderStep(j, c);
      }
    }
    assert Referenced(burst + [pkt]) by {
      assert multiset(burst + [pkt]) == multiset(burst) + multiset{pkt};
    }
  }

  /** The run of the last packet goes on. */
  lemma SharedOn(burst: seq<Mbuf>, c: nat)
    requires burst != [] && SharedInRuns(burst, c) && Leader(|burst|, c) == Leader(|burst| - 1, c)
    ensures SharedInRuns(burst + [burst[|burst| - 1]], c)
  {
    hide Leader;
    var last := |burst| - 1;
    assert forall j :: 0 <= j < last ==> (burst[j] == burst[last] <==> Leader(j, c) == Leader(last, c));
  }

  /** rte_mbuf_refcnt_update(pkt, 1): the last buffer of the burst is used once more. */
  method AddReference(pkt: Mbuf, ghost burst: seq<Mbuf>, ghost c: nat,
           ghost from: int, ghost flows: nat, ghost ipDst: nat)
    requires flows > 0 && Built(burst, c, from, flows, ipDst)
    requires burst != [] && pkt == burst[|burst| - 1] && Leader(|burst|, c) == Leader(|burst| - 1, c)
    modifies pkt`refcnt
    ensures Built(burst + [pkt], c, from, flows, ipDst)
  {
    hide Leader, SharedInRuns, FlowAddr;
    SharedOn(burst, c);
    pkt.refcnt := pkt.refcnt + 1;
    assert multiset(burst + [pkt]) == multiset(burst) + multiset{pkt};
  }

  /** A packet either starts a run or belongs to the run of the packet before it. */
  lemma LeaderStep(k: nat, c: nat)
    ensures Leader(0, c) == 0 && Leader(k, c) <= k <= Leader(k, c) + c
    ensures Leader(k + 1, c) == if k - Leader(k, c) == c then k + 1 else Leader(k, c)
  {
    DivStep(k, c + 1);
  }
}
