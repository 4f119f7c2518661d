/** The forwarding configuration of config.c: streams over (port, queue) pairs, transmit ports by
    topology, streams over lcores. */
module FwdConfig {
  import opened Common

  class FwdLcore {
    var streamIdx: nat
    var streamNb: nat

    constructor ()
    {
      streamIdx, streamNb := 0, 0;
    }
  }

  class FwdStream {
    var rxPort: nat
    var rxQueue: nat
    var txPort: nat
    var txQueue: nat
    var lcore: FwdLcore?

    constructor ()
    {
      rxPort, rxQueue, txPort, txQueue, lcore := 0, 0, 0, 0, null;
    }
  }

  // ---------- streams over lcores ----------

  /** A run of streams: first one and how many. */
  datatype Span = Span(idx: nat, nb: nat)

  /** How many streams lcore `lc` gets. */
  function ShareNb(nbFs: nat, nbFc: nat, lc: nat): nat
    requires nbFc > 0
  {
    if nbFs <= nbFc then 1
    else if lc < nbFc - nbFs % nbFc then nbFs / nbFc
    else nbFs / nbFc + 1
  }

  /** Where its streams start: right behind those of the lcores before it. */
  function ShareIdx(nbFs: nat, nbFc: nat, lc: nat): nat
    requires nbFc > 0
  {
    if lc == 0 then 0 else ShareIdx(nbFs, nbFc, lc - 1) + ShareNb(nbFs, nbFc, lc - 1)
  }

  function Share(nbFs: nat, nbFc: nat, lc: nat): Span
    requires nbFc > 0
  {
    Span(ShareIdx(nbFs, nbFc, lc), ShareNb(nbFs, nbFc, lc))
  }

  lemma ShareStart(nbFs: nat, nbFc: nat)
    requires nbFc > 0
    ensures ShareIdx(nbFs, nbFc, 0) == 0
  {
  }

  lemma ShareStep(nbFs: nat, nbFc: nat, l: nat)
    requires nbFc > 0
    ensures ShareIdx(nbFs, nbFc, l + 1) == ShareIdx(nbFs, nbFc, l) + ShareNb(nbFs, nbFc, l)
    ensures ShareNb(nbFs, nbFc, l) == if nbFs <= nbFc then 1
      else if l < nbFc - nbFs % nbFc then nbFs / nbFc else nbFs / nbFc + 1
  {
  }

  lemma {:induction false} ShareIdxClosed(nbFs: nat, nbFc: nat, lc: nat, q: nat, r: nat)
    requires 0 < nbFc < nbFs && lc <= nbFc && q == nbFs / nbFc && r == nbFs % nbFc
    ensures ShareIdx(nbFs, nbFc, lc) == q * lc + if lc <= nbFc - r then 0 else lc - (nbFc - r)
  {
    hide ShareNb, ShareIdx;
    if lc == 0 {
      ShareStart(nbFs, nbFc);
    } else {
      ShareIdxClosed(nbFs, nbFc, lc - 1, q, r);
      ShareStep(nbFs, nbFc, lc - 1);
      assert q * lc == q * (lc - 1) + q;
    }
  }

  lemma {:induction false} ShareIdxOnes(nbFs: nat, nbFc: nat, lc: nat)
    requires nbFs <= nbFc && nbFc > 0
    ensures ShareIdx(nbFs, nbFc, lc) == lc
  {
    if lc > 0 {
      ShareIdxOnes(nbFs, nbFc, lc - 1);
    }
  }

  /** The lcores' runs end exactly where the streams do if and only if there are no more lcores than
      streams. */
  lemma SharesCover(nbFs: nat, nbFc: nat)
    requires nbFc > 0
    ensures ShareIdx(nbFs, nbFc, nbFc) == nbFs <==> nbFc <= nbFs
  {
    if nbFs <= nbFc {
      ShareIdxOnes(nbFs, nbFc, nbFc);
    } else {
      ShareIdxClosed(nbFs, nbFc, nbFc, nbFs / nbFc, nbFs % nbFc);
      assert nbFs == nbFc * (nbFs / nbFc) + nbFs % nbFc;
    }
  }

  /** No lcore gets more than one stream more than another, nor more than a later one. */
  lemma SharesEven(nbFs: nat, nbFc: nat, a: nat, b: nat)
    requires nbFc > 0
    ensures ShareNb(nbFs, nbFc, a) <= ShareNb(nbFs, nbFc, b) + 1
    ensures a <= b ==> ShareNb(nbFs, nbFc, a) <= ShareNb(nbFs, nbFc, b)
  {
  }

  predicate InSpan(sm: nat, s: Span) {
    s.idx <= sm < s.idx + s.nb
  }

  lemma {:induction false} SharesRise(nbFs: nat, nbFc: nat, a: nat, b: nat)
    requires nbFc > 0 && a <= b
    ensures ShareIdx(nbFs, nbFc, a) <= ShareIdx(nbFs, nbFc, b)
    decreases b
  {
    if a < b {
      SharesRise(nbFs, nbFc, a, b - 1);
    }
  }

  /** The lcore a stream belongs to. */
  function LcoreOf(nbFs: nat, nbFc: nat, sm: nat, n: nat): (lc: nat)
    requires nbFc > 0 && sm < ShareIdx(nbFs, nbFc, n)
    ensures lc < n && InSpan(sm, Share(nbFs, nbFc, lc))
  {
    if sm >= ShareIdx(nbFs, nbFc, n - 1) then n - 1 else LcoreOf(nbFs, nbFc, sm, n - 1)
  }

  /** Every stream belongs to exactly one lcore. */
  lemma OneLcoreEach(nbFs: nat, nbFc: nat, sm: nat)
    requires 0 < nbFc <= nbFs && sm < nbFs
    ensures exists lc :: 0 <= lc < nbFc && InSpan(sm, Share(nbFs, nbFc, lc))
    ensures forall a, b | 0 <= a < nbFc && 0 <= b < nbFc ::
      InSpan(sm, Share(nbFs, nbFc, a)) && InSpan(sm, Share(nbFs, nbFc, b)) ==> a == b
  {
    SharesCover(nbFs, nbFc);
    var lc := LcoreOf(nbFs, nbFc, sm, nbFc);
    forall a: nat, b: nat | a < b < nbFc && InSpan(sm, Share(nbFs, nbFc, a)) && InSpan(sm, Share(nbFs, nbFc, b))
      ensures false
    {
      SharesRise(nbFs, nbFc, a + 1, b);
    }
  }

  /** The lcores' own fields: each run starts where the one before it ends, the longer runs come last and are
      longer by one, and they end with the last stream if there are at least as many streams as lcores;
      otherwise each run is one long. */
  ghost predicate Partition(lcores: seq<FwdLcore>, nbFs: nat, nbFc: nat)
    reads lcores
  {
    && nbFc <= |lcores|
    && (forall l :: 0 <= l < nbFc ==>
         lcores[l].streamIdx == if l == 0 then 0 else lcores[l - 1].streamIdx + lcores[l - 1].streamNb)
    && (forall a, b :: 0 <= a <= b < nbFc ==> lcores[a].streamNb <= lcores[b].streamNb <= lcores[a].streamNb + 1)
    && (nbFs <= nbFc ==> forall l :: 0 <= l < nbFc ==> lcores[l].streamNb == 1)
    && (0 < nbFc <= nbFs ==> lcores[nbFc - 1].streamIdx + lcores[nbFc - 1].streamNb == nbFs)
  }

  lemma SharesPartition(lcores: seq<FwdLcore>, nbFs: nat, nbFc: nat)
    requires 0 < nbFc <= |lcores|
    requires forall l :: 0 <= l < nbFc ==> Span(lcores[l].streamIdx, lcores[l].streamNb) == Share(nbFs, nbFc, l)
    ensures Partition(lcores, nbFs, nbFc)
  {
    forall l | 0 < l < nbFc
      ensures lcores[l].streamIdx == lcores[l - 1].streamIdx + lcores[l - 1].streamNb
    {
      ShareStep(nbFs, nbFc, l - 1);
    }
    forall a, b | 0 <= a <= b < nbFc
      ensures lcores[a].streamNb <= lcores[b].streamNb <= lcores[a].streamNb + 1
    {
      SharesEven(nbFs, nbFc, a, b);
      SharesEven(nbFs, nbFc, b, a);
    }
    ShareStep(nbFs, nbFc, nbFc - 1);
    SharesCover(nbFs, nbFc);
  }

  /** setup_fwd_config_of_each_lcore. */
  method SetupEachLcore(lcores: seq<FwdLcore>, nbFs: nat, nbFc: nat)
    requires nbFc <= |lcores| && Distinct(lcores) && (nbFc == 0 ==> nbFs == 0)
    modifies lcores
    ensures forall l :: 0 <= l < nbFc ==> Span(lcores[l].streamIdx, lcores[l].streamNb) == Share(nbFs, nbFc, l)
    ensures Partition(lcores, nbFs, nbFc)
  {
    hide Partition;
    if nbFc == 0 {
      NoPartition(lcores, nbFs);
      return;
    }
    hide ShareIdx, ShareNb;
    var perLcore, nbExtra := 1, 0;
    if nbFs > nbFc {
      perLcore, nbExtra := nbFs / nbFc, nbFs % nbFc;
    }
    var nbLc, smId := nbFc - nbExtra, 0;
    ShareStart(nbFs, nbFc);
    for l := 0 to nbLc
      invariant smId == ShareIdx(nbFs, nbFc, l)
      invariant forall i :: 0 <= i < l ==> Span(lcores[i].streamIdx, lcores[i].streamNb) == Share(nbFs, nbFc, i)
    {
      ShareStep(nbFs, nbFc, l);
      lcores[l].streamIdx := smId;
      lcores[l].streamNb := perLcore;
      smId := smId + perLcore;
    }
    perLcore := perLcore + 1;
    for l := 0 to nbExtra
      invariant smId == ShareIdx(nbFs, nbFc, nbLc + l)
      invariant forall i :: 0 <= i < nbLc + l ==> Span(lcores[i].streamIdx, lcores[i].streamNb) == Share(nbFs, nbFc, i)
    {
      ShareStep(nbFs, nbFc, nbLc + l);
      lcores[nbLc + l].streamIdx := smId;
      lcores[nbLc + l].streamNb := perLcore;
      smId := smId + perLcore;
    }
    SharesPartition(lcores, nbFs, nbFc);
  }

  lemma NoPartition(lcores: seq<FwdLcore>, nbFs: nat)
    ensures Partition(lcores, nbFs, 0)
  {
  }

  // ---------- transmit ports by topology ----------

  datatype Topology = PAIRED | CHAINED | LOOP

  /** fwd_topology_tx_port_get, on positions in the list of forwarding ports. */
  function TxPort(topo: Topology, rxp: nat, n: nat): (txp: nat)
    requires rxp < n
    ensures txp < n
  {
    match topo
    case PAIRED => if rxp % 2 == 0 then (if rxp + 1 < n then rxp + 1 else rxp) else rxp - 1
    case CHAINED => (rxp + 1) % n
    case LOOP => rxp
  }

  /** The port whose packets leave through `txp`. */
  function RxPort(topo: Topology, txp: nat, n: nat): (rxp: nat)
    requires txp < n
    ensures rxp < n
  {
    match topo
    case PAIRED => TxPort(PAIRED, txp, n)
    case CHAINED => if txp == 0 then n - 1 else txp - 1
    case LOOP => txp
  }

  lemma ChainedStep(rxp: nat, n: nat)
    requires rxp < n
    ensures (rxp + 1) % n == if rxp + 1 == n then 0 else rxp + 1
  {
    if rxp + 1 == n {
      DivModUnique(rxp + 1, n, 1, 0);
    } else {
      DivModUnique(rxp + 1, n, 0, rxp + 1);
    }
  }

  /** In every topology the transmit ports are a permutation of the receive ports. */
  lemma TopologyPermutes(topo: Topology, p: nat, n: nat)
    requires p < n
    ensures TxPort(topo, RxPort(topo, p, n), n) == p && RxPort(topo, TxPort(topo, p, n), n) == p
  {
    if topo == CHAINED {
      ChainedStep(RxPort(topo, p, n), n);
      ChainedStep(p, n);
    }
  }

  /** Paired ports answer each other; a port pairs with itself only if it is the last of an odd number. */
  lemma PairsAreMutual(p: nat, n: nat)
    requires p < n
    ensures TxPort(PAIRED, TxPort(PAIRED, p, n), n) == p
    ensures TxPort(PAIRED, p, n) == p <==> n % 2 == 1 && p == n - 1
  {
  }

  // ---------- streams over (port, queue) pairs ----------

  /** The queue of the `round`-th pass over the ports. */
  function QueueOf(round: nat, start: nat, queues: nat): nat {
    if queues == 0 then start else start + round % queues
  }

  /** What stream `sm` receives from, as (position of the port, queue). */
  function PollOf(sm: nat, nbPorts: nat, start: nat, queues: nat): (nat, nat)
    requires nbPorts > 0
  {
    (sm % nbPorts, QueueOf(sm / nbPorts, start, queues))
  }

  /** What stream `sm` sends to. */
  function SendOf(sm: nat, nbPorts: nat, start: nat, queues: nat, topo: Topology): (nat, nat)
    requires nbPorts > 0
  {
    (TxPort(topo, sm % nbPorts, nbPorts), QueueOf(sm / nbPorts, start, queues))
  }

  lemma NextQueue(round: nat, start: nat, queues: nat)
    ensures var q := QueueOf(round, start, queues);
      QueueOf(round + 1, start, queues) == if q + 1 >= start + queues then start else q + 1
  {
    if queues > 0 {
      DivStep(round, queues);
    }
  }

  ghost predicate Planned(fs: FwdStream, sm: nat, ids: seq<nat>, start: nat, queues: nat, topo: Topology)
    requires ids != []
    reads fs
  {
    var poll, send := PollOf(sm, |ids|, start, queues), SendOf(sm, |ids|, start, queues, topo);
    && (fs.rxPort, fs.rxQueue) == (ids[poll.0], poll.1)
    && (fs.txPort, fs.txQueue) == (ids[send.0], send.1)
  }

  /** The stream loop of rss_fwd_config_setup. */
  method AssignStreams(streams: seq<FwdStream>, nbFs: nat, ids: seq<nat>, start: nat, end: nat, topo: Topology)
    requires nbFs <= |streams| && Distinct(streams) && start <= end && (ids == [] ==> nbFs == 0)
    modifies streams
    ensures ids != [] ==> forall i :: 0 <= i < nbFs ==> Planned(streams[i], i, ids, start, end - start, topo)
  {
    if nbFs == 0 {
      return;
    }
    hide TxPort, QueueOf;
    var rxp: nat, rxq: nat := 0, start;
    FirstPoll(|ids|, start, end - start);
    for sm := 0 to nbFs
      invariant rxp < |ids| && (rxp, rxq) == PollOf(sm, |ids|, start, end - start)
      invariant forall i :: 0 <= i < sm ==> Planned(streams[i], i, ids, start, end - start, topo)
    {
      var fs, txp := streams[sm], TxPort(topo, rxp, |ids|);
      fs.rxPort, fs.rxQueue, fs.txPort, fs.txQueue := ids[rxp], rxq, ids[txp], rxq;
      assert forall i :: 0 <= i < sm ==> streams[i] != fs;
      NextPoll(sm, |ids|, start, end - start);
      rxp := rxp + 1;
      if rxp < |ids| {
        continue;
      }
      rxp, rxq := 0, rxq + 1;
      if rxq >= end {
        rxq := start;
      }
    }
  }

  lemma FirstPoll(nbPorts: nat, start: nat, queues: nat)
    requires nbPorts > 0
    ensures PollOf(0, nbPorts, start, queues) == (0, start)
  {
    DivModUnique(0, nbPorts, 0, 0);
    if queues > 0 {
      DivModUnique(0, queues, 0, 0);
    }
  }

  lemma NextPoll(sm: nat, nbPorts: nat, start: nat, queues: nat)
    requires nbPorts > 0
    ensures var (rxp, rxq) := PollOf(sm, nbPorts, start, queues);
      PollOf(sm + 1, nbPorts, start, queues) ==
        if rxp + 1 < nbPorts then (rxp + 1, rxq)
        else (0, if rxq + 1 >= start + queues then start else rxq + 1)
  {
    DivStep(sm, nbPorts);
    NextQueue(sm / nbPorts, start, queues);
  }

  /** The first queue of a process and how many it has. */
  function FirstQueue(procId: nat, nbQ: nat, numProcs: nat): nat
    requires numProcs > 0
  {
    procId * nbQ / numProcs
  }

  function QueueShare(nbQ: nat, numProcs: nat): nat
    requires numProcs > 0
  {
    nbQ / numProcs
  }

  // ---------- what the assignment achieves ----------

  /** The stream that polls queue `q` of the `p`-th port in a single process. */
  function StreamFor(p: nat, q: nat, nbPorts: nat): nat {
    nbPorts * q + p
  }

  lemma StreamForPolls(p: nat, q: nat, nbPorts: nat, nbQ: nat)
    requires p < nbPorts && q < nbQ
    ensures StreamFor(p, q, nbPorts) < nbQ * nbPorts
    ensures PollOf(StreamFor(p, q, nbPorts), nbPorts, 0, nbQ) == (p, q)
  {
    DivModUnique(StreamFor(p, q, nbPorts), nbPorts, q, p);
    DivModUnique(q, nbQ, 0, q);
    MulGap(nbPorts, q, nbQ);
  }

  lemma PollDetermines(sm: nat, nbPorts: nat, nbQ: nat)
    requires nbPorts > 0 && sm < nbQ * nbPorts
    ensures sm / nbPorts < nbQ
    ensures var (p, q) := PollOf(sm, nbPorts, 0, nbQ); p < nbPorts && q < nbQ && sm == StreamFor(p, q, nbPorts)
  {
    var r := sm / nbPorts;
    if r >= nbQ {
      MulLe(nbPorts, nbQ, r);
    }
    assert r < nbQ;
    DivModUnique(r, nbQ, 0, r);
  }

  lemma MulLe(d: nat, a: int, b: int)
    requires a <= b
    ensures d * a <= d * b
  {
    if a < b {
      MulGap(d, a, b);
    }
  }

  /** With one process every queue of every forwarding port is polled by exactly one stream, and that
      stream runs on exactly one lcore. */
  lemma EveryQueuePolledOnce(p: nat, q: nat, nbPorts: nat, nbQ: nat, nbFc: nat)
    requires p < nbPorts && q < nbQ && 0 < nbFc <= nbQ * nbPorts
    ensures var sm := StreamFor(p, q, nbPorts);
      && sm < nbQ * nbPorts && PollOf(sm, nbPorts, 0, nbQ) == (p, q)
      && (forall s: nat :: s < nbQ * nbPorts && PollOf(s, nbPorts, 0, nbQ) == (p, q) ==> s == sm)
      && exists lc :: 0 <= lc < nbFc && InSpan(sm, Share(nbQ * nbPorts, nbFc, lc))
  {
    StreamForPolls(p, q, nbPorts, nbQ);
    OneLcoreEach(nbQ * nbPorts, nbFc, StreamFor(p, q, nbPorts));
    forall s: nat | s < nbQ * nbPorts && PollOf(s, nbPorts, 0, nbQ) == (p, q)
      ensures s == StreamFor(p, q, nbPorts)
    {
      PollDetermines(s, nbPorts, nbQ);
    }
  }

  /** ... and every transmit queue below the limit belongs to exactly one stream, in every topology. */
  lemma EveryQueueSentOnce(t: nat, q: nat, nbPorts: nat, nbQ: nat, topo: Topology)
    requires t < nbPorts && q < nbQ
    ensures var sm := StreamFor(RxPort(topo, t, nbPorts), q, nbPorts);
      && sm < nbQ * nbPorts && SendOf(sm, nbPorts, 0, nbQ, topo) == (t, q)
      && forall s: nat :: s < nbQ * nbPorts && SendOf(s, nbPorts, 0, nbQ, topo) == (t, q) ==> s == sm
  {
    var p := RxPort(topo, t, nbPorts);
    StreamForPolls(p, q, nbPorts, nbQ);
    TopologyPermutes(topo, t, nbPorts);
    forall s: nat | s < nbQ * nbPorts && SendOf(s, nbPorts, 0, nbQ, topo) == (t, q)
      ensures s == StreamFor(p, q, nbPorts)
    {
      PollDetermines(s, nbPorts, nbQ);
      TopologyPermutes(topo, s % nbPorts, nbPorts);
    }
  }

  ghost predicate Polls(fs: FwdStream, port: nat, queue: nat)
    reads fs
  {
    fs.rxPort == port && fs.rxQueue == queue
  }

  ghost predicate Sends(fs: FwdStream, port: nat, queue: nat)
    reads fs
  {
    fs.txPort == port && fs.txQueue == queue
  }

  ghost predicate Runs(lc: FwdLcore, sm: nat)
    reads lc
  {
    InSpan(sm, Span(lc.streamIdx, lc.streamNb))
  }

  /** Exactly one stream polls the queue, and exactly one lcore runs that stream. */
  ghost predicate OnePoller(streams: seq<FwdStream>, lcores: seq<FwdLcore>, nbFc: nat, port: nat, queue: nat)
    requires nbFc <= |lcores|
    reads streams, lcores
  {
    exists sm, l :: 0 <= sm < |streams| && 0 <= l < nbFc
      && Polls(streams[sm], port, queue) && Runs(lcores[l], sm)
      && (forall s :: 0 <= s < |streams| && Polls(streams[s], port, queue) ==> s == sm)
      && (forall m :: 0 <= m < nbFc && Runs(lcores[m], sm) ==> m == l)
  }

  /** Exactly one stream sends to the queue. */
  ghost predicate OneSender(streams: seq<FwdStream>, port: nat, queue: nat)
    reads streams
  {
    exists sm :: 0 <= sm < |streams| && Sends(streams[sm], port, queue)
      && (forall s :: 0 <= s < |streams| && Sends(streams[s], port, queue) ==> s == sm)
  }

  /** That holds of every queue below the limit of every forwarding port. */
  ghost predicate AllServed(streams: seq<FwdStream>, lcores: seq<FwdLcore>, nbFc: nat, ids: seq<nat>, nbQ: nat)
    requires nbFc <= |lcores|
    reads streams, lcores
  {
    forall p: nat, q: nat :: p < |ids| && q < nbQ ==>
      OnePoller(streams, lcores, nbFc, ids[p], q) && OneSender(streams, ids[p], q)
  }

  lemma OneProcess(nbQ: nat)
    ensures FirstQueue(0, nbQ, 1) == 0 && QueueShare(nbQ, 1) == nbQ
  {
  }

  lemma PlannedIs(fs: FwdStream, sm: nat, ids: seq<nat>, nbQ: nat, topo: Topology, p: nat, t: nat, q: nat)
    requires ids != [] && Distinct(ids) && Planned(fs, sm, ids, 0, nbQ, topo) && p < |ids| && t < |ids|
    ensures Polls(fs, ids[p], q) <==> PollOf(sm, |ids|, 0, nbQ) == (p, q)
    ensures Sends(fs, ids[t], q) <==> SendOf(sm, |ids|, 0, nbQ, topo) == (t, q)
  {
    hide QueueOf, TxPort;
  }

  /** On the streams and lcores as they are set up for a single process. */
  lemma Serves(streams: seq<FwdStream>, lcores: seq<FwdLcore>, nbFc: nat, ids: seq<nat>, nbQ: nat, topo: Topology,
               p: nat, q: nat)
    requires p < |ids| && q < nbQ && Distinct(ids) && |streams| == nbQ * |ids| && 0 < nbFc <= |lcores|
    requires nbFc <= |streams|
    requires forall l :: 0 <= l < nbFc ==> Span(lcores[l].streamIdx, lcores[l].streamNb) == Share(|streams|, nbFc, l)
    requires forall i :: 0 <= i < |streams| ==> Planned(streams[i], i, ids, 0, nbQ, topo)
    ensures OnePoller(streams, lcores, nbFc, ids[p], q) && OneSender(streams, ids[p], q)
  {
    hide ShareIdx, ShareNb, Planned, PollOf, SendOf, Polls, Sends, Distinct, StreamFor, RxPort;
    var n := |ids|;
    var sm, ss := StreamFor(p, q, n), StreamFor(RxPort(topo, p, n), q, n);
    EveryQueuePolledOnce(p, q, n, nbQ, nbFc);
    EveryQueueSentOnce(p, q, n, nbQ, topo);
    OneLcoreEach(nbQ * n, nbFc, sm);
    forall s | 0 <= s < |streams|
      ensures Polls(streams[s], ids[p], q) <==> s == sm
      ensures Sends(streams[s], ids[p], q) <==> s == ss
    {
      PlannedIs(streams[s], s, ids, nbQ, topo, p, p, q);
    }
    var l :| 0 <= l < nbFc && InSpan(sm, Share(nbQ * n, nbFc, l));
    assert Polls(streams[sm], ids[p], q) && Runs(lcores[l], sm);
    assert Sends(streams[ss], ids[p], q);
  }

  lemma ServesAll(streams: seq<FwdStream>, lcores: seq<FwdLcore>, nbFc: nat, ids: seq<nat>, nbQ: nat, topo: Topology)
    requires Distinct(ids) && |streams| == nbQ * |ids| && nbFc <= |lcores| && nbFc <= |streams|
    requires |streams| > 0 ==> nbFc > 0
    requires nbFc > 0 ==>
      forall l :: 0 <= l < nbFc ==> Span(lcores[l].streamIdx, lcores[l].streamNb) == Share(|streams|, nbFc, l)
    requires ids != [] ==> forall i :: 0 <= i < |streams| ==> Planned(streams[i], i, ids, 0, nbQ, topo)
    ensures AllServed(streams, lcores, nbFc, ids, nbQ)
  {
    hide ShareIdx, ShareNb, Planned, OnePoller, OneSender, Distinct;
    forall p: nat, q: nat | p < |ids| && q < nbQ
      ensures OnePoller(streams, lcores, nbFc, ids[p], q) && OneSender(streams, ids[p], q)
    {
      MulGap(|ids|, 0, nbQ);
      Serves(streams, lcores, nbFc, ids, nbQ, topo, p, q);
    }
  }

  /** Where stream `sm` takes its packets from and sends them: the ports in turn, the queues of the process
      in turn, out through the same queue number of the partner, of the next port in the ring, or of the
      port itself. */
  ghost predicate Routed(fs: FwdStream, sm: nat, ids: seq<nat>, nbQ: nat, procId: nat, numProcs: nat, topo: Topology)
    requires ids != [] && numProcs > 0
    reads fs
  {
    var p, n, own := sm % |ids|, |ids|, nbQ / numProcs;
    && fs.rxPort == ids[p] && fs.txQueue == fs.rxQueue
    && fs.rxQueue == procId * nbQ / numProcs + (if own == 0 then 0 else sm / n % own)
    && (topo == LOOP ==> fs.txPort == ids[p])
    && (topo == CHAINED ==> fs.txPort == if p == n - 1 then ids[0] else ids[p + 1])
    && (topo == PAIRED && p % 2 == 1 ==> fs.txPort == ids[p - 1])
    && (topo == PAIRED && p % 2 == 0 ==> fs.txPort == if p == n - 1 then ids[p] else ids[p + 1])
  }

  lemma PlannedRoutes(fs: FwdStream, sm: nat, ids: seq<nat>, nbQ: nat, procId: nat, numProcs: nat, topo: Topology)
    requires ids != [] && numProcs > 0
    requires Planned(fs, sm, ids, FirstQueue(procId, nbQ, numProcs), QueueShare(nbQ, numProcs), topo)
    ensures Routed(fs, sm, ids, nbQ, procId, numProcs, topo)
  {
    ChainedStep(sm % |ids|, |ids|);
  }

  /** rss_fwd_config_setup. In a single process with distinct forwarding ports it serves every queue. */
  method RssFwdConfigSetup(nbRxq: nat, nbTxq: nat, nbFwdLcores: nat, ids: seq<nat>, procId: nat, numProcs: nat,
                           topo: Topology, lcores: seq<FwdLcore>, streams: seq<FwdStream>)
    returns (nbFs: nat, nbFc: nat)
    requires 0 < numProcs && 0 < nbFwdLcores <= |lcores|
    requires Min(nbRxq, nbTxq) * |ids| == |streams| < 0x1_0000
    requires Distinct(lcores) && Distinct(streams)
    modifies lcores, streams
    ensures nbFs == Min(nbRxq, nbTxq) * |ids| && nbFc == Min(nbFwdLcores, nbFs)
    ensures nbFc > 0 ==> forall l :: 0 <= l < nbFc ==>
      Span(lcores[l].streamIdx, lcores[l].streamNb) == Share(nbFs, nbFc, l)
    ensures var nbQ := Min(nbRxq, nbTxq);
      ids != [] ==> forall i :: 0 <= i < nbFs ==>
        Planned(streams[i], i, ids, FirstQueue(procId, nbQ, numProcs), QueueShare(nbQ, numProcs), topo)
    ensures ids != [] ==> forall i :: 0 <= i < nbFs ==>
      Routed(streams[i], i, ids, Min(nbRxq, nbTxq), procId, numProcs, topo)
    ensures Partition(lcores, nbFs, nbFc)
    ensures numProcs == 1 && procId == 0 && Distinct(ids) ==>
      AllServed(streams, lcores, nbFc, ids, Min(nbRxq, nbTxq))
  {
    hide ShareIdx, ShareNb, Planned, FirstQueue, QueueShare, AllServed, Distinct, Partition, Routed;
    var nbQ := nbRxq;
    if nbQ > nbTxq {
      nbQ := nbTxq;
    }
    nbFc := nbFwdLcores;
    nbFs := nbQ * |ids|;
    if nbFs < nbFc {
      nbFc := nbFs;
    }
    SetupEachLcore(lcores, nbFs, nbFc);
    var start := FirstQueue(procId, nbQ, numProcs);
    var end := start + QueueShare(nbQ, numProcs);
    AssignStreams(streams, nbFs, ids, start, end, topo);
    forall i | ids != [] && 0 <= i < nbFs
      ensures Routed(streams[i], i, ids, nbQ, procId, numProcs, topo)
    {
      PlannedRoutes(streams[i], i, ids, nbQ, procId, numProcs, topo);
    }
    if numProcs == 1 && procId == 0 && Distinct(ids) {
      OneProcess(nbQ);
      ServesAll(streams, lcores, nbFc, ids, nbQ, topo);
    }
  }

  /** No two of the streams poll the same queue of the same port. */
  ghost predicate PollsDistinct(nbFs: nat, nbPorts: nat, start: nat, queues: nat)
    requires nbPorts > 0
  {
    forall a: nat, b: nat | a < b < nbFs :: PollOf(a, nbPorts, start, queues) != PollOf(b, nbPorts, start, queues)
  }

  lemma RoundStart(round: nat, nbPorts: nat, start: nat, queues: nat)
    requires nbPorts > 0 && (queues == 0 || round == 0 || round == queues)
    ensures PollOf(nbPorts * round, nbPorts, start, queues) == (0, start)
  {
    DivModUnique(nbPorts * round, nbPorts, round, 0);
    if queues > 0 {
      DivModUnique(round, queues, if round == 0 then 0 else 1, 0);
    }
  }

  /** The streams of a process poll distinct queues only if it is the only process, or if there is at
      most one queue per port: the number of streams is not divided among the processes. */
  lemma DistinctPollsIff(nbPorts: nat, nbQ: nat, procId: nat, numProcs: nat)
    requires nbPorts > 0 && procId < numProcs
    ensures PollsDistinct(nbQ * nbPorts, nbPorts, FirstQueue(procId, nbQ, numProcs), QueueShare(nbQ, numProcs))
       <==> numProcs == 1 || nbQ <= 1
  {
    hide PollsDistinct;
    if numProcs == 1 {
      OneProcessDistinct(nbPorts, nbQ);
    } else if nbQ <= 1 {
      OneRoundDistinct(nbQ * nbPorts, nbPorts, FirstQueue(procId, nbQ, numProcs), QueueShare(nbQ, numProcs));
    } else {
      FewerQueues(nbQ, numProcs);
      RoundsRepeat(nbQ, nbPorts, FirstQueue(procId, nbQ, numProcs), QueueShare(nbQ, numProcs));
    }
  }

  lemma OneProcessDistinct(nbPorts: nat, nbQ: nat)
    requires nbPorts > 0
    ensures PollsDistinct(nbQ * nbPorts, nbPorts, 0, nbQ)
  {
    hide PollOf;
    forall a: nat, b: nat | a < b < nbQ * nbPorts
      ensures PollOf(a, nbPorts, 0, nbQ) != PollOf(b, nbPorts, 0, nbQ)
    {
      PollDetermines(a, nbPorts, nbQ);
      PollDetermines(b, nbPorts, nbQ);
    }
  }

  lemma OneRoundDistinct(nbFs: nat, nbPorts: nat, start: nat, queues: nat)
    requires 0 < nbPorts && nbFs <= nbPorts
    ensures PollsDistinct(nbFs, nbPorts, start, queues)
  {
    hide QueueOf;
    forall a: nat, b: nat | a < b < nbFs
      ensures PollOf(a, nbPorts, start, queues) != PollOf(b, nbPorts, start, queues)
    {
      DivModUnique(a, nbPorts, 0, a);
      DivModUnique(b, nbPorts, 0, b);
    }
  }

  lemma RoundsRepeat(nbQ: nat, nbPorts: nat, start: nat, queues: nat)
    requires nbPorts > 0 && queues < nbQ && nbQ > 1
    ensures !PollsDistinct(nbQ * nbPorts, nbPorts, start, queues)
  {
    hide PollOf;
    var round := if queues == 0 then 1 else queues;
    RoundStart(0, nbPorts, start, queues);
    RoundStart(round, nbPorts, start, queues);
    MulGap(nbPorts, 0, round);
    MulGap(nbPorts, round, nbQ);
    assert PollOf(nbPorts * 0, nbPorts, start, queues) == PollOf(nbPorts * round, nbPorts, start, queues);
  }

  lemma FewerQueues(nbQ: nat, numProcs: nat)
    requires numProcs >= 2 && nbQ > 0
    ensures nbQ / numProcs < nbQ
  {
    var q := nbQ / numProcs;
    assert nbQ == numProcs * q + nbQ % numProcs;
    if q >= nbQ {
      MulLe(q, 2, numProcs);
    }
  }
}
