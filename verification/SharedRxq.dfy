/** The check of config.c that a shared receive queue is not polled from two lcores. */
module SharedRxq {
  import opened Common
  import opened FwdConfig

  /** What the check reads of a receive queue's port and configuration. */
  datatype RxqInfo = RxqInfo(capable: bool, domain: nat, group: nat, qid: nat)

  /** Which shared queue a queue is part of, if any. */
  datatype Key = Key(domain: nat, group: nat, qid: nat)

  function SharedKey(q: RxqInfo): Option<Key> {
    if !q.capable || q.group == 0 then None else Some(Key(q.domain, q.group, q.qid))
  }

  /** The shared queue of every stream, and the run of streams of every lcore. */
  ghost function Keys(streams: seq<FwdStream>, info: (nat, nat) -> RxqInfo): (k: seq<Option<Key>>)
    reads streams
    ensures |k| == |streams|
    ensures forall i :: 0 <= i < |k| ==> k[i] == SharedKey(info(streams[i].rxPort, streams[i].rxQueue))
  {
    seq(|streams|, i requires 0 <= i < |streams| reads streams =>
      SharedKey(info(streams[i].rxPort, streams[i].rxQueue)))
  }

  ghost function Spans(lcores: seq<FwdLcore>): (s: seq<Span>)
    reads lcores
    ensures |s| == |lcores| && forall l :: 0 <= l < |s| ==> s[l] == Span(lcores[l].streamIdx, lcores[l].streamNb)
  {
    seq(|lcores|, l requires 0 <= l < |lcores| reads lcores => Span(lcores[l].streamIdx, lcores[l].streamNb))
  }

  ghost predicate Fits(spans: seq<Span>, n: nat) {
    forall l :: 0 <= l < |spans| ==> spans[l].idx + spans[l].nb <= n
  }

  /** Streams `s` and `t`, scheduled on different lcores, poll the same shared queue. */
  ghost predicate Clash(keys: seq<Option<Key>>, spans: seq<Span>, a: nat, s: nat, b: nat, t: nat) {
    && a < |spans| && b < |spans| && a != b
    && InSpan(s, spans[a]) && InSpan(t, spans[b]) && s < |keys| && t < |keys|
    && keys[s].Some? && keys[s] == keys[t]
  }

  ghost predicate AnyClash(keys: seq<Option<Key>>, spans: seq<Span>) {
    exists a: nat, s: nat, b: nat, t: nat :: Clash(keys, spans, a, s, b, t)
  }

  ghost predicate Lists(lc: FwdLcore, s: int)
    reads lc
  {
    lc.streamIdx <= s < lc.streamIdx + lc.streamNb
  }

  /** Lcore `l` lists stream `s`, and no later one does. */
  ghost predicate ListsLast(lcores: seq<FwdLcore>, l: nat, s: nat)
    requires l < |lcores|
    reads lcores
  {
    Lists(lcores[l], s) && forall m :: l < m < |lcores| ==> !Lists(lcores[m], s)
  }

  /** Two queues are one: both ports share queues, and domain, group and queue number are the same. */
  predicate SameShared(x: RxqInfo, y: RxqInfo) {
    x.capable && y.capable && x.group != 0 && x.group == y.group && x.domain == y.domain && x.qid == y.qid
  }

  /** Two lcores poll one shared queue. */
  ghost predicate PolledTwice(lcores: seq<FwdLcore>, streams: seq<FwdStream>, info: (nat, nat) -> RxqInfo)
    reads lcores, streams
  {
    exists a, s, b, t :: 0 <= a < |lcores| && 0 <= b < |lcores| && a != b && 0 <= s < |streams| && 0 <= t < |streams|
      && Lists(lcores[a], s) && Lists(lcores[b], t)
      && SameShared(info(streams[s].rxPort, streams[s].rxQueue), info(streams[t].rxPort, streams[t].rxQueue))
  }

  lemma ClashMeans(lcores: seq<FwdLcore>, streams: seq<FwdStream>, info: (nat, nat) -> RxqInfo)
    ensures AnyClash(Keys(streams, info), Spans(lcores)) <==> PolledTwice(lcores, streams, info)
  {
    var keys, spans := Keys(streams, info), Spans(lcores);
    hide Clash, SameShared;
    forall a, s, b, t | 0 <= a < |lcores| && 0 <= b < |lcores| && 0 <= s < |streams| && 0 <= t < |streams|
      ensures Clash(keys, spans, a, s, b, t) <==>
        a != b && Lists(lcores[a], s) && Lists(lcores[b], t)
        && SameShared(info(streams[s].rxPort, streams[s].rxQueue), info(streams[t].rxPort, streams[t].rxQueue))
    {
      ClashAt(lcores, streams, info, a, s, b, t);
    }
    forall a: nat, s: nat, b: nat, t: nat | Clash(keys, spans, a, s, b, t)
      ensures a < |lcores| && b < |lcores| && s < |streams| && t < |streams|
    {
      ClashInside(keys, spans, a, s, b, t);
    }
  }

  lemma ClashInside(keys: seq<Option<Key>>, spans: seq<Span>, a: nat, s: nat, b: nat, t: nat)
    requires Clash(keys, spans, a, s, b, t)
    ensures a < |spans| && b < |spans| && s < |keys| && t < |keys|
  {
  }

  lemma ClashAt(lcores: seq<FwdLcore>, streams: seq<FwdStream>, info: (nat, nat) -> RxqInfo,
                a: nat, s: nat, b: nat, t: nat)
    requires a < |lcores| && b < |lcores| && s < |streams| && t < |streams|
    ensures Clash(Keys(streams, info), Spans(lcores), a, s, b, t) <==>
      a != b && Lists(lcores[a], s) && Lists(lcores[b], t)
      && SameShared(info(streams[s].rxPort, streams[s].rxQueue), info(streams[t].rxPort, streams[t].rxQueue))
  {
  }

  /** The shared queue `key` is polled from an lcore after `l`. */
  ghost predicate PolledLater(keys: seq<Option<Key>>, spans: seq<Span>, l: nat, key: Key) {
    exists m: nat, t: nat :: l < m < |spans| && InSpan(t, spans[m]) && t < |keys| && keys[t] == Some(key)
  }

  /** No shared queue polled from lcore `l` is polled from a later one. */
  ghost predicate ClearAt(keys: seq<Option<Key>>, spans: seq<Span>, l: nat)
    requires l < |spans|
  {
    forall s: nat :: s < |keys| && InSpan(s, spans[l]) && keys[s].Some? ==> !PolledLater(keys, spans, l, keys[s].value)
  }

  ghost predicate ClearUpTo(keys: seq<Option<Key>>, spans: seq<Span>, n: nat)
    requires n <= |spans|
  {
    forall l: nat :: l < n ==> ClearAt(keys, spans, l)
  }

  /** Looking only at later lcores loses nothing. */
  lemma ClearMeansNoClash(keys: seq<Option<Key>>, spans: seq<Span>)
    ensures ClearUpTo(keys, spans, |spans|) <==> !AnyClash(keys, spans)
  {
    if ClearUpTo(keys, spans, |spans|) {
      forall a: nat, s: nat, b: nat, t: nat | Clash(keys, spans, a, s, b, t)
        ensures false
      {
        var (l, x, m, y) := if a < b then (a, s, b, t) else (b, t, a, s);
        assert InSpan(x, spans[l]) && InSpan(y, spans[m]);
        assert ClearAt(keys, spans, l) && PolledLater(keys, spans, l, keys[x].value);
      }
    } else {
      var l: nat :| l < |spans| && !ClearAt(keys, spans, l);
      var s: nat :| s < |keys| && InSpan(s, spans[l]) && keys[s].Some? && PolledLater(keys, spans, l, keys[s].value);
      var m: nat, t: nat :| l < m < |spans| && InSpan(t, spans[m]) && 0 <= t < |keys| && keys[t] == keys[s];
      assert Clash(keys, spans, l, s, m, t);
    }
  }

  /** fwd_stream_on_other_lcores: only lcores after `srcLc` are looked at. */
  method StreamOnOtherLcores(key: Key, srcLc: nat, lcores: seq<FwdLcore>,
           streams: seq<FwdStream>, info: (nat, nat) -> RxqInfo)
    returns (found: bool)
    requires srcLc < |lcores| && Fits(Spans(lcores), |streams|)
    ensures found == PolledLater(Keys(streams, info), Spans(lcores), srcLc, key)
  {
    ghost var keys, spans := Keys(streams, info), Spans(lcores);
    for l := srcLc + 1 to |lcores|
      invariant forall m: nat, t: nat ::
        srcLc < m < l && InSpan(t, spans[m]) && 0 <= t < |keys| ==> keys[t] != Some(key)
    {
      var smId := lcores[l].streamIdx;
      while smId < lcores[l].streamIdx + lcores[l].streamNb
        invariant spans[l].idx <= smId <= spans[l].idx + spans[l].nb
        invariant forall t :: spans[l].idx <= t < smId ==> keys[t] != Some(key)
      {
        var fs := streams[smId];
        var rxq := info(fs.rxPort, fs.rxQueue);
        if rxq.capable && rxq.group != 0 && rxq.domain == key.domain && rxq.group == key.group && rxq.qid == key.qid {
          assert InSpan(smId, spans[l]) && keys[smId] == Some(key);
          return true;
        }
        smId := smId + 1;
      }
    }
    return false;
  }

  /** The last of the first `n` lcores that lists stream `s`, or -1. */
  function LastOf(spans: seq<Span>, s: nat, n: nat): (l: int)
    requires n <= |spans|
    ensures -1 <= l < n && (l >= 0 ==> InSpan(s, spans[l]))
  {
    if n == 0 then -1 else if InSpan(s, spans[n - 1]) then n - 1 else LastOf(spans, s, n - 1)
  }

  /** Every stream scheduled on one of the first `n` lcores points to the last of these that lists it. */
  ghost predicate Recorded(lcores: seq<FwdLcore>, streams: seq<FwdStream>, spans: seq<Span>, n: nat)
    requires n <= |lcores| == |spans|
    reads streams
  {
    forall s :: 0 <= s < |streams| && LastOf(spans, s, n) >= 0 ==> streams[s].lcore == lcores[LastOf(spans, s, n)]
  }

  /** The round of the check for lcore `l`: all its streams are recorded, or a clash was found. */
  method CheckLcore(l: nat, lcores: seq<FwdLcore>, streams: seq<FwdStream>, info: (nat, nat) -> RxqInfo)
    returns (bad: bool)
    requires l < |lcores| && Fits(Spans(lcores), |streams|) && Distinct(streams)
    modifies streams`lcore
    ensures Keys(streams, info) == old(Keys(streams, info))
    ensures bad <==> !ClearAt(Keys(streams, info), Spans(lcores), l)
    ensures !bad ==> forall s :: 0 <= s < |streams| ==>
      streams[s].lcore == if InSpan(s, Spans(lcores)[l]) then lcores[l] else old(streams[s].lcore)
  {
    hide PolledLater;
    ghost var keys, spans := Keys(streams, info), Spans(lcores);
    var smId := lcores[l].streamIdx;
    while smId < lcores[l].streamIdx + lcores[l].streamNb
      invariant spans[l].idx <= smId <= spans[l].idx + spans[l].nb
      invariant Keys(streams, info) == keys
      invariant forall s :: spans[l].idx <= s < smId && keys[s].Some? ==> !PolledLater(keys, spans, l, keys[s].value)
      invariant forall s :: 0 <= s < |streams| ==>
        streams[s].lcore == if spans[l].idx <= s < smId then lcores[l] else old(streams[s].lcore)
    {
      var fs := streams[smId];
      fs.lcore := lcores[l];
      var rxq := info(fs.rxPort, fs.rxQueue);
      assert keys[smId] == SharedKey(rxq);
      if rxq.capable && rxq.group != 0 {
        var other := StreamOnOtherLcores(Key(rxq.domain, rxq.group, rxq.qid), l, lcores, streams, info);
        if other {
          return true;
        }
      }
      smId := smId + 1;
    }
    return false;
  }

  /** pkt_fwd_shared_rxq_check: true exactly if sharing is off or no two lcores poll one shared queue.
      When it is on and the answer is true, every scheduled stream knows its lcore (the last one, should
      two lcores list it). */
  method PktFwdSharedRxqCheck(rxqShare: nat, lcores: seq<FwdLcore>,
           streams: seq<FwdStream>, info: (nat, nat) -> RxqInfo)
    returns (ok: bool)
    requires Fits(Spans(lcores), |streams|) && Distinct(streams)
    modifies streams`lcore
    ensures Keys(streams, info) == old(Keys(streams, info))
    ensures ok <==> rxqShare == 0 || !PolledTwice(lcores, streams, info)
    ensures ok && rxqShare != 0 ==> forall l, s | 0 <= l < |lcores| && 0 <= s < |streams| ::
      ListsLast(lcores, l, s) ==> streams[s].lcore == lcores[l]
  {
    hide *;
    ok := CheckAll(rxqShare, lcores, streams, info);
    ClashMeans(lcores, streams, info);
    if ok && rxqShare != 0 {
      RecordedMeans(lcores, streams);
    }
  }

  lemma RecordedMeans(lcores: seq<FwdLcore>, streams: seq<FwdStream>)
    requires Recorded(lcores, streams, Spans(lcores), |lcores|)
    ensures forall l, s | 0 <= l < |lcores| && 0 <= s < |streams| ::
      ListsLast(lcores, l, s) ==> streams[s].lcore == lcores[l]
  {
    forall l, s | 0 <= l < |lcores| && 0 <= s < |streams| && ListsLast(lcores, l, s)
      ensures LastOf(Spans(lcores), s, |lcores|) == l
    {
      LastIs(Spans(lcores), s, |lcores|, l);
    }
  }

  lemma {:induction false} LastIs(spans: seq<Span>, s: nat, n: nat, l: nat)
    requires l < n <= |spans| && InSpan(s, spans[l]) && forall m :: l < m < n ==> !InSpan(s, spans[m])
    ensures LastOf(spans, s, n) == l
  {
    if l < n - 1 {
      LastIs(spans, s, n - 1, l);
    }
  }

  method CheckAll(rxqShare: nat, lcores: seq<FwdLcore>, streams: seq<FwdStream>, info: (nat, nat) -> RxqInfo)
    returns (ok: bool)
    requires Fits(Spans(lcores), |streams|) && Distinct(streams)
    modifies streams`lcore
    ensures Keys(streams, info) == old(Keys(streams, info))
    ensures ok <==> rxqShare == 0 || !AnyClash(Keys(streams, info), Spans(lcores))
    ensures ok && rxqShare != 0 ==> Recorded(lcores, streams, Spans(lcores), |lcores|)
  {
    if rxqShare == 0 {
      return true;
    }
    hide ClearAt, ClearUpTo, AnyClash, LastOf, Recorded, Fits, Distinct;
    ghost var keys, spans := Keys(streams, info), Spans(lcores);
    ClearMeansNoClash(keys, spans);
    NothingRecorded(lcores, streams, keys);
    for l := 0 to |lcores|
      invariant Keys(streams, info) == keys && Spans(lcores) == spans
      invariant ClearUpTo(keys, spans, l) && Recorded(lcores, streams, spans, l)
    {
      var bad := RecordLcore(l, lcores, streams, info, keys, spans);
      if bad {
        return false;
      }
    }
    return true;
  }

  lemma NothingRecorded(lcores: seq<FwdLcore>, streams: seq<FwdStream>, keys: seq<Option<Key>>)
    ensures Recorded(lcores, streams, Spans(lcores), 0) && ClearUpTo(keys, Spans(lcores), 0)
  {
  }

  /** CheckLcore, seen on the lcores so far. */
  method RecordLcore(l: nat, lcores: seq<FwdLcore>, streams: seq<FwdStream>, info: (nat, nat) -> RxqInfo,
                     ghost keys: seq<Option<Key>>, ghost spans: seq<Span>)
    returns (bad: bool)
    requires keys == Keys(streams, info) && spans == Spans(lcores)
    requires l < |lcores| && Fits(spans, |streams|) && Distinct(streams)
    requires Recorded(lcores, streams, spans, l) && ClearUpTo(keys, spans, l)
    modifies streams`lcore
    ensures keys == Keys(streams, info) && spans == Spans(lcores)
    ensures if bad then !ClearUpTo(keys, spans, |spans|)
            else Recorded(lcores, streams, spans, l + 1) && ClearUpTo(keys, spans, l + 1)
  {
    hide ClearAt, InSpan, Fits;
    bad := CheckLcore(l, lcores, streams, info);
  }
}
