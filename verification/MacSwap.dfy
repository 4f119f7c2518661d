/** Swapping the Ethernet addresses of a burst: the scalar loop (macswap.h), the two vector forms
    (macswap_sse.h, macswap_neon.h) and the mbuf fields they share (macswap_common.h). A burst may
    hold a packet twice and two packets may share a frame; what then happens is part of the claims. */
module MacSwap {
  import opened Common

  datatype Offload = VLAN_INSERT | QINQ_INSERT | MACSEC_INSERT | OTHER_OFFLOAD(n: nat)
  datatype OlFlag = TX_VLAN | TX_QINQ | TX_MACSEC | INDIRECT | EXTERNAL | OTHER_FLAG(n: nat)

  /** The transmit port's settings that the forwarding engine reads. */
  datatype TxPort = TxPort(offloads: set<Offload>, vlanId: nat, vlanIdOuter: nat)

  const KEPT_FLAGS := {INDIRECT, EXTERNAL}
  const ETHER_HDR_LEN := 14
  const IPV4_HDR_LEN := 20

  class Pkt {
    const frame: array<byte>
    var olFlags: set<OlFlag>
    var vlanTci: nat
    var vlanTciOuter: nat
    var l2Len: nat
    var l3Len: nat

    constructor (frame: array<byte>)
      ensures this.frame == frame
    {
      this.frame := frame;
      olFlags, vlanTci, vlanTciOuter, l2Len, l3Len := {}, 0, 0, 0, 0;
    }
  }

  // ---------- address swap on a frame's bytes ----------

  /** Destination and source address (bytes 0-5 and 6-11) exchanged. */
  function SwapMac(f: seq<byte>): (r: seq<byte>)
    requires |f| >= 12
    ensures |r| == |f|
  {
    SwapAdj(f, 0, 6)
  }

  function Swaps(n: nat, f: seq<byte>): (r: seq<byte>)
    requires |f| >= 12
    ensures |r| == |f|
  {
    if n % 2 == 0 then f else SwapMac(f)
  }

  lemma SwapsStep(n: nat, f: seq<byte>)
    requires |f| >= 12
    ensures SwapMac(Swaps(n, f)) == Swaps(n + 1, f)
  {
    assert SwapMac(SwapMac(f)) == f;
  }

  /** Two swap counts leave the same bytes exactly when they have the same parity or the frame's two
      addresses are equal. */
  lemma SwapsAgree(m: nat, n: nat, f: seq<byte>)
    requires |f| >= 12
    ensures Swaps(m, f) == Swaps(n, f) <==> m % 2 == n % 2 || f[..6] == f[6..12]
  {
    var g := SwapMac(f);
    assert g[..6] == f[6..12];
    if f[..6] == f[6..12] {
      assert g == f;
    }
  }

  // ---------- the vector tables ----------

  /** _mm_set_epi8 lists byte 15 first. */
  function SetEpi8(highFirst: seq<byte>): (r: seq<byte>)
    requires |highFirst| == 16
    ensures |r| == 16
  {
    seq(16, i requires 0 <= i < 16 => highFirst[15 - i])
  }

  const SSE_ARGS: seq<byte> := [15, 14, 13, 12, 5, 4, 3, 2, 1, 0, 11, 10, 9, 8, 7, 6]
  const SHFL_MSK: seq<byte> := SetEpi8(SSE_ARGS)
  const IDX_MAP: seq<byte> := [6, 7, 8, 9, 10, 11, 0, 1, 2, 3, 4, 5, 12, 13, 14, 15]

  /** _mm_shuffle_epi8: a set top bit clears the byte, otherwise the low four bits select. */
  function Pshufb(v: seq<byte>, mask: seq<byte>): (r: seq<byte>)
    requires |v| == 16 && |mask| == 16
    ensures |r| == 16
  {
    seq(16, i requires 0 <= i < 16 => if mask[i] >= 128 then 0 else v[mask[i] % 16])
  }

  /** vqtbl1q_u8: an index past the table yields zero. */
  function Tbl(v: seq<byte>, idx: seq<byte>): (r: seq<byte>)
    requires |v| == 16 && |idx| == 16
    ensures |r| == 16
  {
    seq(16, i requires 0 <= i < 16 => if idx[i] < 16 then v[idx[i]] else 0)
  }

  datatype Isa = SSE | NEON

  function Shuffle(isa: Isa, v: seq<byte>): (r: seq<byte>)
    requires |v| == 16
    ensures |r| == 16
  {
    match isa
    case SSE => Pshufb(v, SHFL_MSK)
    case NEON => Tbl(v, IDX_MAP)
  }

  /** Where byte `i` of the shuffled register comes from. */
  function Origin(i: nat): (k: nat)
    requires i < 16
    ensures k < 16
  {
    if i < 6 then i + 6 else if i < 12 then i - 6 else i
  }

  lemma SseOrigin(i: nat)
    requires i < 16
    ensures |SHFL_MSK| == 16 && SHFL_MSK[i] == Origin(i)
  {
    assert SHFL_MSK[i] == SSE_ARGS[15 - i];
    assert SSE_ARGS[0] == 15 && SSE_ARGS[1] == 14 && SSE_ARGS[2] == 13 && SSE_ARGS[3] == 12;
  }

  lemma NeonOrigin(i: nat)
    requires i < 16
    ensures |IDX_MAP| == 16 && IDX_MAP[i] == Origin(i)
  {
    assert IDX_MAP[0] == 6 && IDX_MAP[5] == 11 && IDX_MAP[6] == 0 && IDX_MAP[12] == 12;
  }

  lemma ShuffleAt(isa: Isa, v: seq<byte>, i: nat)
    requires |v| == 16 && i < 16
    ensures Shuffle(isa, v)[i] == v[Origin(i)]
  {
    hide SHFL_MSK, IDX_MAP, Pshufb, Tbl, Origin;
    SseOrigin(i);
    NeonOrigin(i);
    Selected(v, SHFL_MSK, i, Origin(i));
    Selected(v, IDX_MAP, i, Origin(i));
  }

  lemma Selected(v: seq<byte>, table: seq<byte>, i: nat, from: nat)
    requires |v| == 16 && |table| == 16 && i < 16 && from < 16 && table[i] == from
    ensures Pshufb(v, table)[i] == v[from] && Tbl(v, table)[i] == v[from]
  {
  }

  /** Either table, applied to the first 16 bytes of a frame, swaps its addresses. */
  lemma ShuffleSwaps(isa: Isa, f: seq<byte>)
    requires |f| >= 16
    ensures Shuffle(isa, f[..16]) + f[16..] == SwapMac(f)
  {
    hide Shuffle;
    var v := f[..16];
    forall i | 0 <= i < 16
      ensures Shuffle(isa, v)[i] == f[Origin(i)]
    {
      ShuffleAt(isa, v, i);
    }
    assert f[6..12] + f[..6] + f[12..16] + f[16..] == SwapMac(f);
    assert Shuffle(isa, v) == f[6..12] + f[..6] + f[12..16];
  }

  // ---------- how often a frame is swapped ----------

  function Frames(pkts: seq<Pkt>): (fs: seq<array<byte>>)
    ensures |fs| == |pkts| && forall i :: 0 <= i < |fs| ==> fs[i] == pkts[i].frame
  {
    seq(|pkts|, i requires 0 <= i < |pkts| => pkts[i].frame)
  }

  /** The load-shuffle-store rounds of the vector forms that involve frame `a`: one per group of four
      it occurs in, one per occurrence in the rest. */
  function Rounds(fs: seq<array<byte>>, a: array<byte>): nat
  {
    if |fs| < 4 then multiset(fs)[a] else (if a in fs[..4] then 1 else 0) + Rounds(fs[4..], a)
  }

  lemma {:induction false} RoundsAppend(fs: seq<array<byte>>, gs: seq<array<byte>>, a: array<byte>)
    requires |fs| % 4 == 0
    ensures Rounds(fs + gs, a) == Rounds(fs, a) + Rounds(gs, a)
  {
    if fs == [] {
      assert fs + gs == gs;
    } else {
      assert (fs + gs)[..4] == fs[..4] && (fs + gs)[4..] == fs[4..] + gs;
      RoundsAppend(fs[4..], gs, a);
    }
  }

  lemma {:induction false} DistinctRounds(fs: seq<array<byte>>, a: array<byte>)
    requires Distinct(fs)
    ensures Rounds(fs, a) == multiset(fs)[a]
  {
    if |fs| >= 4 {
      DistinctRounds(fs[4..], a);
      assert fs == fs[..4] + fs[4..];
      OnceEach(fs[..4], a);
    }
  }

  lemma {:induction false} OnceEach(fs: seq<array<byte>>, a: array<byte>)
    requires Distinct(fs)
    ensures multiset(fs)[a] == if a in fs then 1 else 0
  {
    if fs != [] {
      OnceEach(fs[1..], a);
      assert fs == [fs[0]] + fs[1..];
    }
  }

  /** A frame twice in one group of four is swapped back by the scalar loop, but only once by the
      vector forms. */
  lemma TwiceInAGroup(a: array<byte>, b: array<byte>, c: array<byte>)
    requires a != b && a != c
    ensures multiset([a, a, b, c])[a] == 2 && Rounds([a, a, b, c], a) == 1
  {
    var fs := [a, a, b, c];
    assert fs[..4] == fs && fs[4..] == [];
  }

  // ---------- mbuf fields (macswap_common.h) ----------

  /** The fields of a packet buffer that the engines set. */
  datatype Fields = Fields(olFlags: set<OlFlag>, vlanTci: nat, vlanTciOuter: nat, l2Len: nat, l3Len: nat)

  ghost function FieldsOf(p: Pkt): Fields
    reads p
  {
    Fields(p.olFlags, p.vlanTci, p.vlanTciOuter, p.l2Len, p.l3Len)
  }

  function OlFlagsInit(offloads: set<Offload>): (ol: set<OlFlag>)
    ensures TX_VLAN in ol <==> VLAN_INSERT in offloads
    ensures TX_QINQ in ol <==> QINQ_INSERT in offloads
    ensures TX_MACSEC in ol <==> MACSEC_INSERT in offloads
    ensures ol <= {TX_VLAN, TX_QINQ, TX_MACSEC}
  {
    (if VLAN_INSERT in offloads then {TX_VLAN} else {})
    + (if QINQ_INSERT in offloads then {TX_QINQ} else {})
    + (if MACSEC_INSERT in offloads then {TX_MACSEC} else {})
  }

  /** What vlan_qinq_set makes of a packet's fields. */
  function Tagged(f: Fields, txp: TxPort): Fields {
    f.(vlanTci := if VLAN_INSERT in txp.offloads then txp.vlanId else f.vlanTci,
       vlanTciOuter := if QINQ_INSERT in txp.offloads then txp.vlanIdOuter else f.vlanTciOuter)
  }

  /** What mbuf_field_set makes of a packet's fields: of the old flags only the two that describe the
      buffer itself survive. */
  function FieldSet(f: Fields, ol: set<OlFlag>): Fields {
    f.(olFlags := f.olFlags * KEPT_FLAGS + ol, l2Len := ETHER_HDR_LEN, l3Len := IPV4_HDR_LEN)
  }

  method MbufFieldSet(p: Pkt, ol: set<OlFlag>, ghost pkts: seq<Pkt>)
    requires p in pkts
    modifies p`olFlags, p`l2Len, p`l3Len
    ensures FieldMap(pkts) == old(FieldMap(pkts)[p := FieldSet(FieldMap(pkts)[p], ol)])
  {
    p.olFlags := p.olFlags * KEPT_FLAGS;
    p.olFlags := p.olFlags + ol;
    p.l2Len := ETHER_HDR_LEN;
    p.l3Len := IPV4_HDR_LEN;
  }

  // ---------- the state of a burst ----------

  ghost function Contents(fs: seq<array<byte>>): (c: map<array<byte>, seq<byte>>)
    reads fs
    ensures c.Keys == set a | a in fs
    ensures forall a :: a in fs ==> |c[a]| == a.Length
  {
    map a | a in fs :: a[..]
  }

  ghost function FieldMap(pkts: seq<Pkt>): (m: map<Pkt, Fields>)
    reads pkts
    ensures m.Keys == set p | p in pkts
  {
    map p | p in pkts :: FieldsOf(p)
  }

  /** Every frame swapped as often as `done` mentions it. */
  function AfterSwaps(was: map<array<byte>, seq<byte>>, done: seq<array<byte>>): map<array<byte>, seq<byte>>
    requires forall a :: a in was ==> |was[a]| >= 12
  {
    map a | a in was :: Swaps(multiset(done)[a], was[a])
  }

  /** Every frame swapped once for every vector round of `done` it takes part in. */
  function AfterRounds(was: map<array<byte>, seq<byte>>, done: seq<array<byte>>): map<array<byte>, seq<byte>>
    requires forall a :: a in was ==> |was[a]| >= 12
  {
    map a | a in was :: Swaps(Rounds(done, a), was[a])
  }

  /** Every packet tagged, and those in `done` fully set. */
  function AfterFields(was: map<Pkt, Fields>, done: seq<Pkt>, txp: TxPort): map<Pkt, Fields> {
    map p | p in was :: if p in done then FieldSet(Tagged(was[p], txp), OlFlagsInit(txp.offloads))
      else Tagged(was[p], txp)
  }

  method VlanQinqSet(pkts: seq<Pkt>, txp: TxPort)
    modifies pkts`vlanTci, pkts`vlanTciOuter
    ensures FieldMap(pkts) == AfterFields(old(FieldMap(pkts)), [], txp)
  {
    var ol := OlFlagsInit(txp.offloads);
    if TX_VLAN in ol {
      for i := 0 to |pkts|
        invariant forall p :: p in pkts[..i] ==> p.vlanTci == txp.vlanId
        invariant forall p :: p in pkts ==> p.vlanTciOuter == old(p.vlanTciOuter)
      {
        pkts[i].vlanTci := txp.vlanId;
      }
    }
    if TX_QINQ in ol {
      for i := 0 to |pkts|
        invariant forall p :: p in pkts[..i] ==> p.vlanTciOuter == txp.vlanIdOuter
        invariant forall p :: p in pkts ==> p.vlanTci == if TX_VLAN in ol then txp.vlanId else old(p.vlanTci)
      {
        pkts[i].vlanTciOuter := txp.vlanIdOuter;
      }
    }
    assert forall p :: p in pkts ==> FieldsOf(p) == Tagged(old(FieldsOf(p)), txp);
  }

  /** Setting a packet's fields a second time changes nothing. */
  lemma FieldsStep(was: map<Pkt, Fields>, done: seq<Pkt>, p: Pkt, txp: TxPort)
    requires p in was
    ensures var now := AfterFields(was, done, txp);
      now[p := FieldSet(now[p], OlFlagsInit(txp.offloads))] == AfterFields(was, done + [p], txp)
  {
    var ol, f := OlFlagsInit(txp.offloads), Tagged(was[p], txp);
    assert (f.olFlags * KEPT_FLAGS + ol) * KEPT_FLAGS + ol == f.olFlags * KEPT_FLAGS + ol;
    assert FieldSet(FieldSet(f, ol), ol) == FieldSet(f, ol);
  }

  lemma Untouched(was: map<array<byte>, seq<byte>>)
    requires forall a :: a in was ==> |was[a]| >= 12
    ensures AfterSwaps(was, []) == was && AfterRounds(was, []) == was
  {
  }

  lemma SwapStep(was: map<array<byte>, seq<byte>>, done: seq<array<byte>>, a: array<byte>)
    requires forall b :: b in was ==> |was[b]| >= 12
    requires a in was
    ensures var now := AfterSwaps(was, done); now[a := SwapMac(now[a])] == AfterSwaps(was, done + [a])
  {
    SwapsStep(multiset(done)[a], was[a]);
  }

  // ---------- what a burst looks like afterwards ----------

  /** The two addresses exchanged, or not, and everything behind them kept. */
  ghost predicate Exchanged(was: seq<byte>, now: seq<byte>, odd: bool) {
    && |now| == |was| >= 12
    && (forall i :: 0 <= i < 6 ==> now[i] == was[if odd then 6 + i else i])
    && (forall i :: 6 <= i < 12 ==> now[i] == was[if odd then i - 6 else i])
    && (forall i :: 12 <= i < |now| ==> now[i] == was[i])
  }

  lemma SwapsExchange(n: nat, f: seq<byte>)
    requires |f| >= 12
    ensures Exchanged(f, Swaps(n, f), n % 2 == 1)
  {
    hide SwapMac;
    forall i | 0 <= i < |f|
      ensures SwapMac(f)[i] == f[if i < 6 then 6 + i else if i < 12 then i - 6 else i]
    {
      SwapMacAt(f, i);
    }
  }

  lemma SwapMacAt(f: seq<byte>, i: nat)
    requires i < |f| && |f| >= 12
    ensures SwapMac(f)[i] == f[if i < 6 then 6 + i else if i < 12 then i - 6 else i]
  {
  }

  /** Every frame has its addresses exchanged if it occurs an odd number of times. */
  lemma SwapsMean(was: map<array<byte>, seq<byte>>, fs: seq<array<byte>>)
    requires forall a :: a in was ==> |was[a]| >= 12
    ensures forall a :: a in was ==> Exchanged(was[a], AfterSwaps(was, fs)[a], multiset(fs)[a] % 2 == 1)
  {
    hide Exchanged, Swaps;
    forall a | a in was
      ensures Exchanged(was[a], AfterSwaps(was, fs)[a], multiset(fs)[a] % 2 == 1)
    {
      SwapsExchange(multiset(fs)[a], was[a]);
    }
  }

  /** Every frame has its addresses exchanged if it takes part in an odd number of rounds; in a burst of
      distinct frames that is once. */
  lemma RoundsMean(was: map<array<byte>, seq<byte>>, fs: seq<array<byte>>)
    requires forall a :: a in was ==> |was[a]| >= 12
    ensures forall a :: a in was ==> Exchanged(was[a], AfterRounds(was, fs)[a], Rounds(fs, a) % 2 == 1)
    ensures Distinct(fs) ==> forall a :: a in was && a in fs ==> Exchanged(was[a], AfterRounds(was, fs)[a], true)
  {
    hide Exchanged, Swaps, Rounds, Distinct;
    forall a | a in was
      ensures Exchanged(was[a], AfterRounds(was, fs)[a], Rounds(fs, a) % 2 == 1)
      ensures Distinct(fs) && a in fs ==> Rounds(fs, a) == 1
    {
      SwapsExchange(Rounds(fs, a), was[a]);
      if Distinct(fs) {
        DistinctRounds(fs, a);
        OnceEach(fs, a);
      }
    }
  }

  /** The fields of packet `p`, after a burst: the port's tags where it inserts them, the flags about the
      buffer and those of the port's offloads, and the lengths of an Ethernet and an IPv4 header. */
  ghost predicate Marked(p: Pkt, was: Fields, txp: TxPort)
    reads p
  {
    && p.vlanTci == (if VLAN_INSERT in txp.offloads then txp.vlanId else was.vlanTci)
    && p.vlanTciOuter == (if QINQ_INSERT in txp.offloads then txp.vlanIdOuter else was.vlanTciOuter)
    && (INDIRECT in p.olFlags <==> INDIRECT in was.olFlags)
    && (EXTERNAL in p.olFlags <==> EXTERNAL in was.olFlags)
    && (TX_VLAN in p.olFlags <==> VLAN_INSERT in txp.offloads)
    && (TX_QINQ in p.olFlags <==> QINQ_INSERT in txp.offloads)
    && (TX_MACSEC in p.olFlags <==> MACSEC_INSERT in txp.offloads)
    && (forall n :: OTHER_FLAG(n) !in p.olFlags)
    && p.l2Len == 14 && p.l3Len == 20
  }

  lemma FieldsMean(pkts: seq<Pkt>, was: map<Pkt, Fields>, txp: TxPort)
    requires forall p :: p in pkts ==> p in was
    requires FieldMap(pkts) == AfterFields(was, pkts, txp)
    ensures forall p :: p in pkts ==> Marked(p, was[p], txp)
  {
    hide OlFlagsInit, Marked, AfterFields, FieldMap;
    forall p | p in pkts
      ensures Marked(p, was[p], txp)
    {
      FieldsMeanAt(pkts, was, txp, p);
    }
  }

  lemma FieldsMeanAt(pkts: seq<Pkt>, was: map<Pkt, Fields>, txp: TxPort, p: Pkt)
    requires p in pkts && p in was
    requires FieldMap(pkts) == AfterFields(was, pkts, txp)
    ensures Marked(p, was[p], txp)
  {
    hide OlFlagsInit;
    assert FieldMap(pkts)[p] == FieldSet(Tagged(was[p], txp), OlFlagsInit(txp.offloads));
  }

  // ---------- the scalar burst (macswap.h) ----------

  /** The three six-byte copies through a temporary. */
  method SwapAddresses(frame: array<byte>, ghost fs: seq<array<byte>>)
    requires frame.Length >= 12 && frame in fs
    modifies frame
    ensures Contents(fs) == old(Contents(fs)[frame := SwapMac(Contents(fs)[frame])])
  {
    ghost var was := frame[..];
    var addr := frame[..6];
    forall k | 0 <= k < 6 {
      frame[k] := frame[6 + k];
    }
    forall k | 0 <= k < 6 {
      frame[6 + k] := addr[k];
    }
    assert frame[..] == SwapMac(was);
    assert forall b :: b in fs && b != frame ==> b[..] == old(b[..]);
  }

  /** One round of the scalar loop. */
  method SwapPacket(p: Pkt, ol: set<OlFlag>, ghost pkts: seq<Pkt>)
    requires p in pkts && p.frame in Frames(pkts) && p.frame.Length >= 12
    modifies p, p.frame
    ensures var fs := Frames(pkts); Contents(fs) == old(Contents(fs)[p.frame := SwapMac(Contents(fs)[p.frame])])
    ensures FieldMap(pkts) == old(FieldMap(pkts)[p := FieldSet(FieldMap(pkts)[p], ol)])
  {
    hide SwapMac, FieldSet, FieldMap, Frames;
    SwapAddresses(p.frame, Frames(pkts));
    MbufFieldSet(p, ol, pkts);
  }

  /** The scalar form: every occurrence in the burst swaps its frame once. */
  method DoMacSwap(pkts: seq<Pkt>, txp: TxPort)
    requires forall p :: p in pkts ==> p.frame.Length >= 12
    modifies pkts, Frames(pkts)
    ensures Contents(Frames(pkts)) == AfterSwaps(old(Contents(Frames(pkts))), Frames(pkts))
    ensures FieldMap(pkts) == AfterFields(old(FieldMap(pkts)), pkts, txp)
    ensures forall a :: a in Frames(pkts) ==> Exchanged(old(a[..]), a[..], multiset(Frames(pkts))[a] % 2 == 1)
    ensures forall p :: p in pkts ==> Marked(p, old(FieldsOf(p)), txp)
  {
    hide *;
    ghost var fs := Frames(pkts);
    ghost var bytes, fields := Contents(fs), FieldMap(pkts);
    MapsAt(fs, pkts);
    SwapBurst(pkts, txp);
    MapsAt(fs, pkts);
    SwapsMean(bytes, fs);
    FieldsMean(pkts, fields, txp);
  }

  lemma MapsAt(fs: seq<array<byte>>, pkts: seq<Pkt>)
    ensures forall a :: a in fs ==> a in Contents(fs) && Contents(fs)[a] == a[..]
    ensures forall p :: p in pkts ==> p in FieldMap(pkts) && FieldMap(pkts)[p] == FieldsOf(p)
    ensures forall a :: a in Contents(fs) ==> a in fs
  {
  }

  method SwapBurst(pkts: seq<Pkt>, txp: TxPort)
    requires forall p :: p in pkts ==> p.frame.Length >= 12
    modifies pkts, Frames(pkts)
    ensures Contents(Frames(pkts)) == AfterSwaps(old(Contents(Frames(pkts))), Frames(pkts))
    ensures FieldMap(pkts) == AfterFields(old(FieldMap(pkts)), pkts, txp)
  {
    hide Swaps, SwapMac, AfterSwaps, AfterFields, Contents, FieldMap, FieldSet, FieldsOf, Tagged;
    ghost var fs := Frames(pkts);
    ghost var bytes, fields := Contents(fs), FieldMap(pkts);
    var ol := OlFlagsInit(txp.offloads);
    VlanQinqSet(pkts, txp);
    TakeAll(fs);
    TakeAll(pkts);
    Untouched(bytes);
    for i := 0 to |pkts|
      invariant Contents(fs) == AfterSwaps(bytes, fs[..i])
      invariant FieldMap(pkts) == AfterFields(fields, pkts[..i], txp)
    {
      SwapStep(bytes, fs[..i], fs[i]);
      FieldsStep(fields, pkts[..i], pkts[i], txp);
      SwapPacket(pkts[i], ol, pkts);
      TakeSnoc(fs, i);
      TakeSnoc(pkts, i);
    }
  }

  // ---------- the vector bursts (macswap_sse.h, macswap_neon.h) ----------

  function SwapAll(was: map<array<byte>, seq<byte>>, group: seq<array<byte>>): map<array<byte>, seq<byte>>
    requires forall a :: a in was ==> |was[a]| >= 12
  {
    map a | a in was :: if a in group then SwapMac(was[a]) else was[a]
  }

  function SetAll(was: map<Pkt, Fields>, group: seq<Pkt>, ol: set<OlFlag>): map<Pkt, Fields> {
    map p | p in was :: if p in group then FieldSet(was[p], ol) else was[p]
  }

  lemma RoundsOfGroup(done: seq<array<byte>>, group: seq<array<byte>>, a: array<byte>)
    requires |done| % 4 == 0 && |group| == 4
    ensures Rounds(done + group, a) == Rounds(done, a) + if a in group then 1 else 0
  {
    RoundsAppend(done, group, a);
    assert group[..4] == group && group[4..] == [];
  }

  lemma RoundsOfRest(done: seq<array<byte>>, rest: seq<array<byte>>, b: array<byte>, a: array<byte>)
    requires |done| % 4 == 0 && |rest| < 3
    ensures Rounds(done + rest + [b], a) == Rounds(done + rest, a) + if a == b then 1 else 0
  {
    assert done + rest + [b] == done + (rest + [b]);
    RoundsAppend(done, rest, a);
    RoundsAppend(done, rest + [b], a);
  }

  /** A full group of four adds one round for each frame in it. */
  lemma GroupStep(was: map<array<byte>, seq<byte>>, done: seq<array<byte>>, group: seq<array<byte>>)
    requires forall a :: a in was ==> |was[a]| >= 12
    requires |done| % 4 == 0 && |group| == 4
    ensures SwapAll(AfterRounds(was, done), group) == AfterRounds(was, done + group)
  {
    hide Rounds, Swaps, SwapMac;
    forall a | a in was
      ensures Rounds(done + group, a) == Rounds(done, a) + (if a in group then 1 else 0)
      ensures SwapMac(Swaps(Rounds(done, a), was[a])) == Swaps(Rounds(done, a) + 1, was[a])
    {
      RoundsOfGroup(done, group, a);
      SwapsStep(Rounds(done, a), was[a]);
    }
  }

  /** In the rest every occurrence is a round. */
  lemma RestStep(was: map<array<byte>, seq<byte>>, done: seq<array<byte>>, rest: seq<array<byte>>, b: array<byte>)
    requires forall a :: a in was ==> |was[a]| >= 12
    requires |done| % 4 == 0 && |rest| < 3 && b in was
    ensures var now := AfterRounds(was, done + rest); now[b := SwapMac(now[b])] == AfterRounds(was, done + rest + [b])
  {
    hide Rounds, Swaps, SwapMac;
    forall a | a in was
      ensures Rounds(done + rest + [b], a) == Rounds(done + rest, a) + (if a == b then 1 else 0)
      ensures SwapMac(Swaps(Rounds(done + rest, a), was[a])) == Swaps(Rounds(done + rest, a) + 1, was[a])
    {
      RoundsOfRest(done, rest, b, a);
      SwapsStep(Rounds(done + rest, a), was[a]);
    }
  }

  lemma SetStep(was: map<Pkt, Fields>, done: seq<Pkt>, group: seq<Pkt>, txp: TxPort)
    ensures SetAll(AfterFields(was, done, txp), group, OlFlagsInit(txp.offloads))
         == AfterFields(was, done + group, txp)
  {
    forall p | p in was && p in done && p in group
      ensures FieldSet(FieldSet(Tagged(was[p], txp), OlFlagsInit(txp.offloads)), OlFlagsInit(txp.offloads))
           == FieldSet(Tagged(was[p], txp), OlFlagsInit(txp.offloads))
    {
      FieldsStep(was, done, p, txp);
    }
  }

  /** A 16-byte store that leaves frame contents `x`. */
  method Store16(frame: array<byte>, v: seq<byte>, ghost x: seq<byte>, ghost fs: seq<array<byte>>, ghost pkts: seq<Pkt>)
    requires frame in fs && frame.Length >= 16 && |v| == 16 && x == v + Contents(fs)[frame][16..]
    modifies frame
    ensures Contents(fs) == old(Contents(fs))[frame := x]
    ensures FieldMap(pkts) == old(FieldMap(pkts))
  {
    hide FieldMap;
    forall k | 0 <= k < 16 {
      frame[k] := v[k];
    }
    assert frame[..] == x;
    assert forall b :: b in fs && b != frame ==> b[..] == old(b[..]);
  }

  /** Storing the swapped contents of four frames, some perhaps the same, swaps each of them once. */
  lemma FourUpdates(was: map<array<byte>, seq<byte>>, f: seq<array<byte>>, c: map<array<byte>, seq<byte>>)
    requires forall a :: a in was ==> |was[a]| >= 12
    requires |f| == 4 && forall a :: a in f ==> a in was
    requires c == was[f[0] := SwapMac(was[f[0]])][f[1] := SwapMac(was[f[1]])]
      [f[2] := SwapMac(was[f[2]])][f[3] := SwapMac(was[f[3]])]
    ensures c == SwapAll(was, f)
  {
    hide SwapMac;
    assert forall a :: a in f <==> a == f[0] || a == f[1] || a == f[2] || a == f[3];
  }

  /** Load and shuffle: what a store has to write. */
  method LoadShuffled(isa: Isa, frame: array<byte>, ghost fs: seq<array<byte>>) returns (v: seq<byte>)
    requires frame in fs && frame.Length >= 16
    ensures var was := Contents(fs)[frame]; |v| == 16 && v + was[16..] == SwapMac(was)
  {
    ShuffleSwaps(isa, frame[..]);
    v := Shuffle(isa, frame[..16]);
    assert frame[..][..16] == frame[..16] && frame[..][16..] == frame[16..];
  }

  /** Four loads and shuffles, then four stores. A frame that occurs twice is loaded twice before it
      is stored. */
  method SwapFour(isa: Isa, f: seq<array<byte>>, ghost fs: seq<array<byte>>, ghost pkts: seq<Pkt>)
    requires |f| == 4 && forall a :: a in f ==> a in fs && a.Length >= 16
    requires forall a :: a in fs ==> a.Length >= 12
    modifies f
    ensures Contents(fs) == SwapAll(old(Contents(fs)), f)
    ensures FieldMap(pkts) == old(FieldMap(pkts))
  {
    hide *;
    ghost var was := Contents(fs);
    var v0 := LoadShuffled(isa, f[0], fs);
    var v1 := LoadShuffled(isa, f[1], fs);
    var v2 := LoadShuffled(isa, f[2], fs);
    var v3 := LoadShuffled(isa, f[3], fs);
    Store16(f[0], v0, SwapMac(was[f[0]]), fs, pkts);
    Store16(f[1], v1, SwapMac(was[f[1]]), fs, pkts);
    Store16(f[2], v2, SwapMac(was[f[2]]), fs, pkts);
    Store16(f[3], v3, SwapMac(was[f[3]]), fs, pkts);
    FourUpdates(was, f, Contents(fs));
  }

  lemma FourFieldUpdates(was: map<Pkt, Fields>, g: seq<Pkt>, ol: set<OlFlag>)
    requires |g| == 4 && forall p :: p in g ==> p in was
    ensures var c1 := was[g[0] := FieldSet(was[g[0]], ol)];
      var c2 := c1[g[1] := FieldSet(c1[g[1]], ol)];
      var c3 := c2[g[2] := FieldSet(c2[g[2]], ol)];
      c3[g[3] := FieldSet(c3[g[3]], ol)] == SetAll(was, g, ol)
  {
    forall p | p in g
      ensures FieldSet(FieldSet(was[p], ol), ol) == FieldSet(was[p], ol)
    {
      assert (was[p].olFlags * KEPT_FLAGS + ol) * KEPT_FLAGS + ol == was[p].olFlags * KEPT_FLAGS + ol by {
        assert forall x :: x in ol * KEPT_FLAGS ==> x in ol;
      }
    }
    hide FieldSet;
    assert forall p :: p in g <==> p == g[0] || p == g[1] || p == g[2] || p == g[3];
  }

  method SetFour(g: seq<Pkt>, ol: set<OlFlag>, ghost pkts: seq<Pkt>)
    requires |g| == 4 && forall p :: p in g ==> p in pkts
    modifies g
    ensures FieldMap(pkts) == SetAll(old(FieldMap(pkts)), g, ol)
    ensures Contents(Frames(pkts)) == old(Contents(Frames(pkts)))
  {
    hide FieldSet, FieldMap, SetAll;
    FourFieldUpdates(FieldMap(pkts), g, ol);
    MbufFieldSet(g[0], ol, pkts);
    MbufFieldSet(g[1], ol, pkts);
    MbufFieldSet(g[2], ol, pkts);
    MbufFieldSet(g[3], ol, pkts);
  }

  /** One round of the main loop: packets i to i + 3. */
  method VectorRound(isa: Isa, pkts: seq<Pkt>, i: nat, ol: set<OlFlag>)
    requires i + 4 <= |pkts| && forall p :: p in pkts ==> p.frame.Length >= 16
    modifies pkts, Frames(pkts)
    ensures Contents(Frames(pkts)) == SwapAll(old(Contents(Frames(pkts))), Frames(pkts)[i..i + 4])
    ensures FieldMap(pkts) == SetAll(old(FieldMap(pkts)), pkts[i..i + 4], ol)
  {
    hide *;
    var g := pkts[i..i + 4];
    FramesSlice(pkts, i);
    FramesOf(pkts, g);
    SwapFour(isa, Frames(g), Frames(pkts), pkts);
    SetFour(g, ol, pkts);
  }

  lemma GroupStepAt(was: map<array<byte>, seq<byte>>, fs: seq<array<byte>>, i: nat)
    requires forall a :: a in was ==> |was[a]| >= 12
    requires i % 4 == 0 && i + 4 <= |fs|
    ensures SwapAll(AfterRounds(was, fs[..i]), fs[i..i + 4]) == AfterRounds(was, fs[..i + 4])
  {
    assert fs[..i + 4] == fs[..i] + fs[i..i + 4];
    GroupStep(was, fs[..i], fs[i..i + 4]);
  }

  lemma SetStepAt(was: map<Pkt, Fields>, pkts: seq<Pkt>, i: nat, txp: TxPort)
    requires i + 4 <= |pkts|
    ensures SetAll(AfterFields(was, pkts[..i], txp), pkts[i..i + 4], OlFlagsInit(txp.offloads))
         == AfterFields(was, pkts[..i + 4], txp)
  {
    assert pkts[..i + 4] == pkts[..i] + pkts[i..i + 4];
    SetStep(was, pkts[..i], pkts[i..i + 4], txp);
  }

  lemma FramesOf(pkts: seq<Pkt>, g: seq<Pkt>)
    requires forall p :: p in g ==> p in pkts
    ensures forall a :: a in Frames(g) ==> a in Frames(pkts)
  {
    forall a | a in Frames(g)
      ensures a in Frames(pkts)
    {
      var i :| 0 <= i < |g| && Frames(g)[i] == a;
      assert g[i] in pkts;
      var j :| 0 <= j < |pkts| && pkts[j] == g[i];
      assert Frames(pkts)[j] == a;
    }
  }

  /** One round of the tail loop. */
  method VectorTail(isa: Isa, p: Pkt, ol: set<OlFlag>, ghost pkts: seq<Pkt>)
    requires p in pkts && p.frame in Frames(pkts) && p.frame.Length >= 16
    modifies p, p.frame
    ensures var fs := Frames(pkts); Contents(fs) == old(Contents(fs)[p.frame := SwapMac(Contents(fs)[p.frame])])
    ensures FieldMap(pkts) == old(FieldMap(pkts)[p := FieldSet(FieldMap(pkts)[p], ol)])
  {
    hide SwapMac, FieldSet, FieldMap, Frames;
    ghost var fs := Frames(pkts);
    var v := LoadShuffled(isa, p.frame, fs);
    Store16(p.frame, v, SwapMac(Contents(fs)[p.frame]), fs, pkts);
    MbufFieldSet(p, ol, pkts);
  }

  /** The vector forms: every round a frame takes part in swaps it once. */
  method DoMacSwapVector(isa: Isa, pkts: seq<Pkt>, txp: TxPort)
    requires forall p :: p in pkts ==> p.frame.Length >= 16
    modifies pkts, Frames(pkts)
    ensures Contents(Frames(pkts)) == AfterRounds(old(Contents(Frames(pkts))), Frames(pkts))
    ensures FieldMap(pkts) == AfterFields(old(FieldMap(pkts)), pkts, txp)
    ensures forall a :: a in Frames(pkts) ==> Exchanged(old(a[..]), a[..], Rounds(Frames(pkts), a) % 2 == 1)
    ensures Distinct(Frames(pkts)) ==> forall a :: a in Frames(pkts) ==> Exchanged(old(a[..]), a[..], true)
    ensures forall p :: p in pkts ==> Marked(p, old(FieldsOf(p)), txp)
  {
    hide *;
    ghost var fs := Frames(pkts);
    ghost var bytes, fields := Contents(fs), FieldMap(pkts);
    MapsAt(fs, pkts);
    SwapBurstVector(isa, pkts, txp);
    MapsAt(fs, pkts);
    RoundsMean(bytes, fs);
    FieldsMean(pkts, fields, txp);
  }

  method SwapBurstVector(isa: Isa, pkts: seq<Pkt>, txp: TxPort)
    requires forall p :: p in pkts ==> p.frame.Length >= 16
    modifies pkts, Frames(pkts)
    ensures Contents(Frames(pkts)) == AfterRounds(old(Contents(Frames(pkts))), Frames(pkts))
    ensures FieldMap(pkts) == AfterFields(old(FieldMap(pkts)), pkts, txp)
  {
    hide SwapMac, SwapAll, SetAll, AfterRounds, AfterFields, Contents, FieldMap, FieldSet, Rounds, Frames;
    ghost var fs := Frames(pkts);
    ghost var bytes, fields := Contents(fs), FieldMap(pkts);
    var ol := OlFlagsInit(txp.offloads);
    VlanQinqSet(pkts, txp);
    TakeAll(fs);
    TakeAll(pkts);
    Untouched(bytes);
    var i: nat, r: int := 0, |pkts|;
    assert pkts[..i] == [] && fs[..i] == [];
    while r >= 4
      invariant i + r == |pkts| && i % 4 == 0 && r >= 0
      invariant Contents(fs) == AfterRounds(bytes, fs[..i])
      invariant FieldMap(pkts) == AfterFields(fields, pkts[..i], txp)
    {
      GroupStepAt(bytes, fs, i);
      SetStepAt(fields, pkts, i, txp);
      VectorRound(isa, pkts, i, ol);
      i, r := i + 4, r - 4;
    }
    VectorRest(isa, pkts, txp, ol, i, fs, bytes, fields);
  }

  lemma FramesSlice(pkts: seq<Pkt>, i: nat)
    requires i + 4 <= |pkts|
    ensures Frames(pkts[i..i + 4]) == Frames(pkts)[i..i + 4]
  {
  }

  lemma RestStepAt(was: map<array<byte>, seq<byte>>, fs: seq<array<byte>>, i0: nat, i: nat)
    requires forall a :: a in was ==> |was[a]| >= 12
    requires i0 % 4 == 0 && i0 <= i < i0 + 3 && i < |fs| && fs[i] in was
    ensures var now := AfterRounds(was, fs[..i]);
      now[fs[i] := SwapMac(now[fs[i]])] == AfterRounds(was, fs[..i + 1])
  {
    assert fs[..i] == fs[..i0] + fs[i0..i];
    TakeSnoc(fs, i);
    RestStep(was, fs[..i0], fs[i0..i], fs[i]);
  }

  lemma FieldsStepAt(was: map<Pkt, Fields>, pkts: seq<Pkt>, i: nat, txp: TxPort)
    requires i < |pkts| && pkts[i] in was
    ensures var now := AfterFields(was, pkts[..i], txp);
      now[pkts[i] := FieldSet(now[pkts[i]], OlFlagsInit(txp.offloads))] == AfterFields(was, pkts[..i + 1], txp)
  {
    TakeSnoc(pkts, i);
    FieldsStep(was, pkts[..i], pkts[i], txp);
  }

  /** The tail loop, from packet `i0` on. */
  method VectorRest(isa: Isa, pkts: seq<Pkt>, txp: TxPort, ol: set<OlFlag>, i0: nat, ghost fs: seq<array<byte>>,
                    ghost bytes: map<array<byte>, seq<byte>>, ghost fields: map<Pkt, Fields>)
    requires forall p :: p in pkts ==> p.frame.Length >= 16
    requires fs == Frames(pkts) && |fs| == |pkts| && ol == OlFlagsInit(txp.offloads)
    requires forall p :: p in pkts ==> p in fields
    requires (forall a :: a in fs ==> a in bytes) && forall a :: a in bytes ==> |bytes[a]| >= 12
    requires i0 <= |pkts| < i0 + 4 && i0 % 4 == 0
    requires Contents(fs) == AfterRounds(bytes, fs[..i0])
    requires FieldMap(pkts) == AfterFields(fields, pkts[..i0], txp)
    modifies pkts, Frames(pkts)
    ensures Contents(fs) == AfterRounds(bytes, fs)
    ensures FieldMap(pkts) == AfterFields(fields, pkts, txp)
  {
    hide SwapMac, SwapAll, SetAll, AfterRounds, AfterFields, Contents, FieldMap, FieldSet, Rounds, OlFlagsInit, Frames;
    for i := i0 to |pkts|
      invariant Contents(fs) == AfterRounds(bytes, fs[..i])
      invariant FieldMap(pkts) == AfterFields(fields, pkts[..i], txp)
    {
      RestStepAt(bytes, fs, i0, i);
      FieldsStepAt(fields, pkts, i, txp);
      VectorTail(isa, pkts[i], ol, pkts);
    }
    TakeAll(fs);
    TakeAll(pkts);
  }

  // ---------- agreement ----------

  /** On any burst the vector forms leave the frames the scalar form leaves exactly if each frame's
      rounds and occurrences have the same parity, or its two addresses are equal. */
  lemma FormsAgree(was: map<array<byte>, seq<byte>>, fs: seq<array<byte>>)
    requires forall a :: a in was ==> |was[a]| >= 12
    ensures AfterRounds(was, fs) == AfterSwaps(was, fs)
      <==> forall a :: a in was ==> Rounds(fs, a) % 2 == multiset(fs)[a] % 2 || was[a][..6] == was[a][6..12]
  {
    forall a | a in was
      ensures Swaps(Rounds(fs, a), was[a]) == Swaps(multiset(fs)[a], was[a])
        <==> Rounds(fs, a) % 2 == multiset(fs)[a] % 2 || was[a][..6] == was[a][6..12]
    {
      SwapsAgree(Rounds(fs, a), multiset(fs)[a], was[a]);
    }
    hide Swaps, Rounds;
    assert forall a :: a in was ==> AfterRounds(was, fs)[a] == Swaps(Rounds(fs, a), was[a]);
    assert forall a :: a in was ==> AfterSwaps(was, fs)[a] == Swaps(multiset(fs)[a], was[a]);
  }

  /** In particular on bursts of distinct frames. */
  lemma FormsAgreeOnDistinct(was: map<array<byte>, seq<byte>>, fs: seq<array<byte>>)
    requires forall a :: a in was ==> |was[a]| >= 12
    requires Distinct(fs)
    ensures AfterRounds(was, fs) == AfterSwaps(was, fs)
  {
    forall a | a in was
      ensures Rounds(fs, a) == multiset(fs)[a]
    {
      DistinctRounds(fs, a);
    }
  }
}
