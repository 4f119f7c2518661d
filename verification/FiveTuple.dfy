/** Exchanging source and destination of layers 2, 3 and 4 in place (5tswap.c). */
module FiveTuple {
  import opened Common
  import opened Checksum
  import opened Frames

  const TYPE_VLAN := 0x8100
  const TYPE_QINQ := 0x88A8
  const TYPE_IPV4 := 0x0800
  const TYPE_IPV6 := 0x86DD
  const IPPROTO_TCP := 6
  const IPPROTO_UDP := 17

  function Be16(f: seq<byte>, at: nat): nat
    requires at + 2 <= |f|
  {
    HostWord(f[at], f[at + 1], false)
  }

  predicate IsTag(proto: nat) {
    proto == TYPE_VLAN || proto == TYPE_QINQ
  }

  // ---------- the layers of a frame ----------

  datatype L3 = V4 | V6 | OtherL3

  /** Where the network header starts, what it is, and where the ports are if there are any. */
  datatype Layout = Layout(l3: nat, kind: L3, l4: Option<nat>)

  /** The end of the VLAN tags that start at `cur` after a header naming `proto`; None if they run off
      the frame. */
  function TagsEnd(f: seq<byte>, cur: nat, proto: nat): (r: Option<(nat, nat)>)
    requires cur <= |f|
    ensures r.Some? ==> cur <= r.value.0 <= |f| && !IsTag(r.value.1)
    decreases |f| - cur
  {
    if !IsTag(proto) then Some((cur, proto))
    else if cur + 4 > |f| then None
    else TagsEnd(f, cur + 4, Be16(f, cur + 2))
  }

  function L4Of(next: nat, at: nat): Option<nat> {
    if next == IPPROTO_UDP || next == IPPROTO_TCP then Some(at) else None
  }

  /** None if some layer the frame announces runs off it. */
  function LayoutOf(f: seq<byte>): (r: Option<Layout>)
    ensures r.Some? ==> 14 <= r.value.l3 <= |f|
    ensures r.Some? && r.value.kind == V4 ==> r.value.l3 + 20 <= |f|
    ensures r.Some? && r.value.kind == V6 ==> r.value.l3 + 40 <= |f|
    ensures r.Some? && r.value.l4.Some? ==> r.value.l4.value + 4 <= |f| && r.value.kind != OtherL3
  {
    if |f| < 14 then None
    else match TagsEnd(f, 14, Be16(f, 12))
    case None => None
    case Some((l3, proto)) =>
      if proto == TYPE_IPV4 then
        if l3 + 20 > |f| then None
        else
          var l4 := L4Of(f[l3 + 9], l3 + 4 * (f[l3] % 16));
          if l4.Some? && l4.value + 4 > |f| then None else Some(Layout(l3, V4, l4))
      else if proto == TYPE_IPV6 then
        if l3 + 40 > |f| then None
        else
          var l4 := L4Of(f[l3 + 6], l3 + 40);
          if l4.Some? && l4.value + 4 > |f| then None else Some(Layout(l3, V6, l4))
      else Some(Layout(l3, OtherL3, None))
  }

  function SwapL3(f: seq<byte>, y: Layout): (r: seq<byte>)
    requires y.l3 + (if y.kind == V4 then 20 else if y.kind == V6 then 40 else 0) <= |f|
    ensures |r| == |f|
  {
    match y.kind
    case V4 => SwapAdj(f, y.l3 + 12, 4)
    case V6 => SwapAdj(f, y.l3 + 8, 16)
    case OtherL3 => f
  }

  function SwapL4(f: seq<byte>, y: Layout): (r: seq<byte>)
    requires y.l4.Some? ==> y.l4.value + 4 <= |f|
    ensures |r| == |f|
  {
    if y.l4.Some? then SwapAdj(f, y.l4.value, 2) else f
  }

  /** What the engine makes of a frame. */
  function Swapped(f: seq<byte>): (r: seq<byte>)
    requires LayoutOf(f).Some?
    ensures |r| == |f|
  {
    var y := LayoutOf(f).value;
    SwapL4(SwapL3(SwapAdj(f, 0, 6), y), y)
  }

  // ---------- the walk ----------

  /** One packet of pkt_burst_5tuple_swap. The source reads no length: the frame has to hold the layers
      it announces. */
  method SwapFiveTuple(f: array<byte>)
    requires LayoutOf(f[..]).Some?
    modifies f
    ensures f[..] == Swapped(old(f[..]))
    ensures var y := LayoutOf(old(f[..])).value;
      LaidOut(old(f[..]), y) && (PortsBehindHeader(y) ==> Exchanged(old(f[..]), f[..], y))
  {
    hide SwapAdj, TagsEnd, LaidOut, Exchanged, PortsBehindHeader;
    ghost var was := f[..];
    ghost var y := LayoutOf(was).value;
    LayoutMeans(was);
    if PortsBehindHeader(y) {
      SwappedBytes(was);
    }
    var proto: nat := HostWord(f[12], f[13], false);
    SwapBytes(f, 0, 6);
    var h: nat;
    h, proto := SkipTags(f, proto, was);
    AfterMac(was, h);
    var next: nat;
    if proto == TYPE_IPV4 {
      SwapBytes(f, h + 12, 4);
      AfterV4(was, h);
      next := f[h + 9];
      h := h + 4 * (f[h] % 16);
    } else if proto == TYPE_IPV6 {
      SwapBytes(f, h + 8, 16);
      AfterV6(was, h);
      next := f[h + 6];
      h := h + 40;
    } else {
      return;
    }
    if next == IPPROTO_UDP {
      SwapBytes(f, h, 2);
    } else if next == IPPROTO_TCP {
      SwapBytes(f, h, 2);
    }
  }

  /** The VLAN loop, on the frame whose addresses are already exchanged. */
  method SkipTags(f: array<byte>, proto0: nat, ghost was: seq<byte>) returns (h: nat, proto: nat)
    requires LayoutOf(was).Some? && f[..] == SwapAdj(was, 0, 6) && proto0 == Be16(was, 12)
    ensures TagsEnd(was, 14, Be16(was, 12)) == Some((h, proto))
  {
    h, proto := 14, proto0;
    while IsTag(proto)
      invariant 14 <= h <= |was| && TagsEnd(was, h, proto) == TagsEnd(was, 14, Be16(was, 12))
      decreases |was| - h
    {
      SwapAdjAt(was, 0, 6, h + 2);
      SwapAdjAt(was, 0, 6, h + 3);
      proto := HostWord(f[h + 2], f[h + 3], false);
      h := h + 4;
    }
  }

  lemma AfterMac(f: seq<byte>, h: nat)
    requires |f| >= 14 && 14 <= h
    ensures forall i :: 12 <= i < |f| ==> SwapAdj(f, 0, 6)[i] == f[i]
  {
    forall i | 12 <= i < |f|
      ensures SwapAdj(f, 0, 6)[i] == f[i]
    {
      SwapAdjAt(f, 0, 6, i);
    }
  }

  /** The address exchange does not touch the fields the walk still reads. */
  lemma AfterV4(f: seq<byte>, h: nat)
    requires 14 <= h && h + 20 <= |f|
    ensures var g := SwapAdj(SwapAdj(f, 0, 6), h + 12, 4); g[h] == f[h] && g[h + 9] == f[h + 9]
  {
    SwapAdjAt(f, 0, 6, h);
    SwapAdjAt(f, 0, 6, h + 9);
    SwapAdjAt(SwapAdj(f, 0, 6), h + 12, 4, h);
    SwapAdjAt(SwapAdj(f, 0, 6), h + 12, 4, h + 9);
  }

  lemma AfterV6(f: seq<byte>, h: nat)
    requires 14 <= h && h + 40 <= |f|
    ensures var g := SwapAdj(SwapAdj(f, 0, 6), h + 8, 16); g[h + 6] == f[h + 6]
  {
    SwapAdjAt(f, 0, 6, h + 6);
    SwapAdjAt(SwapAdj(f, 0, 6), h + 8, 16, h + 6);
  }

  // ---------- twice is nothing ----------

  /** The ports lie behind the network header. For IPv4 that is an IHL of at least 5, or a protocol
      without ports. */
  predicate PortsBehindHeader(y: Layout) {
    y.l4.Some? ==> y.l4.value >= y.l3 + if y.kind == V4 then 20 else 40
  }

  // ---------- in bytes ----------

  /** VLAN (81 00) or QinQ (88 A8) type at `at`. */
  predicate TagAt(f: seq<byte>, at: nat)
    requires at + 2 <= |f|
  {
    f[at..at + 2] == [0x81, 0x00] || f[at..at + 2] == [0x88, 0xA8]
  }

  /** The layout on the bytes of the frame: tags of four bytes as long as the type field says so, then IPv4,
      IPv6 or something else by the type in front; UDP (17) and TCP (6) ports behind the header length the
      IPv4 header gives, or behind the 40 bytes of the IPv6 header. */
  predicate LaidOut(f: seq<byte>, y: Layout) {
    && 14 <= y.l3 <= |f| && (y.l3 - 14) % 4 == 0
    && (forall at :: 12 <= at < y.l3 - 2 && at % 4 == 0 ==> TagAt(f, at))
    && !TagAt(f, y.l3 - 2)
    && var proto := f[y.l3 - 2..y.l3];
    && (y.kind == V4 <==> proto == [0x08, 0x00]) && (y.kind == V6 <==> proto == [0x86, 0xDD])
    && (y.kind == V4 ==> y.l3 + 20 <= |f|) && (y.kind == V6 ==> y.l3 + 40 <= |f|)
    && (y.kind == V4 ==>
         y.l4 == if f[y.l3 + 9] == 17 || f[y.l3 + 9] == 6 then Some(y.l3 + 4 * (f[y.l3] % 16)) else None)
    && (y.kind == V6 ==> y.l4 == if f[y.l3 + 6] == 17 || f[y.l3 + 6] == 6 then Some(y.l3 + 40) else None)
    && (y.kind == OtherL3 ==> y.l4.None?)
  }

  lemma {:induction false} TagsMean(f: seq<byte>, cur: nat)
    requires 14 <= cur <= |f| && cur % 4 == 2 && TagsEnd(f, cur, Be16(f, cur - 2)).Some?
    ensures var (end, proto) := TagsEnd(f, cur, Be16(f, cur - 2)).value;
      && cur <= end <= |f| && end % 4 == 2 && proto == Be16(f, end - 2) && !TagAt(f, end - 2)
      && forall at :: cur - 2 <= at < end - 2 && at % 4 == 0 ==> TagAt(f, at)
    decreases |f| - cur
  {
    TypeMeans(f, cur - 2);
    hide Be16;
    if IsTag(Be16(f, cur - 2)) {
      TagsMean(f, cur + 4);
    }
  }

  lemma TypeMeans(f: seq<byte>, at: nat)
    requires at + 2 <= |f|
    ensures IsTag(Be16(f, at)) <==> TagAt(f, at)
    ensures Be16(f, at) == 0x0800 <==> f[at..at + 2] == [0x08, 0x00]
    ensures Be16(f, at) == 0x86DD <==> f[at..at + 2] == [0x86, 0xDD]
  {
    var b := f[at..at + 2];
    assert b == [f[at], f[at + 1]];
    assert HostWord(0x81, 0x00, false) == 0x8100 && HostWord(0x88, 0xA8, false) == 0x88A8;
    assert HostWord(0x08, 0x00, false) == 0x0800 && HostWord(0x86, 0xDD, false) == 0x86DD;
    TwoBytes(f[at], f[at + 1], 0x81, 0x00);
    TwoBytes(f[at], f[at + 1], 0x88, 0xA8);
    TwoBytes(f[at], f[at + 1], 0x08, 0x00);
    TwoBytes(f[at], f[at + 1], 0x86, 0xDD);
  }

  lemma TwoBytes(a: byte, b: byte, c: byte, d: byte)
    ensures var x, y := HostWord(a, b, false), HostWord(c, d, false); x == y <==> [a, b] == [c, d]
  {
    assert [a, b] == [c, d] <==> a == c && b == d by {
      assert [a, b][0] == a && [a, b][1] == b && [c, d][0] == c && [c, d][1] == d;
    }
  }

  lemma LayoutMeans(f: seq<byte>)
    requires LayoutOf(f).Some?
    ensures LaidOut(f, LayoutOf(f).value)
  {
    TagsMean(f, 14);
    TypeMeans(f, LayoutOf(f).value.l3 - 2);
    hide Be16, TagAt;
  }

  /** Where byte `i` of the result comes from: source and destination exchanged in layers 2, 3 and 4, every
      other byte where it was. */
  predicate Exchanged(f: seq<byte>, g: seq<byte>, y: Layout) {
    |g| == |f| && 12 <= |f| && forall i {:trigger g[i]} :: 0 <= i < |f| ==>
      var j :=
        if i < 6 then i + 6
        else if i < 12 then i - 6
        else if y.kind == V4 && y.l3 + 12 <= i < y.l3 + 16 then i + 4
        else if y.kind == V4 && y.l3 + 16 <= i < y.l3 + 20 then i - 4
        else if y.kind == V6 && y.l3 + 8 <= i < y.l3 + 24 then i + 16
        else if y.kind == V6 && y.l3 + 24 <= i < y.l3 + 40 then i - 16
        else if y.l4.Some? && y.l4.value <= i < y.l4.value + 2 then i + 2
        else if y.l4.Some? && y.l4.value + 2 <= i < y.l4.value + 4 then i - 2
        else i;
      j < |f| && g[i] == f[j]
  }

  lemma SwappedBytes(f: seq<byte>)
    requires LayoutOf(f).Some? && PortsBehindHeader(LayoutOf(f).value)
    ensures Exchanged(f, Swapped(f), LayoutOf(f).value)
  {
    var y := LayoutOf(f).value;
    SwapsExchange(f, y);
  }

  lemma SwapsExchange(f: seq<byte>, y: Layout)
    requires 14 <= y.l3 <= |f| && PortsBehindHeader(y) && (y.kind == OtherL3 ==> y.l4.None?)
    requires y.l3 + (if y.kind == V4 then 20 else if y.kind == V6 then 40 else 0) <= |f|
    requires y.l4.Some? ==> y.l4.value + 4 <= |f|
    ensures Exchanged(f, SwapL4(SwapL3(SwapAdj(f, 0, 6), y), y), y)
  {
    hide SwapAdj, SwapL3, SwapL4;
    var g := SwapL4(SwapL3(SwapAdj(f, 0, 6), y), y);
    forall i {:trigger g[i]} | 0 <= i < |f|
      ensures 0 <= Origin(y, i) < |f| && g[i] == f[Origin(y, i)]
    {
      OriginOf(f, y, i);
    }
  }

  /** The same case by case. */
  function Origin(y: Layout, i: nat): int {
    if i < 6 then i + 6
    else if i < 12 then i - 6
    else if y.kind == V4 && y.l3 + 12 <= i < y.l3 + 16 then i + 4
    else if y.kind == V4 && y.l3 + 16 <= i < y.l3 + 20 then i - 4
    else if y.kind == V6 && y.l3 + 8 <= i < y.l3 + 24 then i + 16
    else if y.kind == V6 && y.l3 + 24 <= i < y.l3 + 40 then i - 16
    else if y.l4.Some? && y.l4.value <= i < y.l4.value + 2 then i + 2
    else if y.l4.Some? && y.l4.value + 2 <= i < y.l4.value + 4 then i - 2
    else i
  }

  lemma OriginOf(f: seq<byte>, y: Layout, i: nat)
    requires 14 <= y.l3 <= |f| && PortsBehindHeader(y) && (y.kind == OtherL3 ==> y.l4.None?) && i < |f|
    requires y.l3 + (if y.kind == V4 then 20 else if y.kind == V6 then 40 else 0) <= |f|
    requires y.l4.Some? ==> y.l4.value + 4 <= |f|
    ensures 0 <= Origin(y, i) < |f| && SwapL4(SwapL3(SwapAdj(f, 0, 6), y), y)[i] == f[Origin(y, i)]
  {
    hide SwapAdj;
    var e := SwapAdj(f, 0, 6);
    var n := SwapL3(e, y);
    var b := if y.l4.Some? then Moved(y.l4.value, 2, i) else i;
    if y.l4.Some? {
      SwapAdjAt(n, y.l4.value, 2, i);
    }
    if y.kind == V4 {
      SwapAdjAt(e, y.l3 + 12, 4, b);
      SwapAdjAt(f, 0, 6, Moved(y.l3 + 12, 4, b));
    } else if y.kind == V6 {
      SwapAdjAt(e, y.l3 + 8, 16, b);
      SwapAdjAt(f, 0, 6, Moved(y.l3 + 8, 16, b));
    } else {
      SwapAdjAt(f, 0, 6, b);
    }
  }

  /** `g` has the bytes of `f` from `lo` up to `hi`. */
  predicate Agree(f: seq<byte>, g: seq<byte>, lo: nat, hi: nat) {
    |f| == |g| && forall i :: lo <= i < hi && i < |f| ==> g[i] == f[i]
  }

  lemma {:induction false} TagsAgree(f: seq<byte>, g: seq<byte>, cur: nat, proto: nat)
    requires cur <= |f| && TagsEnd(f, cur, proto).Some? && Agree(f, g, cur, TagsEnd(f, cur, proto).value.0)
    ensures TagsEnd(g, cur, proto) == TagsEnd(f, cur, proto)
    decreases |f| - cur
  {
    if IsTag(proto) {
      TagsAgree(f, g, cur + 4, Be16(f, cur + 2));
    }
  }

  /** The bytes that decide the layout. */
  predicate SameLayoutBytes(f: seq<byte>, g: seq<byte>, y: Layout) {
    && Agree(f, g, 12, y.l3)
    && (y.kind == V4 ==> Agree(f, g, y.l3, y.l3 + 1) && Agree(f, g, y.l3 + 9, y.l3 + 10))
    && (y.kind == V6 ==> Agree(f, g, y.l3 + 6, y.l3 + 7))
  }

  lemma LayoutAgrees(f: seq<byte>, g: seq<byte>)
    requires LayoutOf(f).Some? && SameLayoutBytes(f, g, LayoutOf(f).value)
    ensures LayoutOf(g) == LayoutOf(f)
  {
    hide TagsEnd;
    assert Be16(g, 12) == Be16(f, 12);
    TagsAgree(f, g, 14, Be16(f, 12));
  }

  /** What the engine moves is not what decides the layout. */
  lemma SwapKeepsLayout(f: seq<byte>)
    requires LayoutOf(f).Some? && PortsBehindHeader(LayoutOf(f).value)
    ensures LayoutOf(Swapped(f)) == LayoutOf(f)
  {
    var y, g := LayoutOf(f).value, Swapped(f);
    var e := SwapAdj(f, 0, 6);
    var n := SwapL3(e, y);
    hide LayoutOf, SwapAdj;
    forall i | 12 <= i < |f| && (i < y.l3 || (y.kind == V4 && i < y.l3 + 12) || (y.kind == V6 && i < y.l3 + 8))
      ensures g[i] == f[i]
    {
      SwapAdjAt(f, 0, 6, i);
      if y.kind == V4 {
        SwapAdjAt(e, y.l3 + 12, 4, i);
      } else if y.kind == V6 {
        SwapAdjAt(e, y.l3 + 8, 16, i);
      }
      if y.l4.Some? {
        SwapAdjAt(n, y.l4.value, 2, i);
      }
    }
    assert SameLayoutBytes(f, g, y);
    LayoutAgrees(f, g);
  }

  /** Exchanges of disjoint blocks do not care about their order. */
  lemma SwapsCommute(f: seq<byte>, a: nat, n: nat, b: nat, m: nat)
    requires a + 2 * n <= b && b + 2 * m <= |f|
    ensures SwapAdj(SwapAdj(f, a, n), b, m) == SwapAdj(SwapAdj(f, b, m), a, n)
  {
    var l, r := SwapAdj(SwapAdj(f, a, n), b, m), SwapAdj(SwapAdj(f, b, m), a, n);
    forall i | 0 <= i < |f|
      ensures l[i] == r[i]
    {
      SwapAdjAt(SwapAdj(f, a, n), b, m, i);
      SwapAdjAt(SwapAdj(f, b, m), a, n, i);
      SwapAdjAt(f, a, n, if b <= i < b + m then i + m else if b + m <= i < b + 2 * m then i - m else i);
      SwapAdjAt(f, b, m, if a <= i < a + n then i + n else if a + n <= i < a + 2 * n then i - n else i);
    }
  }

  /** Applied twice, the engine restores every byte of the frame. */
  lemma SwappedTwice(f: seq<byte>)
    requires LayoutOf(f).Some? && PortsBehindHeader(LayoutOf(f).value)
    ensures LayoutOf(Swapped(f)).Some? && Swapped(Swapped(f)) == f
  {
    SwapKeepsLayout(f);
    hide LayoutOf, SwapAdj;
    var y := LayoutOf(f).value;
    UndoThree(f, y);
  }

  /** Three exchanges of disjoint blocks, made again in the same order. */
  lemma UndoThree(f: seq<byte>, y: Layout)
    requires 14 <= y.l3 && PortsBehindHeader(y) && (y.l4.Some? ==> y.kind != OtherL3 && y.l4.value + 4 <= |f|)
    requires y.l3 + (if y.kind == V4 then 20 else if y.kind == V6 then 40 else 0) <= |f|
    ensures var g := SwapL4(SwapL3(SwapAdj(f, 0, 6), y), y); SwapL4(SwapL3(SwapAdj(g, 0, 6), y), y) == f
  {
    hide SwapAdj;
    var e := SwapAdj(f, 0, 6);
    var n := SwapL3(e, y);
    var g := SwapL4(n, y);
    // the second round undoes the first, innermost last
    assert SwapAdj(g, 0, 6) == SwapL4(SwapL3(f, y), y) by {
      if y.l4.Some? {
        SwapsCommute(n, 0, 6, y.l4.value, 2);
      }
      if y.kind == V4 {
        SwapsCommute(e, 0, 6, y.l3 + 12, 4);
      } else if y.kind == V6 {
        SwapsCommute(e, 0, 6, y.l3 + 8, 16);
      }
      SwapAdjTwice(f, 0, 6);
    }
    assert SwapL3(SwapL4(SwapL3(f, y), y), y) == SwapL4(f, y) by {
      if y.kind == V4 {
        if y.l4.Some? {
          SwapsCommute(SwapL3(f, y), y.l3 + 12, 4, y.l4.value, 2);
        }
        SwapAdjTwice(f, y.l3 + 12, 4);
      } else if y.kind == V6 {
        if y.l4.Some? {
          SwapsCommute(SwapL3(f, y), y.l3 + 8, 16, y.l4.value, 2);
        }
        SwapAdjTwice(f, y.l3 + 8, 16);
      }
    }
    if y.l4.Some? {
      SwapAdjTwice(f, y.l4.value, 2);
    }
  }

  // ---------- short IPv4 headers ----------

  /** With an IHL below 5 the "ports" lie inside the 20-byte header, and a second application does not
      always undo the first. What the caller would have to look at: */
  predicate ShortHeaderUndone(f: seq<byte>, l3: nat)
    requires l3 + 20 <= |f|
  {
    var ihl := f[l3] % 16;
    if ihl == 0 then f[l3 + 2] % 16 == 0
    else if ihl == 1 then true
    else if ihl == 2 then f[l3 + 11] == IPPROTO_UDP || f[l3 + 11] == IPPROTO_TCP
    else f[l3 + 12..l3 + 14] == f[l3 + 14..l3 + 16] && f[l3 + 16..l3 + 18] == f[l3 + 18..l3 + 20]
  }

  /** The network and transport exchanges of two rounds, the address exchange of layer 2 cancelled. */
  lemma MacCancels(f: seq<byte>, y: Layout, z: Layout)
    requires 14 <= y.l3 == z.l3 && y.kind == z.kind == V4 && y.l3 + 20 <= |f|
    requires y.l4.Some? ==> y.l3 <= y.l4.value && y.l4.value + 4 <= |f|
    requires z.l4.Some? ==> z.l3 <= z.l4.value && z.l4.value + 4 <= |f|
    ensures SwapL4(SwapL3(SwapAdj(SwapL4(SwapL3(SwapAdj(f, 0, 6), y), y), 0, 6), z), z)
         == SwapL4(SwapL3(SwapL4(SwapL3(f, y), y), z), z)
  {
    hide SwapAdj;
    var e := SwapAdj(f, 0, 6);
    var n := SwapL3(e, y);
    if y.l4.Some? {
      SwapsCommute(n, 0, 6, y.l4.value, 2);
    }
    SwapsCommute(e, 0, 6, y.l3 + 12, 4);
    SwapAdjTwice(f, 0, 6);
  }

  lemma ExchangedEqual(f: seq<byte>, a: nat, n: nat)
    requires a + 2 * n <= |f|
    ensures SwapAdj(f, a, n) == f <==> f[a..a + n] == f[a + n..a + 2 * n]
  {
    var g := SwapAdj(f, a, n);
    assert g[a..a + n] == f[a + n..a + 2 * n];
    if f[a..a + n] == f[a + n..a + 2 * n] {
      assert f == f[..a] + f[a..a + n] + f[a + n..a + 2 * n] + f[a + 2 * n..];
    }
  }

  /** IHL 3 or 4: each address comes back with its halves exchanged. */
  lemma HalvesExchanged(f: seq<byte>, b: nat, p: nat)
    requires b + 8 <= |f| && (p == b || p == b + 4)
    ensures SwapAdj(SwapAdj(SwapAdj(SwapAdj(f, b, 4), p, 2), b, 4), p, 2) == SwapAdj(SwapAdj(f, b, 2), b + 4, 2)
  {
    hide SwapAdj;
    var f1 := SwapAdj(f, b, 4);
    var f2 := SwapAdj(f1, p, 2);
    var f3 := SwapAdj(f2, b, 4);
    var l, r := SwapAdj(f3, p, 2), SwapAdj(SwapAdj(f, b, 2), b + 4, 2);
    forall i | 0 <= i < |f|
      ensures l[i] == r[i]
    {
      var i3 := Moved(p, 2, i);
      var i2 := Moved(b, 4, i3);
      var i1 := Moved(p, 2, i2);
      SwapAdjAt(f3, p, 2, i);
      SwapAdjAt(f2, b, 4, i3);
      SwapAdjAt(f1, p, 2, i2);
      SwapAdjAt(f, b, 4, i1);
      SwapAdjAt(SwapAdj(f, b, 2), b + 4, 2, i);
      SwapAdjAt(f, b, 2, Moved(b + 4, 2, i));
    }
  }

  function Moved(a: nat, n: nat, i: nat): nat {
    if a <= i < a + n then i + n else if a + n <= i < a + 2 * n then i - n else i
  }

  lemma HalvesEqual(f: seq<byte>, b: nat)
    requires b + 8 <= |f|
    ensures SwapAdj(SwapAdj(f, b, 2), b + 4, 2) == f
      <==> f[b..b + 2] == f[b + 2..b + 4] && f[b + 4..b + 6] == f[b + 6..b + 8]
  {
    var g := SwapAdj(f, b, 2);
    SwapAdjOutside(f, b, 2, b + 4, b + 6);
    SwapAdjOutside(f, b, 2, b + 6, b + 8);
    SwapAdjOutside(g, b + 4, 2, b, b + 2);
    ExchangedEqual(f, b, 2);
    ExchangedEqual(g, b + 4, 2);
    assert g[b..b + 2] == f[b + 2..b + 4];
  }

  lemma V4Layout(f: seq<byte>)
    requires LayoutOf(f).Some? && LayoutOf(f).value.kind == V4
    ensures var y := LayoutOf(f).value;
      TagsEnd(f, 14, Be16(f, 12)) == Some((y.l3, TYPE_IPV4)) && y.l4 == L4Of(f[y.l3 + 9], y.l3 + 4 * (f[y.l3] % 16))
  {
  }

  /** Of the bytes before the addresses, one round moves at most the "ports". */
  lemma FrontBytes(f: seq<byte>, i: nat)
    requires LayoutOf(f).Some? && LayoutOf(f).value.kind == V4 && 12 <= i < LayoutOf(f).value.l3 + 12
    requires var y := LayoutOf(f).value; y.l4.Some? ==> y.l3 <= y.l4.value
    ensures var y := LayoutOf(f).value; Moved(if y.l4.Some? then y.l4.value else |f|, 2, i) < |f|
    ensures var y := LayoutOf(f).value; Swapped(f)[i] == f[Moved(if y.l4.Some? then y.l4.value else |f|, 2, i)]
  {
    V4Layout(f);
    hide SwapAdj, LayoutOf, TagsEnd;
    var y := LayoutOf(f).value;
    var e := SwapAdj(f, 0, 6);
    var n := SwapL3(e, y);
    var j := Moved(if y.l4.Some? then y.l4.value else |f|, 2, i);
    if y.l4.Some? {
      SwapAdjAt(n, y.l4.value, 2, i);
    }
    SwapAdjAt(e, y.l3 + 12, 4, j);
    SwapAdjAt(f, 0, 6, j);
  }

  /** The second round finds the same network header. */
  lemma SecondTags(f: seq<byte>)
    requires LayoutOf(f).Some? && LayoutOf(f).value.kind == V4
    requires var y := LayoutOf(f).value; y.l4.Some? ==> y.l3 <= y.l4.value
    ensures TagsEnd(Swapped(f), 14, Be16(Swapped(f), 12)) == Some((LayoutOf(f).value.l3, TYPE_IPV4))
  {
    var y, g := LayoutOf(f).value, Swapped(f);
    V4Layout(f);
    forall i | 12 <= i < y.l3
      ensures g[i] == f[i]
    {
      FrontBytes(f, i);
    }
    hide SwapAdj, TagsEnd, Swapped;
    TagsAgree(f, g, 14, Be16(f, 12));
  }

  /** The layout seen by the second round: same header, ports as the first round's result says. */
  lemma SecondLayout(f: seq<byte>)
    requires LayoutOf(f).Some? && LayoutOf(f).value.kind == V4 && LayoutOf(Swapped(f)).Some?
    requires var y := LayoutOf(f).value; y.l4.Some? ==> y.l3 <= y.l4.value
    ensures var y, z, g := LayoutOf(f).value, LayoutOf(Swapped(f)).value, Swapped(f);
      z.l3 == y.l3 && z.kind == V4 && z.l4 == L4Of(g[y.l3 + 9], y.l3 + 4 * (g[y.l3] % 16))
  {
    SecondTags(f);
    hide SwapAdj, TagsEnd, Swapped;
  }

  /** The second round stays in the frame as long as the IHL it finds is short, too. */
  lemma SecondFits(f: seq<byte>)
    requires LayoutOf(f).Some? && LayoutOf(f).value.kind == V4 && !PortsBehindHeader(LayoutOf(f).value)
    requires ShortHeaderUndone(f, LayoutOf(f).value.l3)
    ensures LayoutOf(Swapped(f)).Some?
  {
    V4Layout(f);
    var l3 := LayoutOf(f).value.l3;
    FrontBytes(f, l3);
    SecondTags(f);
    hide SwapAdj, TagsEnd, Swapped;
    assert Swapped(f)[l3] % 16 < 5;
  }

  /** Both rounds together, layer 2 cancelled. */
  lemma TwoRounds(f: seq<byte>)
    requires LayoutOf(f).Some? && LayoutOf(f).value.kind == V4 && LayoutOf(Swapped(f)).Some?
    requires var y := LayoutOf(f).value; y.l4.Some? ==> y.l3 <= y.l4.value
    ensures var y, z := LayoutOf(f).value, LayoutOf(Swapped(f)).value;
      && z.l3 == y.l3 && z.kind == V4 && (z.l4.Some? ==> z.l4.value >= y.l3 && z.l4.value + 4 <= |f|)
      && Swapped(Swapped(f)) == SwapL4(SwapL3(SwapL4(SwapL3(f, y), y), z), z)
  {
    SecondLayout(f);
    var y, z := LayoutOf(f).value, LayoutOf(Swapped(f)).value;
    hide SwapAdj, SwapL3, SwapL4;
    MacCancels(f, y, z);
  }

  /** The exact condition under which a second application undoes the first on an IPv4 frame; it also
      keeps the second application inside the frame. */
  lemma UndoneIff(f: seq<byte>)
    requires LayoutOf(f).Some? && LayoutOf(f).value.kind == V4
    ensures var y := LayoutOf(f).value;
      (LayoutOf(Swapped(f)).Some? && Swapped(Swapped(f)) == f)
        <==> PortsBehindHeader(y) || ShortHeaderUndone(f, y.l3)
  {
    if PortsBehindHeader(LayoutOf(f).value) {
      SwappedTwice(f);
    } else {
      hide *;
      if ShortHeaderUndone(f, LayoutOf(f).value.l3) {
        SecondFits(f);
      }
      if LayoutOf(Swapped(f)).Some? {
        ShortUndone(f);
      }
    }
  }

  lemma ShortUndone(f: seq<byte>)
    requires LayoutOf(f).Some? && LayoutOf(f).value.kind == V4 && LayoutOf(Swapped(f)).Some?
    requires !PortsBehindHeader(LayoutOf(f).value)
    ensures (Swapped(Swapped(f)) == f) == ShortHeaderUndone(f, LayoutOf(f).value.l3)
  {
    hide SwapL3, SwapL4, SwapAdj, ShortHeaderUndone, TagsEnd;
    var l3 := LayoutOf(f).value.l3;
    V4Layout(f);
    FrontBytes(f, l3);
    FrontBytes(f, l3 + 9);
    SecondLayout(f);
    TwoRounds(f);
    hide LayoutOf, Swapped;
    ShortIff(f, l3, LayoutOf(Swapped(f)).value.l4);
  }

  /** The same on the two layouts. */
  lemma ShortIff(f: seq<byte>, l3: nat, l4: Option<nat>)
    requires 14 <= l3 && l3 + 20 <= |f| && f[l3] % 16 < 5
    requires f[l3 + 9] == IPPROTO_UDP || f[l3 + 9] == IPPROTO_TCP
    requires l4.Some? ==> l4.value + 4 <= |f|
    requires var p := l3 + 4 * (f[l3] % 16); l4 == L4Of(f[Moved(p, 2, l3 + 9)], l3 + 4 * (f[Moved(p, 2, l3)] % 16))
    ensures var y, z := Layout(l3, V4, Some(l3 + 4 * (f[l3] % 16))), Layout(l3, V4, l4);
      (SwapL4(SwapL3(SwapL4(SwapL3(f, y), y), z), z) == f) == ShortHeaderUndone(f, l3)
  {
    hide SwapAdj;
    var ihl := f[l3] % 16;
    if ihl == 0 {
      ZeroIhl(f, l3, l4);
    } else if ihl < 3 {
      LowIhl(f, l3, ihl, l4);
    } else {
      HalvesExchanged(f, l3 + 12, l3 + 4 * ihl);
      HalvesEqual(f, l3 + 12);
    }
  }

  /** IHL 0: the first two words of the header change places; whether the second round finds them again
      depends on the IHL that came to stand in front. */
  lemma ZeroIhl(f: seq<byte>, l3: nat, l4: Option<nat>)
    requires 14 <= l3 && l3 + 20 <= |f| && f[l3] % 16 == 0
    requires l4 == Some(l3 + 4 * (f[l3 + 2] % 16)) && l4.value + 4 <= |f|
    ensures var y, z := Layout(l3, V4, Some(l3)), Layout(l3, V4, l4);
      (SwapL4(SwapL3(SwapL4(SwapL3(f, y), y), z), z) == f) == (f[l3 + 2] % 16 == 0)
  {
    hide SwapAdj;
    var f1 := SwapAdj(f, l3 + 12, 4);
    var f2 := SwapAdj(f1, l3, 2);
    var f3 := SwapAdj(f2, l3 + 12, 4);
    if l4.value == l3 {
      SwapsCommute(f1, l3, 2, l3 + 12, 4);
      SwapAdjTwice(f, l3 + 12, 4);
      SwapAdjTwice(f, l3, 2);
    } else {
      SwapAdjAt(f3, l4.value, 2, l3);
      SwapAdjAt(f2, l3 + 12, 4, l3);
      SwapAdjAt(f1, l3, 2, l3);
      SwapAdjAt(f, l3 + 12, 4, l3 + 2);
    }
  }

  /** IHL 1 and 2: two header words between the first and the addresses change places. */
  lemma LowIhl(f: seq<byte>, l3: nat, ihl: nat, l4: Option<nat>)
    requires 14 <= l3 && l3 + 20 <= |f| && 1 <= ihl <= 2
    requires f[l3 + 9] == IPPROTO_UDP || f[l3 + 9] == IPPROTO_TCP
    requires l4 == L4Of(f[if ihl == 2 then l3 + 11 else l3 + 9], l3 + 4 * ihl)
    ensures var y, z := Layout(l3, V4, Some(l3 + 4 * ihl)), Layout(l3, V4, l4);
      (SwapL4(SwapL3(SwapL4(SwapL3(f, y), y), z), z) == f)
        == (ihl == 1 || f[l3 + 11] == IPPROTO_UDP || f[l3 + 11] == IPPROTO_TCP)
  {
    hide SwapAdj;
    var p := l3 + 4 * ihl;
    var f1 := SwapAdj(f, l3 + 12, 4);
    SwapsCommute(f1, p, 2, l3 + 12, 4);
    SwapAdjTwice(f, l3 + 12, 4);
    SwapAdjTwice(f, p, 2);
    if l4.None? {
      SwapAdjAt(f, p, 2, l3 + 9);
    }
  }

  // ---------- checksums stay right ----------

  /** Where the two addresses of the network header are. */
  function Addresses(y: Layout): (nat, nat)
    requires y.kind != OtherL3
  {
    if y.kind == V4 then (y.l3 + 12, 4) else (y.l3 + 8, 16)
  }

  /** The word sum that a UDP or TCP checksum covers: addresses, protocol and length, segment. */
  function TransportSum(f: seq<byte>, y: Layout, next: nat, end: nat, little: bool): nat
    requires y.kind != OtherL3 && y.l4.Some? && y.l4.value <= end <= |f|
    requires Addresses(y).0 + 2 * Addresses(y).1 <= |f|
  {
    var (a, n) := Addresses(y);
    WordSum(f[a..a + 2 * n], little) + next + (end - y.l4.value) + WordSum(f[y.l4.value..end], little)
  }

  /** The word sum of the IPv4 header, options included, does not change. */
  lemma HeaderSumKept(f: seq<byte>, hl: nat, little: bool)
    requires LayoutOf(f).Some? && LayoutOf(f).value.kind == V4
    requires var y := LayoutOf(f).value; 20 <= hl && y.l3 + hl <= |f| && (y.l4.Some? ==> y.l3 + hl <= y.l4.value)
    ensures var l3 := LayoutOf(f).value.l3; WordSum(Swapped(f)[l3..l3 + hl], little) == WordSum(f[l3..l3 + hl], little)
  {
    var y := LayoutOf(f).value;
    var e := SwapAdj(f, 0, 6);
    var n := SwapL3(e, y);
    hide LayoutOf, SwapAdj, WordSum;
    SwapAdjOutside(f, 0, 6, y.l3, y.l3 + hl);
    SwapKeepsSum(e, y.l3 + 12, 4, y.l3, y.l3 + hl, little);
    if y.l4.Some? {
      SwapAdjOutside(n, y.l4.value, 2, y.l3, y.l3 + hl);
    }
  }

  /** Nor does the sum of pseudo-header and segment, for a segment up to any end behind its ports. */
  lemma TransportSumKept(f: seq<byte>, next: nat, end: nat, little: bool)
    requires LayoutOf(f).Some? && LayoutOf(f).value.l4.Some? && PortsBehindHeader(LayoutOf(f).value)
    requires LayoutOf(f).value.l4.value + 4 <= end <= |f|
    ensures var y := LayoutOf(f).value;
      TransportSum(Swapped(f), y, next, end, little) == TransportSum(f, y, next, end, little)
  {
    hide TagsEnd, SwapAdj, WordSum;
    var y := LayoutOf(f).value;
    var (a, k) := Addresses(y);
    SumsKept(f, a, k, y.l4.value, end, little);
    assert Swapped(f) == SwapAdj(SwapAdj(SwapAdj(f, 0, 6), a, k), y.l4.value, 2);
  }

  /** The three exchanges, of which none reaches across the border of addresses and segment. */
  lemma SumsKept(f: seq<byte>, a: nat, k: nat, l4: nat, end: nat, little: bool)
    requires 12 <= a && a + 2 * k <= l4 && l4 + 4 <= end <= |f| && k % 2 == 0
    ensures var g := SwapAdj(SwapAdj(SwapAdj(f, 0, 6), a, k), l4, 2);
      && WordSum(g[a..a + 2 * k], little) == WordSum(f[a..a + 2 * k], little)
      && WordSum(g[l4..end], little) == WordSum(f[l4..end], little)
  {
    hide SwapAdj, WordSum;
    var e := SwapAdj(f, 0, 6);
    var n := SwapAdj(e, a, k);
    SwapAdjOutside(f, 0, 6, a, a + 2 * k);
    SwapKeepsSum(e, a, k, a, a + 2 * k, little);
    SwapAdjOutside(n, l4, 2, a, a + 2 * k);
    SwapAdjOutside(f, 0, 6, l4, end);
    SwapAdjOutside(e, a, k, l4, end);
    SwapKeepsSum(n, l4, 2, l4, end, little);
  }

  /** So a header that verified still does, and one that did not still does not. */
  lemma HeaderVerifiesAlike(f: seq<byte>, hl: nat, little: bool)
    requires LayoutOf(f).Some? && LayoutOf(f).value.kind == V4
    requires var y := LayoutOf(f).value; 20 <= hl && y.l3 + hl <= |f| && (y.l4.Some? ==> y.l3 + hl <= y.l4.value)
    ensures var l3 := LayoutOf(f).value.l3;
      Verifies(Words(Swapped(f)[l3..l3 + hl], little)) <==> Verifies(Words(f[l3..l3 + hl], little))
  {
    hide LayoutOf, Swapped, Verifies;
    var l3 := LayoutOf(f).value.l3;
    HeaderSumKept(f, hl, little);
    VerifiesIff(Words(Swapped(f)[l3..l3 + hl], little));
    VerifiesIff(Words(f[l3..l3 + hl], little));
  }
}
