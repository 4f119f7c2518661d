/** The raw encap/decap header builder (cmdline_flow.c): the headers of a pattern are laid down from the
    tail of a 512-byte buffer, last item first. */
module RawEncap {
  import opened Common

  const MAX_DATA: nat := 512

  // ---------- items ----------

  datatype Kind =
    | Eth | Vlan | Ipv4 | Ipv6 | Udp | Tcp | Vxlan | VxlanGpe | Gre | GreKey | Mpls | Nvgre | Geneve
    | GeneveOpt | L2tpv3oip | Esp | Ah | Gtp | GtpPsc | Pfcp | Unsupported

  /** The bytes of an item's structure; the option data a GENEVE option points to; the fields a GTP PSC
      option is built from. */
  datatype Spec = Spec(bytes: seq<byte>, option: seq<byte>, pduType: nat, qfi: nat)

  datatype Item = Item(kind: Kind, spec: Option<Spec>)

  /** An item with the specification in force. */
  datatype Layer = Layer(kind: Kind, spec: Spec)

  /** An item without a specification gets its kind's default mask. */
  function InForce(item: Item, mask: Kind -> Spec): Layer {
    Layer(item.kind, if item.spec.None? then mask(item.kind) else item.spec.value)
  }

  function Layers(items: seq<Item>, mask: Kind -> Spec): (layers: seq<Layer>)
    ensures |layers| == |items|
    ensures forall i :: 0 <= i < |items| ==>
      && layers[i].kind == items[i].kind
      && (items[i].spec.Some? ==> layers[i].spec == items[i].spec.value)
      && (items[i].spec.None? ==> layers[i].spec == mask(items[i].kind))
  {
    seq(|items|, i requires 0 <= i < |items| => InForce(items[i], mask))
  }

  /** The bytes copied from the specification. */
  function HeaderSize(kind: Kind): nat {
    match kind
    case Eth => 14
    case Vlan => 4
    case Ipv4 => 20
    case Ipv6 => 40
    case Udp => 8
    case Tcp => 20
    case Vxlan => 8
    case VxlanGpe => 8
    case Gre => 4
    case GreKey => 4
    case Mpls => 4
    case Nvgre => 8
    case Geneve => 8
    case GeneveOpt => 8
    case L2tpv3oip => 4
    case Esp => 8
    case Ah => 12
    case Gtp => 8
    case GtpPsc => 0
    case Pfcp => 16
    case Unsupported => 0
  }

  /** The number by which the layer below names this one, for the kinds that set it. */
  function Proto(kind: Kind): (p: Option<nat>)
    ensures p.Some? ==> p.value < 0x10000
  {
    match kind
    case Vlan => Some(0x8100)
    case Ipv4 => Some(0x0800)
    case Ipv6 => Some(0x86DD)
    case Udp => Some(0x11)
    case Tcp => Some(0x06)
    case Gre => Some(0x2F)
    case GreKey => Some(0)
    case Mpls => Some(0)
    case Nvgre => Some(0x2F)
    case L2tpv3oip => Some(0x73)
    case Esp => Some(0x32)
    case Ah => Some(0x33)
    case _ => None
  }

  /** A specification is at least as long as its header. */
  predicate WellFormed(layers: seq<Layer>) {
    forall l :: l in layers ==> HeaderSize(l.kind) <= |l.spec.bytes|
  }

  // ---------- the headers ----------

  /** A header with the fields the command line does not set; `next` is the number of the upper layer. */
  function Updated(kind: Kind, h: seq<byte>, next: nat): (r: seq<byte>)
    requires |h| == HeaderSize(kind) && next < 0x10000
    ensures |r| == |h|
  {
    match kind
    case Eth => if next != 0 then h[12 := next / 256][13 := next % 256] else h
    case Ipv4 =>
      var v := if h[0] == 0 then h[0 := 0x45] else h;
      if next != 0 && v[9] == 0 then v[9 := next % 256] else v
    case Ipv6 =>
      var v := if next != 0 && h[6] == 0 then h[6 := next % 256] else h;
      v[0 := v[0] % 16 + 0x60]
    case Vxlan => Put(h, 0, [0x08, 0, 0, 0])
    case VxlanGpe => h[0 := 0x0C]
    case Nvgre => Put(h, 0, [0x20, 0x00, 0x65, 0x58])
    case _ => h
  }

  /** The number in force above item `j`: the nearest one set from `j` on. */
  function ProtoFrom(layers: seq<Layer>, j: nat): (p: nat)
    requires j <= |layers|
    ensures p < 0x10000
    decreases |layers| - j
  {
    if j == |layers| then 0
    else if Proto(layers[j].kind).Some? then Proto(layers[j].kind).value
    else ProtoFrom(layers, j + 1)
  }

  /** The first GTP PSC option from `j` on, or -1. */
  function PscFrom(layers: seq<Layer>, j: nat): (k: int)
    requires j <= |layers|
    ensures k == -1 || (j <= k < |layers| && layers[k].kind == GtpPsc)
    ensures forall m :: j <= m < (if k == -1 then |layers| else k) ==> layers[m].kind != GtpPsc
    decreases |layers| - j
  {
    if j == |layers| then -1 else if layers[j].kind == GtpPsc then j else PscFrom(layers, j + 1)
  }

  /** The bytes that follow the header of item `j`. */
  function Trailer(layers: seq<Layer>, j: nat): seq<byte>
    requires j < |layers|
  {
    match layers[j].kind
    case GeneveOpt => layers[j].spec.option
    case Gtp => if PscFrom(layers, j + 1) >= 0 then [0, 0, 0, 0x85] else []
    case GtpPsc => [1, layers[j].spec.pduType % 16, layers[j].spec.qfi % 64, 0]
    case _ => []
  }

  function Header(layers: seq<Layer>, j: nat): (h: seq<byte>)
    requires WellFormed(layers) && j < |layers|
    ensures |h| == HeaderSize(layers[j].kind)
  {
    Updated(layers[j].kind, layers[j].spec.bytes[..HeaderSize(layers[j].kind)], ProtoFrom(layers, j + 1))
  }

  /** What each item contributes, in the order of the pattern. */
  function Parts(layers: seq<Layer>): (p: seq<seq<byte>>)
    requires WellFormed(layers)
    ensures |p| == |layers|
  {
    seq(|layers|, j requires 0 <= j < |layers| => Header(layers, j) + Trailer(layers, j))
  }

  // ---------- which patterns are accepted ----------

  /** Item `j` passes, given the items above it. */
  predicate Passes(layers: seq<Layer>, j: nat)
    requires WellFormed(layers) && j < |layers|
  {
    var psc := PscFrom(layers, j + 1);
    match layers[j].kind
    case Unsupported => false
    case GtpPsc => psc < 0
    case Gtp => psc >= 0 ==> psc == j + 1 && layers[j].spec.bytes[0] % 8 == 4
    case _ => true
  }

  predicate AllPass(layers: seq<Layer>, from: nat)
    requires WellFormed(layers) && from <= |layers|
  {
    forall j :: from <= j < |layers| ==> Passes(layers, j)
  }

  /** Every item is supported, there is at most one PSC option, and no GTP header but one right before it,
      with only its E flag set, may precede it. */
  predicate Proper(layers: seq<Layer>)
    requires WellFormed(layers)
  {
    && (forall j :: 0 <= j < |layers| ==> layers[j].kind != Unsupported)
    && (forall i, j :: 0 <= i < j < |layers| && layers[j].kind == GtpPsc ==>
         && layers[i].kind != GtpPsc
         && (layers[i].kind == Gtp ==> j == i + 1 && layers[i].spec.bytes[0] % 8 == 4))
  }

  lemma {:induction false} OnlyPsc(layers: seq<Layer>, i: nat, j: nat)
    requires WellFormed(layers) && AllPass(layers, 0) && i <= j < |layers| && layers[j].kind == GtpPsc
    ensures PscFrom(layers, i) == j
    decreases j - i
  {
    if i < j {
      OnlyPsc(layers, i + 1, j);
      assert Passes(layers, i);
    }
  }

  lemma AcceptedIff(layers: seq<Layer>)
    requires WellFormed(layers)
    ensures AllPass(layers, 0) <==> Proper(layers)
  {
    if AllPass(layers, 0) {
      forall j | 0 <= j < |layers|
        ensures layers[j].kind != Unsupported
      {
        assert Passes(layers, j);
      }
      forall i, j | 0 <= i < j < |layers| && layers[j].kind == GtpPsc
        ensures layers[i].kind != GtpPsc && (layers[i].kind == Gtp ==> j == i + 1 && layers[i].spec.bytes[0] % 8 == 4)
      {
        OnlyPsc(layers, i + 1, j);
        assert Passes(layers, i);
      }
    }
    if Proper(layers) {
      forall j | 0 <= j < |layers|
        ensures Passes(layers, j)
      {
        var psc := PscFrom(layers, j + 1);
        assert psc >= 0 ==> layers[psc].kind == GtpPsc;
      }
    }
  }

  // ---------- what the built bytes say ----------

  /** The number the layer below is told: that of the nearest item above that has one. */
  lemma {:induction false} NearestProto(layers: seq<Layer>, j: nat, k: nat)
    requires j <= k < |layers| && Proto(layers[k].kind).Some?
    requires forall m :: j <= m < k ==> Proto(layers[m].kind).None?
    ensures ProtoFrom(layers, j) == Proto(layers[k].kind).value
    decreases k - j
  {
    if j < k {
      NearestProto(layers, j + 1, k);
    }
  }

  /** Where item `j` starts among the headers. */
  function Start(layers: seq<Layer>, j: nat): nat
    requires WellFormed(layers) && j <= |layers|
  {
    |Flatten(Parts(layers)[..j])|
  }

  lemma HeaderInPlace(layers: seq<Layer>, j: nat)
    requires WellFormed(layers) && j < |layers|
    ensures var all := Flatten(Parts(layers)); var s, n := Start(layers, j), HeaderSize(layers[j].kind);
      s + n <= |all| && all[s..s + n] == Header(layers, j)
  {
    hide Flatten, Header, Trailer;
    FlattenSplit(Parts(layers), j);
  }

  /** In the finished headers an ETH type and a zero IP protocol are the number in force above. */
  lemma FieldsTold(layers: seq<Layer>, j: nat)
    requires WellFormed(layers) && j < |layers|
    ensures var all := Flatten(Parts(layers)); var s := Start(layers, j); var spec := layers[j].spec.bytes;
      var p := ProtoFrom(layers, j + 1);
      && (layers[j].kind == Eth ==> s + 14 <= |all|)
      && (layers[j].kind == Eth ==> all[s + 12..s + 14] == if p != 0 then [p / 256, p % 256] else spec[12..14])
      && (layers[j].kind == Ipv4 ==> s + 20 <= |all| && all[s + 9] == if spec[9] == 0 then p % 256 else spec[9])
      && (layers[j].kind == Ipv6 ==> s + 40 <= |all| && all[s + 6] == if spec[6] == 0 then p % 256 else spec[6])
  {
    hide Flatten, Parts;
    var all := Flatten(Parts(layers));
    var s, h := Start(layers, j), Header(layers, j);
    HeaderInPlace(layers, j);
    var here := all[s..s + |h|];
    assert here == h;
    if layers[j].kind == Eth {
      assert here[12] == all[s + 12] && here[13] == all[s + 13];
      assert all[s + 12..s + 14] == here[12..14];
    } else if layers[j].kind == Ipv4 {
      assert here[9] == all[s + 9];
    } else if layers[j].kind == Ipv6 {
      assert here[6] == all[s + 6];
    }
  }

  /** The header bytes that may differ from the specification. */
  predicate Touched(kind: Kind, i: nat) {
    match kind
    case Eth => 12 <= i < 14
    case Ipv4 => i == 0 || i == 9
    case Ipv6 => i == 0 || i == 6
    case Vxlan => i < 4
    case VxlanGpe => i == 0
    case Nvgre => i < 4
    case _ => false
  }

  lemma UpdatedBytes(kind: Kind, h: seq<byte>, next: nat, i: nat)
    requires |h| == HeaderSize(kind) && next < 0x10000 && i < |h|
    ensures var u := Updated(kind, h, next);
      && (!Touched(kind, i) ==> u[i] == h[i])
      && (kind == Ipv4 ==> u[0] == if h[0] == 0 then 0x45 else h[0])
      && (kind == Ipv6 ==> u[0] / 16 == 6 && u[0] % 16 == h[0] % 16)
      && (kind == Vxlan ==> u[..4] == [0x08, 0, 0, 0])
      && (kind == VxlanGpe ==> u[0] == 0x0C)
      && (kind == Nvgre ==> u[..4] == [0x20, 0x00, 0x65, 0x58])
  {
  }

  /** Every other header byte is the specification's; version, header length and flags are what the
      protocols prescribe. */
  lemma HeaderBytes(layers: seq<Layer>, j: nat, i: nat)
    requires WellFormed(layers) && j < |layers| && i < HeaderSize(layers[j].kind)
    ensures var all := Flatten(Parts(layers)); var s := Start(layers, j); var spec := layers[j].spec.bytes;
      && s + i < |all|
      && (!Touched(layers[j].kind, i) ==> all[s + i] == spec[i])
      && (layers[j].kind == Ipv4 ==> all[s] == if spec[0] == 0 then 0x45 else spec[0])
      && (layers[j].kind == Ipv6 ==> all[s] / 16 == 6 && all[s] % 16 == spec[0] % 16)
      && (layers[j].kind == Vxlan ==> s + 4 <= |all| && all[s..s + 4] == [0x08, 0, 0, 0])
      && (layers[j].kind == VxlanGpe ==> all[s] == 0x0C)
      && (layers[j].kind == Nvgre ==> s + 4 <= |all| && all[s..s + 4] == [0x20, 0x00, 0x65, 0x58])
  {
    hide Flatten, Parts, Updated;
    HeaderInPlace(layers, j);
    var s, h, spec := Start(layers, j), Header(layers, j), layers[j].spec.bytes[..HeaderSize(layers[j].kind)];
    UpdatedBytes(layers[j].kind, spec, ProtoFrom(layers, j + 1), i);
    var all := Flatten(Parts(layers));
    assert all[s..s + |h|] == h && all[s + i] == h[i] && all[s] == h[0];
    if |h| >= 4 {
      assert all[s..s + |h|][..4] == all[s..s + 4];
    }
  }

  /** The kinds no layer below has a number for. */
  predicate Numberless(kind: Kind) {
    match kind
    case Eth => true
    case Vxlan => true
    case VxlanGpe => true
    case Geneve => true
    case GeneveOpt => true
    case Gtp => true
    case GtpPsc => true
    case Pfcp => true
    case Unsupported => true
    case _ => false
  }

  /** An ETH type field `t` below a layer of kind `k`; `own` is the type specified. */
  predicate EthNames(k: Kind, own: seq<byte>, t: seq<byte>) {
    match k
    case Vlan => t == [0x81, 0x00]
    case Ipv4 => t == [0x08, 0x00]
    case Ipv6 => t == [0x86, 0xDD]
    case Udp => t == [0, 17]
    case Tcp => t == [0, 6]
    case Gre => t == [0, 0x2F]
    case Nvgre => t == [0, 0x2F]
    case L2tpv3oip => t == [0, 0x73]
    case Esp => t == [0, 0x32]
    case Ah => t == [0, 0x33]
    case _ => t == own
  }

  /** An IP protocol field `p` below a layer of kind `k`; only a field specified as zero is filled in, and
      only with the low byte of a number. */
  predicate IpNames(k: Kind, own: byte, p: byte) {
    if own != 0 then p == own
    else match k
      case Udp => p == 17
      case Tcp => p == 6
      case Gre => p == 0x2F
      case Nvgre => p == 0x2F
      case L2tpv3oip => p == 0x73
      case Esp => p == 0x32
      case Ah => p == 0x33
      case Ipv6 => p == 0xDD
      case _ => p == 0
  }

  /** They name the layer above: `k` is the nearest item above `j` that has a number. */
  lemma NamesNext(layers: seq<Layer>, j: nat, k: nat)
    requires WellFormed(layers) && j < k < |layers| && !Numberless(layers[k].kind)
    requires forall m :: j < m < k ==> Numberless(layers[m].kind)
    ensures var all := Flatten(Parts(layers)); var s := Start(layers, j); var spec := layers[j].spec.bytes;
      && (layers[j].kind == Eth ==>
           s + 14 <= |all| && EthNames(layers[k].kind, spec[12..14], all[s + 12..s + 14]))
      && (layers[j].kind == Ipv4 ==> s + 20 <= |all| && IpNames(layers[k].kind, spec[9], all[s + 9]))
      && (layers[j].kind == Ipv6 ==> s + 40 <= |all| && IpNames(layers[k].kind, spec[6], all[s + 6]))
  {
    hide Flatten, Parts;
    FieldsTold(layers, j);
    NearestProto(layers, j + 1, k);
  }

  /** Without a number above them they stay as specified. */
  lemma NothingAbove(layers: seq<Layer>, j: nat)
    requires WellFormed(layers) && j < |layers|
    requires forall m :: j < m < |layers| ==> Numberless(layers[m].kind)
    ensures var all := Flatten(Parts(layers)); var s := Start(layers, j); var spec := layers[j].spec.bytes;
      && (layers[j].kind == Eth ==> s + 14 <= |all| && all[s + 12..s + 14] == spec[12..14])
      && (layers[j].kind == Ipv4 ==> s + 20 <= |all| && all[s + 9] == spec[9])
      && (layers[j].kind == Ipv6 ==> s + 40 <= |all| && all[s + 6] == spec[6])
  {
    hide Flatten, Parts;
    FieldsTold(layers, j);
    NoProto(layers, j + 1);
  }

  // ---------- reading the bytes back ----------

  /** What a receiver makes of a frame: the layers its type and protocol fields announce, up to the one
      above IP. */
  function ReadFrame(b: seq<byte>): seq<Kind> {
    if |b| < 14 then []
    else if b[12..14] == [0x08, 0x00] then [Eth] + ReadIpv4(b[14..])
    else if b[12..14] == [0x86, 0xDD] then [Eth] + ReadIpv6(b[14..])
    else if b[12..14] == [0x81, 0x00] then [Eth, Vlan]
    else [Eth]
  }

  function ReadIpv4(b: seq<byte>): seq<Kind> {
    if |b| < 20 then [] else [Ipv4] + ReadProtocol(b[9])
  }

  function ReadIpv6(b: seq<byte>): seq<Kind> {
    if |b| < 40 then [] else [Ipv6] + ReadProtocol(b[6])
  }

  function ReadProtocol(p: byte): seq<Kind> {
    if p == 17 then [Udp]
    else if p == 6 then [Tcp]
    else if p == 0x2F then [Gre]
    else if p == 0x73 then [L2tpv3oip]
    else if p == 0x32 then [Esp]
    else if p == 0x33 then [Ah]
    else []
  }

  /** Wherever a pattern has ETH, an IP layer without a protocol of its own and a layer above it, a receiver
      reads just these three from the finished bytes; NVGRE it takes for the GRE it is. */
  lemma ReadsBack(layers: seq<Layer>, j: nat)
    requires WellFormed(layers) && j + 2 < |layers| && layers[j].kind == Eth
    requires match layers[j + 1].kind
             case Ipv4 => layers[j + 1].spec.bytes[9] == 0
             case Ipv6 => layers[j + 1].spec.bytes[6] == 0
             case _ => false
    requires layers[j + 2].kind in {Udp, Tcp, Gre, Nvgre, L2tpv3oip, Esp, Ah}
    ensures var up := layers[j + 2].kind;
      Start(layers, j) <= |Flatten(Parts(layers))| &&
      ReadFrame(Flatten(Parts(layers))[Start(layers, j)..])
        == [Eth, layers[j + 1].kind, if up == Nvgre then Gre else up]
  {
    hide Flatten, Parts, Start, ReadFrame, EthNames, IpNames, Header;
    var all, s := Flatten(Parts(layers)), Start(layers, j);
    HeaderInPlace(layers, j);
    HeaderInPlace(layers, j + 1);
    EthIsAlone(layers, j);
    NamesNext(layers, j, j + 1);
    NamesNext(layers, j + 1, j + 2);
    var b := all[s..];
    assert b[12..14] == all[s + 12..s + 14];
    assert Start(layers, j + 1) + 9 == s + 23 && b[23] == all[s + 23] && b[20] == all[s + 20];
    ReadThree(b, layers[j + 1].kind, layers[j + 2].kind, layers[j].spec.bytes[12..14]);
  }

  /** The three layers on the bytes alone. */
  lemma ReadThree(b: seq<byte>, k: Kind, up: Kind, own: seq<byte>)
    requires k == Ipv4 || k == Ipv6
    requires |b| >= 14 + (if k == Ipv4 then 20 else 40)
    requires EthNames(k, own, b[12..14]) && IpNames(up, 0, b[14 + if k == Ipv4 then 9 else 6])
    requires up in {Udp, Tcp, Gre, Nvgre, L2tpv3oip, Esp, Ah}
    ensures ReadFrame(b) == [Eth, k, if up == Nvgre then Gre else up]
  {
    var c := b[14..];
    assert c[9] == b[23] && c[6] == b[20];
    assert [0x08, 0x00][0] != [0x86, 0xDD][0];
  }

  /** A VLAN tag above ETH is read as one. */
  lemma ReadsVlan(layers: seq<Layer>, j: nat)
    requires WellFormed(layers) && j + 1 < |layers| && layers[j].kind == Eth && layers[j + 1].kind == Vlan
    ensures Start(layers, j) <= |Flatten(Parts(layers))|
    ensures ReadFrame(Flatten(Parts(layers))[Start(layers, j)..]) == [Eth, Vlan]
  {
    hide Flatten, Parts, Start;
    var all, s := Flatten(Parts(layers)), Start(layers, j);
    HeaderInPlace(layers, j);
    NamesNext(layers, j, j + 1);
    assert all[s..][12..14] == all[s + 12..s + 14];
  }

  lemma EthIsAlone(layers: seq<Layer>, j: nat)
    requires WellFormed(layers) && j < |layers| && layers[j].kind == Eth
    ensures Start(layers, j + 1) == Start(layers, j) + 14
  {
    hide Flatten, Header;
    FlattenSnoc(Parts(layers), j);
  }

  /** A GTP header is extended exactly when a PSC option follows it, by the word that announces it. */
  lemma GtpExtended(layers: seq<Layer>, j: nat)
    requires WellFormed(layers) && Proper(layers) && j < |layers| && layers[j].kind == Gtp
    ensures Parts(layers)[j] == layers[j].spec.bytes[..8] +
      if j + 1 < |layers| && layers[j + 1].kind == GtpPsc then [0, 0, 0, 0x85] else []
  {
    var psc := PscFrom(layers, j + 1);
    assert psc >= 0 ==> layers[psc].kind == GtpPsc && psc == j + 1;
    assert Parts(layers)[j] == Header(layers, j) + Trailer(layers, j);
  }

  /** Option data follow their option; a PSC option is its four bytes. */
  lemma OptionsInPlace(layers: seq<Layer>, j: nat)
    requires WellFormed(layers) && j < |layers|
    ensures layers[j].kind == GeneveOpt ==>
      Parts(layers)[j] == layers[j].spec.bytes[..8] + layers[j].spec.option
    ensures layers[j].kind == GtpPsc ==>
      Parts(layers)[j] == [1, layers[j].spec.pduType % 16, layers[j].spec.qfi % 64, 0]
    ensures layers[j].kind !in {GeneveOpt, Gtp, GtpPsc} ==> Parts(layers)[j] == Header(layers, j)
  {
  }

  /** What an item adds to the size. */
  function PartSize(layers: seq<Layer>, j: nat): nat
    requires j < |layers|
  {
    match layers[j].kind
    case Eth => 14
    case Ipv4 => 20
    case Ipv6 => 40
    case Tcp => 20
    case Ah => 12
    case Pfcp => 16
    case Udp => 8
    case Vxlan => 8
    case VxlanGpe => 8
    case Nvgre => 8
    case Geneve => 8
    case Esp => 8
    case GeneveOpt => 8 + |layers[j].spec.option|
    case Gtp => if j + 1 < |layers| && layers[j + 1].kind == GtpPsc then 12 else 8
    case Unsupported => 0
    case _ => 4
  }

  /** The size of a proper pattern is the sum of its headers, option data and extension parts. */
  lemma SizeIsSum(layers: seq<Layer>)
    requires WellFormed(layers) && Proper(layers)
    ensures |Flatten(Parts(layers))| == Sum(seq(|layers|, j requires 0 <= j < |layers| => PartSize(layers, j)))
  {
    var sizes := seq(|layers|, j requires 0 <= j < |layers| => PartSize(layers, j));
    hide Header, Flatten, Sum;
    forall j | 0 <= j < |layers|
      ensures |Parts(layers)[j]| == sizes[j]
    {
      if layers[j].kind == Gtp {
        GtpExtended(layers, j);
      }
    }
    FlattenLength(Parts(layers), sizes);
  }

  lemma {:induction false} NoProto(layers: seq<Layer>, j: nat)
    requires j <= |layers| && forall m :: j <= m < |layers| ==> Proto(layers[m].kind).None?
    ensures ProtoFrom(layers, j) == 0
    decreases |layers| - j
  {
    if j < |layers| {
      NoProto(layers, j + 1);
    }
  }

  // ---------- building ----------

  /** The headers of the items from `j` on lie at the tail of the buffer, zeros before them. */
  ghost predicate Built(data: seq<byte>, total: nat, layers: seq<Layer>, j: nat) {
    && WellFormed(layers) && j <= |layers|
    && total == |Flatten(Parts(layers)[j..])| <= MAX_DATA
    && data == Zeros(MAX_DATA - total) + Flatten(Parts(layers)[j..])
  }

  lemma PutBefore(n: nat, f: seq<byte>, x: seq<byte>)
    requires |x| <= n
    ensures Put(Zeros(n) + f, n - |x|, x) == Zeros(n - |x|) + (x + f)
  {
  }

  lemma PutOver(n: nat, f: seq<byte>, x: seq<byte>, y: seq<byte>)
    requires |x| == |y|
    ensures (Zeros(n) + (x + f))[n..n + |x|] == x
    ensures Put(Zeros(n) + (x + f), n, y) == Zeros(n) + (y + f)
  {
  }

  lemma FirstPart(layers: seq<Layer>, j: nat)
    requires WellFormed(layers) && j < |layers|
    ensures Flatten(Parts(layers)[j..]) == Header(layers, j) + (Trailer(layers, j) + Flatten(Parts(layers)[j + 1..]))
  {
    hide Header, Trailer;
    var p := Parts(layers);
    assert p[j..][0] == Header(layers, j) + Trailer(layers, j) && p[j..][1..] == p[j + 1..];
  }

  /** Trailer, header and the fields of item `j`, written in this order before what is already there. */
  lemma BuiltNext(data: seq<byte>, total: nat, layers: seq<Layer>, j: nat)
    requires WellFormed(layers) && j < |layers| && Built(data, total, layers, j + 1)
    requires |Flatten(Parts(layers)[j..])| <= MAX_DATA
    ensures var l := layers[j]; var n := HeaderSize(l.kind); var t := Trailer(layers, j);
      var now := total + |t| + n;
      && now <= MAX_DATA == |data|
      && var a := Put(data, MAX_DATA - total - |t|, t);
         var b := Put(a, MAX_DATA - now, l.spec.bytes[..n]);
      && b[MAX_DATA - now..MAX_DATA - now + n] == l.spec.bytes[..n]
      && Built(Put(b, MAX_DATA - now, Header(layers, j)), now, layers, j)
  {
    hide Header, Trailer, Put, Flatten, Parts;
    var l := layers[j];
    var n, t, f := HeaderSize(l.kind), Trailer(layers, j), Flatten(Parts(layers)[j + 1..]);
    FirstPart(layers, j);
    PutBefore(MAX_DATA - total, f, t);
    PutBefore(MAX_DATA - total - |t|, t + f, l.spec.bytes[..n]);
    PutOver(MAX_DATA - total - |t| - n, t + f, l.spec.bytes[..n], Header(layers, j));
  }

  lemma PutSame(f: seq<byte>, at: nat, n: nat)
    requires at + n <= |f|
    ensures Put(f, at, f[at..at + n]) == f
  {
  }

  lemma PutByte(f: seq<byte>, at: nat, x: seq<byte>, i: nat, b: byte)
    requires at + |x| <= |f| && i < |x|
    ensures Put(f, at, x)[at + i] == x[i]
    ensures Put(f, at, x)[at + i := b] == Put(f, at, x[i := b])
  {
  }

  /** One byte of a header. */
  method SetByte(buf: array<byte>, at: nat, i: nat, b: byte, ghost was: seq<byte>, ghost x: seq<byte>)
    requires |was| == buf.Length && at + |x| <= |was| && i < |x| && buf[..] == Put(was, at, x)
    modifies buf
    ensures buf[..] == Put(was, at, x[i := b])
  {
    hide Put;
    PutByte(was, at, x, i, b);
    buf[at + i] := b;
  }

  /** Fields that the command line cannot set. */
  method UpdateFields(buf: array<byte>, at: nat, kind: Kind, next: nat)
    requires at + HeaderSize(kind) <= buf.Length && next < 0x10000
    modifies buf
    ensures buf[..] == Put(old(buf[..]), at, Updated(kind, old(buf[..])[at..at + HeaderSize(kind)], next))
  {
    hide Put;
    ghost var was, n := buf[..], HeaderSize(kind);
    ghost var x := was[at..at + n];
    PutSame(was, at, n);
    match kind {
      case Eth =>
        if next != 0 {
          SetByte(buf, at, 12, next / 256, was, x);
          SetByte(buf, at, 13, next % 256, was, x[12 := next / 256]);
        }
      case Ipv4 =>
        if buf[at] == 0 {
          SetByte(buf, at, 0, 0x45, was, x);
          x := x[0 := 0x45];
        }
        PutByte(was, at, x, 9, 0);
        if next != 0 && buf[at + 9] == 0 {
          SetByte(buf, at, 9, next % 256, was, x);
        }
      case Ipv6 =>
        if next != 0 && buf[at + 6] == 0 {
          SetByte(buf, at, 6, next % 256, was, x);
          x := x[6 := next % 256];
        }
        PutByte(was, at, x, 0, 0);
        SetByte(buf, at, 0, buf[at] % 16 + 0x60, was, x);
      case Vxlan =>
        PutBytes(buf, at, [0x08, 0, 0, 0]);
        PutHead(was, at, n, [0x08, 0, 0, 0]);
      case VxlanGpe => SetByte(buf, at, 0, 0x0C, was, x);
      case Nvgre =>
        PutBytes(buf, at, [0x20, 0x00, 0x65, 0x58]);
        PutHead(was, at, n, [0x20, 0x00, 0x65, 0x58]);
      case _ =>
    }
  }

  lemma PutHead(f: seq<byte>, at: nat, n: nat, x: seq<byte>)
    requires |x| <= n && at + n <= |f|
    ensures Put(f, at, x) == Put(f, at, Put(f[at..at + n], 0, x))
  {
  }

  // ---------- the command ----------

  /** A slot of the raw encap or decap table. */
  class RawConf {
    var size: nat
    const data: array<byte>

    /** The bytes that follow the header of item `i`, if it may stand where it does; `psc` is the PSC
        option seen above it. */
    method PutTrailer(ghost layers: seq<Layer>, i: nat, l: Layer, psc: int) returns (ok: bool, psc': int)
      requires data.Length == MAX_DATA && WellFormed(layers) && i < |layers| && l == layers[i]
      requires psc == PscFrom(layers, i + 1) && size <= MAX_DATA
      requires Passes(layers, i) ==> size + |Trailer(layers, i)| <= MAX_DATA
      modifies `size, data
      ensures ok == Passes(layers, i)
      ensures ok ==> psc' == PscFrom(layers, i) && size == old(size) + |Trailer(layers, i)|
      ensures ok ==> data[..] == Put(old(data[..]), MAX_DATA - size, Trailer(layers, i))
    {
      hide Put;
      psc' := psc;
      PutNothing(data[..], MAX_DATA - size);
      match l.kind {
        case GeneveOpt =>
          if l.spec.option != [] {
            size := size + |l.spec.option|;
            PutBytes(data, MAX_DATA - size, l.spec.option);
          }
        case Gtp =>
          if psc >= 0 {
            if psc != i + 1 {
              return false, psc;
            }
            if l.spec.bytes[0] % 8 != 4 {
              return false, psc;
            }
            size := size + 4;
            PutBytes(data, MAX_DATA - size, [0, 0, 0, 0x85]);
          }
        case GtpPsc =>
          if psc >= 0 {
            return false, psc;
          }
          size := size + 4;
          PutBytes(data, MAX_DATA - size, [1, l.spec.pduType % 16, l.spec.qfi % 64, 0]);
          psc' := i;
        case Unsupported => return false, psc;
        case _ =>
      }
      return true, psc';
    }

    /** One item before those already there; `upper` is the number in force above it. */
    method AddItem(ghost layers: seq<Layer>, i: nat, l: Layer, upper: nat, psc: int) returns (ok: bool, psc': int)
      requires data.Length == MAX_DATA && Fits(layers) && i < |layers| && l == layers[i]
      requires AllPass(layers, i + 1) && Built(data[..], size, layers, i + 1)
      requires upper == ProtoFrom(layers, i + 1) && psc == PscFrom(layers, i + 1)
      modifies `size, data
      ensures ok == Passes(layers, i)
      ensures ok ==> psc' == PscFrom(layers, i) && AllPass(layers, i) && Built(data[..], size, layers, i)
    {
      hide Flatten, Trailer, Put, Passes, Updated, Parts, Built, Fits, HeaderSize;
      FitsNext(data[..], size, layers, i);
      ghost var was, total := data[..], size;
      ok, psc' := PutTrailer(layers, i, l, psc);
      if ok {
        BuiltNext(was, total, layers, i);
        var n := HeaderSize(l.kind);
        size := size + n;
        PutBytes(data, MAX_DATA - size, l.spec.bytes[..n]);
        UpdateFields(data, MAX_DATA - size, l.kind, upper);
      }
    }

    /** Builds the headers of the pattern, or leaves the slot empty if the pattern is not proper. What
        passes has to fit into the buffer. */
    method SetRaw(items: seq<Item>, mask: Kind -> Spec)
      requires data.Length == MAX_DATA && WellFormed(Layers(items, mask)) && Fits(Layers(items, mask))
      modifies `size, data
      ensures var layers := Layers(items, mask); var all := Flatten(Parts(layers));
        if Proper(layers) then
          size == |all| <= MAX_DATA && data[..size] == all && data[..] == Put(Zeros(MAX_DATA - size) + all, 0, all)
        else
          size == 0 && data[..] == Zeros(MAX_DATA)
    {
      hide Flatten, Put, Passes, Parts, Built, Fits, Proper;
      ghost var layers := Layers(items, mask);
      AcceptedIff(layers);
      size := 0;
      Memset(data, 0, 0, MAX_DATA);
      var i := |items|;
      var upper, proto := 0, 0;
      var psc := -1;
      NothingBuilt(data[..], layers);
      while i > 0
        invariant 0 <= i <= |items| && proto == upper == ProtoFrom(layers, i) && psc == PscFrom(layers, i)
        invariant AllPass(layers, i) && Built(data[..], size, layers, i)
      {
        i := i - 1;
        var l := InForce(items[i], mask);
        if Proto(l.kind).Some? {
          proto := Proto(l.kind).value;
        }
        var ok;
        ok, psc := AddItem(layers, i, l, upper, psc);
        if !ok {
          size := 0;
          Memset(data, 0, 0, MAX_DATA);
          assert data[..] == Zeros(MAX_DATA);
          return;
        }
        upper := proto;
      }
      AllBuilt(data[..], size, layers);
      PutBytes(data, 0, data[MAX_DATA - size..]);
    }
  }

  /** What passes fits into the buffer. */
  ghost predicate Fits(layers: seq<Layer>) {
    && WellFormed(layers)
    && forall j :: 0 <= j <= |layers| && AllPass(layers, j) ==> |Flatten(Parts(layers)[j..])| <= MAX_DATA
  }

  lemma FitsNext(data: seq<byte>, total: nat, layers: seq<Layer>, j: nat)
    requires Fits(layers) && j < |layers| && AllPass(layers, j + 1) && Built(data, total, layers, j + 1)
    ensures WellFormed(layers) && HeaderSize(layers[j].kind) <= |layers[j].spec.bytes| && total <= MAX_DATA
    ensures Passes(layers, j) ==>
      && AllPass(layers, j) && |Flatten(Parts(layers)[j..])| <= MAX_DATA
      && total + |Trailer(layers, j)| + HeaderSize(layers[j].kind) <= MAX_DATA
  {
    hide Flatten, Trailer, Passes, Parts, HeaderSize;
    FirstPart(layers, j);
    assert Passes(layers, j) ==> AllPass(layers, j);
  }

  lemma AllBuilt(data: seq<byte>, total: nat, layers: seq<Layer>)
    requires Built(data, total, layers, 0)
    ensures var all := Flatten(Parts(layers));
      && total == |all| <= MAX_DATA == |data| && data == Zeros(MAX_DATA - total) + all
      && data[MAX_DATA - total..] == all && Put(data, 0, all)[..total] == all
  {
    hide Flatten, Parts;
    assert Parts(layers)[0..] == Parts(layers);
  }

  lemma PutNothing(f: seq<byte>, at: nat)
    requires at <= |f|
    ensures Put(f, at, []) == f
  {
  }

  lemma NothingBuilt(data: seq<byte>, layers: seq<Layer>)
    requires WellFormed(layers) && |data| == MAX_DATA && forall i :: 0 <= i < MAX_DATA ==> data[i] == 0
    ensures Built(data, 0, layers, |layers|) && data == Zeros(MAX_DATA)
  {
    assert Parts(layers)[|layers|..] == [];
  }
}
