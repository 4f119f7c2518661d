/** Answering ICMP echo requests in place (icmpecho.c): addresses exchanged, checksums kept right
    without summing the payload. */
module IcmpEcho {
  import opened Common
  import opened Checksum
  import opened Frames

  const IPPROTO_ICMP := 1
  const ECHO_REQUEST := 8
  const ECHO_REPLY := 0
  const IP_LEN := 20   // sizeof(struct rte_ipv4_hdr)

  // ---------- the incremental ICMP checksum ----------

  /** The 32-bit update of the ICMP checksum field `c` when the type/code word `m` becomes zero. */
  function Updated(c: nat, m: nat): nat {
    Complement(Fold(Fold(Complement(c) + Complement(m) + 0)))
  }

  /** The message words of the reply to a request: type/code zero, checksum updated. */
  function ReplyWords(req: seq<nat>): seq<nat>
    requires |req| >= 2
  {
    req[0 := 0][1 := Updated(req[1], req[0])]
  }

  /** The checksum a sender would compute over the whole message. */
  function FullCksum(ws: seq<nat>): nat
    requires |ws| >= 2
  {
    Complement(Residue(Sum(ws[1 := 0])))
  }

  lemma SumTwoWords(ws: seq<nat>)
    requires |ws| >= 2
    ensures Sum(ws) == ws[0] + ws[1] + Sum(ws[2..])
  {
    assert ws[1..][1..] == ws[2..];
  }

  /** Equation 3 of section 3 of RFC 1624: the new field makes up for the word that went, modulo 65535. */
  lemma UpdatedMakesUp(c: nat, m: nat)
    requires c < 0x1_0000 && 0 < m < 0xFFFF
    ensures Updated(c, m) < 0x1_0000
    ensures Updated(c, m) == if c + m < 0xFFFF then c + m else c + m - 0xFFFF
  {
    hide Fold, Residue;
    var s := Complement(c) + Complement(m);
    assert s == 2 * 0xFFFF - c - m;
    FoldTwice(s);
    SmallResidue(s);
  }

  lemma SmallResidue(s: nat)
    requires 0 < s <= 2 * 0xFFFF
    ensures Residue(s) == if s <= 0xFFFF then s else s - 0xFFFF
  {
    DivModUnique(s - 1, 0xFFFF, if s <= 0xFFFF then 0 else 1, if s <= 0xFFFF then s - 1 else s - 1 - 0xFFFF);
  }

  lemma OneLess(s: nat, t: nat)
    requires t == s || t + 0xFFFF == s
    ensures s % 0xFFFF == t % 0xFFFF
  {
    DivModUnique(s, 0xFFFF, t / 0xFFFF + if t == s then 0 else 1, t % 0xFFFF);
  }

  /** The reply sums up to what the request did, modulo 65535, whether or not the request was intact. */
  lemma ReplySum(req: seq<nat>)
    requires |req| >= 2 && 0 < req[0] < 0xFFFF && req[1] < 0x1_0000
    ensures Sum(ReplyWords(req)) % 0xFFFF == Sum(req) % 0xFFFF
  {
    var rep := ReplyWords(req);
    SumTwoWords(req);
    SumTwoWords(rep);
    assert rep[2..] == req[2..];
    UpdatedMakesUp(req[1], req[0]);
    hide Updated, Sum;
    OneLess(Sum(req), Sum(rep));
  }

  /** The updated field is what a full computation over the reply gives, modulo 65535, exactly if the
      request was intact: what was wrong with a request stays wrong with its reply. */
  lemma UpdatedIsFullIff(req: seq<nat>)
    requires |req| >= 2 && 0 < req[0] < 0xFFFF && (forall i :: 0 <= i < |req| ==> req[i] < 0x1_0000)
    ensures var rep := ReplyWords(req); rep[1] % 0xFFFF == FullCksum(rep) % 0xFFFF <==> Verifies(req)
  {
    hide Updated, Sum, Residue, Verifies, Complement;
    var rep := ReplyWords(req);
    var bare := rep[1 := 0];
    VerifiesIff(req);
    ReplySum(req);
    SumTwoWords(req);
    SumTwoWords(rep);
    SumTwoWords(bare);
    assert bare[2..] == rep[2..];
    UpdatedMakesUp(req[1], req[0]);
    ComplementOfSum(rep[1], Sum(bare));
  }

  /** Two numbers sum up to a multiple of 65535 exactly if one is the complement of the other's residue. */
  lemma ComplementOfSum(c: nat, s: nat)
    requires c < 0x1_0000
    ensures c % 0xFFFF == Complement(Residue(s)) % 0xFFFF <==> (c + s) % 0xFFFF == 0
  {
    hide Residue, Complement;
    ComplementFills(s);
    SameModulo(c, Complement(Residue(s)), s);
  }

  lemma ComplementFills(s: nat)
    ensures (Complement(Residue(s)) + s) % 0xFFFF == 0
  {
    if s > 0 {
      var p, r := (s - 1) / 0xFFFF, (s - 1) % 0xFFFF;
      assert s == 0xFFFF * p + r + 1;
      DivModUnique(Complement(Residue(s)) + s, 0xFFFF, p + 1, 0);
    } else {
      DivModUnique(0xFFFF, 0xFFFF, 1, 0);
    }
  }

  /** Adding the same number does not change whether two numbers agree modulo 65535. */
  lemma SameModulo(a: nat, b: nat, s: nat)
    ensures a % 0xFFFF == b % 0xFFFF <==> (a + s) % 0xFFFF == (b + s) % 0xFFFF
  {
    var d := 0xFFFF;
    if a % d == b % d {
      var k := a / d - b / d;
      assert a == b + d * k;
      DivModUnique(a + s, d, (b + s) / d + k, (b + s) % d);
    }
    if (a + s) % d == (b + s) % d {
      var k := (a + s) / d - (b + s) / d;
      assert a == b + d * k;
      DivModUnique(a, d, b / d + k, b % d);
    }
  }

  /** The reply is intact if and only if the request's sum was a multiple of 65535 and some word of the
      reply outside type/code and checksum is not zero. */
  lemma ReplyVerifiesIff(req: seq<nat>)
    requires |req| >= 2 && 0 < req[0] < 0xFFFF && (forall i :: 0 <= i < |req| ==> req[i] < 0x1_0000)
    ensures Verifies(ReplyWords(req)) <==> Verifies(req) && exists i :: 2 <= i < |req| && req[i] != 0
  {
    hide Updated, Verifies, Sum;
    var rep, x := ReplyWords(req), req[0] + req[1];
    UpdatedMakesUp(req[1], req[0]);
    VerifiesIff(req);
    VerifiesIff(rep);
    ReplySum(req);
    SumTwoWords(req);
    SumTwoWords(rep);
    assert rep[2..] == req[2..];
    RestPositive(req);
    if Sum(req[2..]) == 0 {
      DivModUnique(x, 0xFFFF, if x < 0xFFFF then 0 else 1, if x < 0xFFFF then x else x - 0xFFFF);
    }
  }

  lemma RestPositive(ws: seq<nat>)
    requires |ws| >= 2
    ensures Sum(ws[2..]) > 0 <==> exists i :: 2 <= i < |ws| && ws[i] != 0
  {
    hide Sum;
    SumPositive(ws[2..]);
    if Sum(ws[2..]) > 0 {
      var k :| 0 <= k < |ws[2..]| && ws[2..][k] > 0;
      assert ws[k + 2] != 0;
    } else {
      assert forall i :: 2 <= i < |ws| ==> ws[i] == ws[2..][i - 2];
    }
  }

  lemma {:induction false} SumPositive(ws: seq<nat>)
    ensures Sum(ws) > 0 <==> exists i :: 0 <= i < |ws| && ws[i] > 0
  {
    if ws != [] {
      SumPositive(ws[1..]);
      if Sum(ws[1..]) > 0 {
        var k :| 0 <= k < |ws[1..]| && ws[1..][k] > 0;
        assert ws[k + 1] > 0;
      }
      assert forall i :: 1 <= i < |ws| ==> ws[i] == ws[1..][i - 1];
    }
  }

  // ---------- the reply, on the bytes of the frame ----------

  /** A 16-bit word as it lies in memory. */
  function WordBytes(w: nat, little: bool): (b: seq<byte>)
    requires w < 0x1_0000
    ensures |b| == 2 && HostWord(b[0], b[1], little) == w
  {
    if little then [w % 256, w / 256] else [w / 256, w % 256]
  }

  /** What the test of an address against 224/8 looks at. */
  predicate IsMulticast(f: seq<byte>, dst: nat)
    requires dst < |f|
  {
    f[dst] == 0xE0
  }

  /** The source address of an answer to a multicast: the requester's, with other low bits. */
  function OtherAddr(a: seq<byte>): (r: seq<byte>)
    requires |a| == 4
    ensures |r| == 4 && r != a
  {
    a[..3] + [a[3] - a[3] % 4 + if a[3] % 4 == 1 then 2 else 1]
  }

  function IpCksum(f: seq<byte>, ip: nat, little: bool): (c: nat)
    requires ip + IP_LEN <= |f|
    ensures c < 0x1_0000
  {
    WordsLength(f[ip..ip + IP_LEN], little);
    EchoCksum(SumWithout(Words(f[ip..ip + IP_LEN], little)))
  }

  lemma {:induction false} WordsLength(b: seq<byte>, little: bool)
    ensures |Words(b, little)| == (|b| + 1) / 2
  {
    if |b| > 1 {
      WordsLength(b[2..], little);
    }
  }

  /** The IP part: addresses exchanged, or for a multicast request a new source and a new checksum. */
  function IpReplied(f: seq<byte>, ip: nat, little: bool): (r: seq<byte>)
    requires ip + IP_LEN <= |f|
    ensures |r| == |f|
  {
    if IsMulticast(f, ip + 16) then
      var src := f[ip + 12..ip + 16];
      var g := Put(Put(f, ip + 12, OtherAddr(src)), ip + 16, src);
      Put(g, ip + 10, WordBytes(IpCksum(g, ip, little), little))
    else SwapAdj(f, ip + 12, 4)
  }

  function IcmpReplied(f: seq<byte>, icmp: nat, little: bool): (r: seq<byte>)
    requires icmp + 4 <= |f|
    ensures |r| == |f|
  {
    UpdatedMakesUp(HostWord(f[icmp + 2], f[icmp + 3], little), HostWord(ECHO_REQUEST, 0, little));
    Put(Put(f, icmp, [ECHO_REPLY]), icmp + 2,
        WordBytes(Updated(HostWord(f[icmp + 2], f[icmp + 3], little), HostWord(ECHO_REQUEST, 0, little)), little))
  }

  predicate IsEchoRequest(f: seq<byte>, ip: nat)
    requires ip + IP_LEN + 4 <= |f|
  {
    f[ip + 9] == IPPROTO_ICMP && f[ip + IP_LEN] == ECHO_REQUEST && f[ip + IP_LEN + 1] == 0
  }

  /** The answer to an echo request whose IP header starts at `ip`. */
  function Replied(f: seq<byte>, ip: nat, little: bool): (r: seq<byte>)
    requires 14 <= ip && ip + IP_LEN + 4 <= |f|
    ensures |r| == |f|
  {
    IcmpReplied(IpReplied(SwapAdj(f, 0, 6), ip, little), ip + IP_LEN, little)
  }

  /** The branch of the packet loop for an IPv4 packet; a packet that is no echo request is not kept and
      not touched. */
  method EchoReply(f: array<byte>, ip: nat, little: bool) returns (reply: bool)
    requires 14 <= ip && ip + IP_LEN + 4 <= f.Length
    modifies f
    ensures reply == IsEchoRequest(old(f[..]), ip)
    ensures f[..] == if reply then Replied(old(f[..]), ip, little) else old(f[..])
    ensures reply == (old(f[ip + 9]) == 1 && old(f[ip + 20]) == 8 && old(f[ip + 21]) == 0)
    ensures reply ==> Answered(old(f[..]), f[..], ip)
  {
    hide Replied, Answered;
    AnsweredBytes(f[..], ip, little);
    ReplySteps(f[..], ip, little);
    reply := f[ip + 9] == IPPROTO_ICMP && f[ip + IP_LEN] == ECHO_REQUEST && f[ip + IP_LEN + 1] == 0;
    if !reply {
      return;
    }
    SwapBytes(f, 0, 6);
    IpReply(f, ip, little);
    IcmpReply(f, ip + IP_LEN, little);
  }

  method IpReply(f: array<byte>, ip: nat, little: bool)
    requires ip + IP_LEN <= f.Length
    modifies f
    ensures f[..] == IpReplied(old(f[..]), ip, little)
  {
    hide IpCksum, OtherAddr, WordBytes, Put;
    var ipAddr := f[ip + 12..ip + 16];
    assert f[..][ip + 12..ip + 16] == ipAddr;
    if f[ip + 16] == 0xE0 {
      PutBytes(f, ip + 12, OtherAddr(ipAddr));
      PutBytes(f, ip + 16, ipAddr);
      PutBytes(f, ip + 10, WordBytes(IpCksum(f[..], ip, little), little));
    } else {
      SwapBytes(f, ip + 12, 4);
    }
  }

  method IcmpReply(f: array<byte>, icmp: nat, little: bool)
    requires icmp + 4 <= f.Length
    modifies f
    ensures f[..] == IcmpReplied(old(f[..]), icmp, little)
  {
    assert HostWord(ECHO_REPLY, 0, little) == 0;
    hide Put, WordBytes, Fold, Complement, HostWord;
    var c := HostWord(f[icmp + 2], f[icmp + 3], little);
    PutBytes(f, icmp, [ECHO_REPLY]);
    UpdatedMakesUp(c, HostWord(ECHO_REQUEST, 0, little));
    var cksum := Complement(c);
    cksum := cksum + Complement(HostWord(ECHO_REQUEST, 0, little));
    cksum := cksum + HostWord(ECHO_REPLY, 0, little);
    cksum := Fold(cksum);
    cksum := Fold(cksum);
    PutBytes(f, icmp + 2, WordBytes(Complement(cksum), little));
  }

  // ---------- what the reply carries ----------

  lemma IpBytesOnly(f: seq<byte>, ip: nat, little: bool, lo: nat, hi: nat)
    requires ip + IP_LEN <= |f| && ip + IP_LEN <= lo <= hi <= |f|
    ensures IpReplied(f, ip, little)[lo..hi] == f[lo..hi]
  {
    hide WordBytes, OtherAddr, IpCksum, Put, SwapAdj;
    if IsMulticast(f, ip + 16) {
      var src := f[ip + 12..ip + 16];
      var g := Put(f, ip + 12, OtherAddr(src));
      var h := Put(g, ip + 16, src);
      PutOutside(f, ip + 12, OtherAddr(src), lo, hi);
      PutOutside(g, ip + 16, src, lo, hi);
      PutOutside(h, ip + 10, WordBytes(IpCksum(h, ip, little), little), lo, hi);
    } else {
      SwapAdjOutside(f, ip + 12, 4, lo, hi);
    }
  }

  /** Putting back the computed checksum makes any 20 header bytes verify. */
  lemma CksumPutVerifies(g: seq<byte>, ip: nat, little: bool)
    requires ip + IP_LEN <= |g|
    ensures Verifies(Words(Put(g, ip + 10, WordBytes(IpCksum(g, ip, little), little))[ip..ip + IP_LEN], little))
  {
    hide WordBytes, IpCksum, Verifies, Put;
    var h, b := g[ip..ip + IP_LEN], WordBytes(IpCksum(g, ip, little), little);
    var ws := Words(h, little);
    WordsLength(h, little);
    CksumVerifies(ws);
    PutWithin(g, ip + 10, b, ip, ip + IP_LEN);
    PutSecondLine(h, b);
    PutWord(h, b, little);
    assert Words(h[..10] + (b + h[12..]), little) == ws[CKSUM_WORD := HostWord(b[0], b[1], little)];
    IpCksumIs(g, ip, little);
  }

  lemma PutSecondLine(h: seq<byte>, b: seq<byte>)
    requires |h| == 20 && |b| == 2
    ensures Put(h, 10, b) == h[..10] + (b + h[12..])
  {
  }

  lemma IpCksumIs(g: seq<byte>, ip: nat, little: bool)
    requires ip + IP_LEN <= |g|
    ensures |Words(g[ip..ip + IP_LEN], little)| == 10
    ensures IpCksum(g, ip, little) == EchoCksum(SumWithout(Words(g[ip..ip + IP_LEN], little)))
  {
    WordsLength(g[ip..ip + IP_LEN], little);
  }

  lemma PutWord(h: seq<byte>, b: seq<byte>, little: bool)
    requires |h| == 20 && |b| == 2
    ensures |Words(h, little)| == 10
    ensures Words(h[..10] + (b + h[12..]), little) == Words(h, little)[CKSUM_WORD := HostWord(b[0], b[1], little)]
  {
    hide HostWord, Words;
    var x, y, w := h[..10], h[12..], h[10..12];
    WordsLength(h, little);
    WordsLength(x, little);
    assert h == x + (w + y);
    WordsAppend(x, w + y, little);
    WordsAppend(x, b + y, little);
    OneWord(w, y, little);
    OneWord(b, y, little);
  }

  lemma OneWord(w: seq<byte>, y: seq<byte>, little: bool)
    requires |w| == 2
    ensures Words(w + y, little) == [HostWord(w[0], w[1], little)] + Words(y, little)
  {
    assert (w + y)[2..] == y;
  }

  lemma WordSumIs(b: seq<byte>, little: bool)
    ensures WordSum(b, little) == Sum(Words(b, little))
  {
  }

  /** The ICMP message of the answer, up to any end, is the request's with the first two words replaced. */
  lemma MessageWords(f: seq<byte>, ip: nat, end: nat, little: bool)
    requires 14 <= ip && ip + IP_LEN + 4 <= end <= |f| && IsEchoRequest(f, ip)
    ensures var req := Words(f[ip + IP_LEN..end], little);
      && |req| >= 2 && 0 < req[0] < 0xFFFF
      && Words(Replied(f, ip, little)[ip + IP_LEN..end], little) == ReplyWords(req)
  {
    hide Updated, WordBytes, HostWord;
    var icmp := ip + IP_LEN;
    var g := IpReplied(SwapAdj(f, 0, 6), ip, little);
    IpBytesOnly(SwapAdj(f, 0, 6), ip, little, icmp, end);
    SwapAdjOutside(f, 0, 6, icmp, end);
    var b, rest := f[icmp..end], f[icmp + 4..end];
    assert g[icmp..end] == b;
    TwoWords(b, little);
    IcmpMessage(g, icmp, end, little);
    EchoWord(little);
  }

  lemma EchoWord(little: bool)
    ensures 0 < HostWord(ECHO_REQUEST, 0, little) < 0xFFFF && HostWord(ECHO_REPLY, 0, little) == 0
  {
  }

  lemma TwoWords(b: seq<byte>, little: bool)
    requires |b| >= 4
    ensures Words(b, little) == [HostWord(b[0], b[1], little), HostWord(b[2], b[3], little)] + Words(b[4..], little)
  {
    var y := b[2..4] + b[4..];
    assert b == b[..2] + y;
    OneWord(b[..2], y, little);
    OneWord(b[2..4], b[4..], little);
  }

  lemma IcmpMessage(g: seq<byte>, icmp: nat, end: nat, little: bool)
    requires icmp + 4 <= end <= |g| && g[icmp] == ECHO_REQUEST && g[icmp + 1] == 0
    ensures |Words(g[icmp..end], little)| >= 2
    ensures Words(IcmpReplied(g, icmp, little)[icmp..end], little) == ReplyWords(Words(g[icmp..end], little))
  {
    hide Updated, WordBytes, HostWord, Put;
    var b, r := g[icmp..end], IcmpReplied(g, icmp, little)[icmp..end];
    EchoWord(little);
    UpdatedMakesUp(HostWord(b[2], b[3], little), HostWord(ECHO_REQUEST, 0, little));
    var u := WordBytes(Updated(HostWord(b[2], b[3], little), HostWord(ECHO_REQUEST, 0, little)), little);
    var g1 := Put(g, icmp, [ECHO_REPLY]);
    PutInside(g, icmp, [ECHO_REPLY]);
    PutOutside(g, icmp, [ECHO_REPLY], icmp + 1, end);
    PutInside(g1, icmp + 2, u);
    PutOutside(g1, icmp + 2, u, icmp, icmp + 2);
    PutOutside(g1, icmp + 2, u, icmp + 4, end);
    var h := Put(g1, icmp + 2, u);
    assert h[icmp..icmp + 2][0] == r[0] && h[icmp..icmp + 2][1] == r[1];
    assert g1[icmp..icmp + 1][0] == g1[icmp] && g1[icmp + 1..end][0] == g1[icmp + 1] && g[icmp + 1..end][0] == 0;
    assert h[icmp + 2..icmp + 4] == r[2..4] && r[2..4][0] == r[2] && r[2..4][1] == r[3];
    assert g1[icmp + 1..end][3..] == g1[icmp + 4..end] && g[icmp + 1..end][3..] == g[icmp + 4..end];
    assert r[4..] == h[icmp + 4..end] && b[4..] == g[icmp + 4..end];
    TwoWords(b, little);
    TwoWords(r, little);
  }

  predicate NonZeroIn(s: seq<int>) {
    exists i :: 0 <= i < |s| && s[i] != 0
  }

  lemma NonZeroSplit(s: seq<int>, k: nat)
    requires k <= |s|
    ensures NonZeroIn(s) <==> NonZeroIn(s[..k]) || NonZeroIn(s[k..])
  {
    if NonZeroIn(s) {
      var i :| 0 <= i < |s| && s[i] != 0;
      assert if i < k then s[..k][i] != 0 else s[k..][i - k] != 0;
    }
  }

  /** The ICMP message of the answer is intact exactly if that of the request was and something but the
      type and checksum in it is not zero. */
  lemma MessageVerifiesIff(f: seq<byte>, ip: nat, end: nat, little: bool)
    requires 14 <= ip && ip + IP_LEN + 4 <= end <= |f| && IsEchoRequest(f, ip)
    ensures Verifies(Words(Replied(f, ip, little)[ip + IP_LEN..end], little))
       <==> Verifies(Words(f[ip + IP_LEN..end], little)) && NonZeroIn(f[ip + IP_LEN + 4..end])
  {
    hide Verifies, Replied, ReplyWords;
    var b := f[ip + IP_LEN..end];
    var ws := Words(b, little);
    MessageWords(f, ip, end, little);
    ReplyVerifiesIff(ws);
    TwoWords(b, little);
    assert b[4..] == f[ip + IP_LEN + 4..end] && ws[2..] == Words(b[4..], little);
    NonZero(b[4..], little);
    FromSecond(ws);
  }

  lemma FromSecond(ws: seq<nat>)
    requires |ws| >= 2
    ensures NonZeroIn(ws[2..]) <==> exists i :: 2 <= i < |ws| && ws[i] != 0
  {
    if NonZeroIn(ws[2..]) {
      var k :| 0 <= k < |ws[2..]| && ws[2..][k] != 0;
      assert ws[k + 2] != 0;
    } else {
      assert forall i :: 2 <= i < |ws| ==> ws[i] == ws[2..][i - 2];
    }
  }

  lemma {:induction false} NonZero(b: seq<byte>, little: bool)
    ensures NonZeroIn(Words(b, little)) <==> NonZeroIn(b)
  {
    var ws := Words(b, little);
    if |b| == 1 {
      assert ws[0] != 0 <==> b[0] != 0;
    } else if |b| > 1 {
      NonZero(b[2..], little);
      NonZeroSplit(b, 2);
      NonZeroSplit(ws, 1);
      assert ws[1..] == Words(b[2..], little);
      assert b[..2][0] == b[0] && b[..2][1] == b[1] && ws[..1][0] == ws[0];
    }
  }

  // ---------- the IP header of the answer ----------

  /** The first 20 header bytes are those of the IP rewrite; the ICMP rewrite comes behind them. */
  lemma FrontOfHeader(f: seq<byte>, ip: nat, little: bool)
    requires 14 <= ip && ip + IP_LEN + 4 <= |f|
    ensures Replied(f, ip, little)[ip..ip + IP_LEN] == IpReplied(SwapAdj(f, 0, 6), ip, little)[ip..ip + IP_LEN]
  {
    hide Updated, WordBytes, HostWord, Put, IpReplied;
    var g, icmp := IpReplied(SwapAdj(f, 0, 6), ip, little), ip + IP_LEN;
    var c, m := HostWord(g[icmp + 2], g[icmp + 3], little), HostWord(ECHO_REQUEST, 0, little);
    EchoWord(little);
    UpdatedMakesUp(c, m);
    PutOutside(g, icmp, [ECHO_REPLY], ip, icmp);
    PutOutside(Put(g, icmp, [ECHO_REPLY]), icmp + 2, WordBytes(Updated(c, m), little), ip, icmp);
  }

  /** What follows them, up to any end, has the word sum of the request modulo 65535: header options and
      message alike. */
  lemma BehindFront(f: seq<byte>, ip: nat, end: nat, little: bool)
    requires 14 <= ip && ip + IP_LEN + 4 <= |f| && IsEchoRequest(f, ip)
    requires ip + IP_LEN == end || ip + IP_LEN + 4 <= end <= |f|
    ensures WordSum(Replied(f, ip, little)[ip + IP_LEN..end], little) % 0xFFFF
         == WordSum(f[ip + IP_LEN..end], little) % 0xFFFF
  {
    hide Replied, ReplyWords;
    if ip + IP_LEN == end {
      assert Replied(f, ip, little)[end..end] == f[end..end];
    } else {
      MessageWords(f, ip, end, little);
      ReplySum(Words(f[ip + IP_LEN..end], little));
    }
  }

  /** A header is word by word its first 20 bytes and the rest. */
  lemma HeaderParts(f: seq<byte>, ip: nat, hl: nat, little: bool)
    requires IP_LEN <= hl && ip + hl <= |f|
    ensures WordSum(f[ip..ip + hl], little)
         == WordSum(f[ip..ip + IP_LEN], little) + WordSum(f[ip + IP_LEN..ip + hl], little)
    ensures Verifies(Words(f[ip..ip + hl], little))
       <==> WordSum(f[ip..ip + hl], little) > 0 && WordSum(f[ip..ip + hl], little) % 0xFFFF == 0
  {
    hide WordSum, Verifies;
    assert f[ip..ip + hl] == f[ip..ip + IP_LEN] + f[ip + IP_LEN..ip + hl];
    WordSumAppend(f[ip..ip + IP_LEN], f[ip + IP_LEN..ip + hl], little);
    VerifiesIff(Words(f[ip..ip + hl], little));
    WordSumIs(f[ip..ip + hl], little);
  }

  /** A header that names ICMP does not sum up to zero. */
  lemma IcmpIsNotZero(f: seq<byte>, ip: nat, little: bool)
    requires ip + IP_LEN <= |f| && f[ip + 9] == IPPROTO_ICMP
    ensures WordSum(f[ip..ip + IP_LEN], little) > 0
  {
    hide Words, Sum;
    var h := f[ip..ip + IP_LEN];
    assert h[9] != 0;
    NonZero(h, little);
    SumPositive(Words(h, little));
  }

  lemma ProtocolKept(f: seq<byte>, ip: nat, little: bool)
    requires 14 <= ip && ip + IP_LEN + 4 <= |f|
    ensures Replied(f, ip, little)[ip + 9] == f[ip + 9]
  {
    hide IpReplied, Replied, SwapAdj;
    var e, g := SwapAdj(f, 0, 6), IpReplied(SwapAdj(f, 0, 6), ip, little);
    FrontOfHeader(f, ip, little);
    assert Replied(f, ip, little)[ip..ip + IP_LEN][9] == g[ip..ip + IP_LEN][9];
    SwapAdjAt(f, 0, 6, ip + 9);
    IpByteAt(e, ip, little, ip + 9);
  }

  /** The answer to a unicast request has the request's addresses exchanged, and its header, options
      included, is intact exactly if the request's was, although the checksum is not touched. Without
      options not even the word sum differs; with options the ICMP part that is written over them keeps it
      modulo 65535. */
  lemma UnicastHeader(f: seq<byte>, ip: nat, hl: nat, little: bool)
    requires 14 <= ip && ip + IP_LEN + 4 <= |f| && IsEchoRequest(f, ip) && !IsMulticast(f, ip + 16)
    requires IP_LEN <= hl && hl % 4 == 0 && ip + hl <= |f|
    ensures var g := Replied(f, ip, little);
      && g[ip + 12..ip + 16] == f[ip + 16..ip + 20] && g[ip + 16..ip + 20] == f[ip + 12..ip + 16]
      && WordSum(g[ip..ip + hl], little) % 0xFFFF == WordSum(f[ip..ip + hl], little) % 0xFFFF
      && (hl == IP_LEN ==> WordSum(g[ip..ip + hl], little) == WordSum(f[ip..ip + hl], little))
      && (Verifies(Words(g[ip..ip + hl], little)) <==> Verifies(Words(f[ip..ip + hl], little)))
  {
    hide WordSum, Replied, Verifies;
    var g := Replied(f, ip, little);
    UnicastFront(f, ip, little);
    BehindFront(f, ip, ip + hl, little);
    ProtocolKept(f, ip, little);
    IcmpIsNotZero(f, ip, little);
    IcmpIsNotZero(g, ip, little);
    HeaderParts(f, ip, hl, little);
    HeaderParts(g, ip, hl, little);
    SameModulo(WordSum(g[ip + IP_LEN..ip + hl], little), WordSum(f[ip + IP_LEN..ip + hl], little),
               WordSum(f[ip..ip + IP_LEN], little));
  }

  /** With options the sum itself stays exactly as long as the incremental update does not wrap. */
  lemma UnicastSumIff(f: seq<byte>, ip: nat, hl: nat, little: bool)
    requires 14 <= ip && ip + IP_LEN + 4 <= |f| && IsEchoRequest(f, ip) && !IsMulticast(f, ip + 16)
    requires IP_LEN + 4 <= hl && ip + hl <= |f|
    ensures WordSum(Replied(f, ip, little)[ip..ip + hl], little) == WordSum(f[ip..ip + hl], little)
       <==> HostWord(f[ip + 22], f[ip + 23], little) + HostWord(ECHO_REQUEST, 0, little) < 0xFFFF
  {
    hide Replied, HostWord, Updated, Sum, Verifies;
    var g, end := Replied(f, ip, little), ip + hl;
    var b := f[ip + IP_LEN..end];
    var req := Words(b, little);
    UnicastFront(f, ip, little);
    MessageWords(f, ip, end, little);
    TwoWords(b, little);
    var rep := ReplyWords(req);
    HeaderParts(f, ip, hl, little);
    HeaderParts(g, ip, hl, little);
    UpdatedMakesUp(req[1], req[0]);
    SumTwoWords(req);
    SumTwoWords(rep);
    assert rep[2..] == req[2..];
  }

  lemma UnicastFront(f: seq<byte>, ip: nat, little: bool)
    requires 14 <= ip && ip + IP_LEN + 4 <= |f| && !IsMulticast(f, ip + 16)
    ensures var g := Replied(f, ip, little);
      && g[ip + 12..ip + 16] == f[ip + 16..ip + 20] && g[ip + 16..ip + 20] == f[ip + 12..ip + 16]
      && WordSum(g[ip..ip + IP_LEN], little) == WordSum(f[ip..ip + IP_LEN], little)
  {
    hide WordSum, SwapAdj, Replied;
    var e := SwapAdj(f, 0, 6);
    FrontOfHeader(f, ip, little);
    SwapAdjAt(f, 0, 6, ip + 16);
    SwapAdjOutside(f, 0, 6, ip, ip + IP_LEN);
    SwapKeepsSum(e, ip + 12, 4, ip, ip + IP_LEN, little);
    AddressesExchanged(f, e, SwapAdj(e, ip + 12, 4), Replied(f, ip, little), ip);
  }

  lemma AddressesExchanged(f: seq<byte>, e: seq<byte>, x: seq<byte>, g: seq<byte>, ip: nat)
    requires ip + IP_LEN <= |f| == |e| == |g| && f[ip..ip + IP_LEN] == e[ip..ip + IP_LEN]
    requires x == SwapAdj(e, ip + 12, 4) && g[ip..ip + IP_LEN] == x[ip..ip + IP_LEN]
    ensures g[ip + 12..ip + 16] == f[ip + 16..ip + 20] && g[ip + 16..ip + 20] == f[ip + 12..ip + 16]
  {
    assert g[ip..ip + IP_LEN][12..16] == g[ip + 12..ip + 16] && g[ip..ip + IP_LEN][16..20] == g[ip + 16..ip + 20];
    assert x[ip..ip + IP_LEN][12..16] == x[ip + 12..ip + 16] && x[ip..ip + IP_LEN][16..20] == x[ip + 16..ip + 20];
    assert f[ip..ip + IP_LEN][12..16] == f[ip + 12..ip + 16] && f[ip..ip + IP_LEN][16..20] == f[ip + 16..ip + 20];
    assert e[ip..ip + IP_LEN][12..16] == e[ip + 12..ip + 16] && e[ip..ip + IP_LEN][16..20] == e[ip + 16..ip + 20];
  }

  /** The answer to a multicast request has 20 intact header bytes, whatever the request's, and goes to the
      requester from another address than the requester's. */
  lemma MulticastHeader(f: seq<byte>, ip: nat, little: bool)
    requires 14 <= ip && ip + IP_LEN + 4 <= |f| && IsEchoRequest(f, ip) && IsMulticast(f, ip + 16)
    ensures var g := Replied(f, ip, little);
      && Verifies(Words(g[ip..ip + IP_LEN], little))
      && g[ip + 16..ip + 20] == f[ip + 12..ip + 16] && g[ip + 12..ip + 16] != g[ip + 16..ip + 20]
  {
    hide Replied, IpReplied, Verifies;
    var g, h := Replied(f, ip, little), IpReplied(SwapAdj(f, 0, 6), ip, little);
    FrontOfHeader(f, ip, little);
    MulticastFront(f, ip, little);
    assert g[ip..ip + IP_LEN][12..16] == g[ip + 12..ip + 16] && g[ip..ip + IP_LEN][16..20] == g[ip + 16..ip + 20];
    assert h[ip..ip + IP_LEN][12..16] == h[ip + 12..ip + 16] && h[ip..ip + IP_LEN][16..20] == h[ip + 16..ip + 20];
  }

  lemma MulticastFront(f: seq<byte>, ip: nat, little: bool)
    requires 14 <= ip && ip + IP_LEN + 4 <= |f| && IsMulticast(f, ip + 16)
    ensures var g := IpReplied(SwapAdj(f, 0, 6), ip, little);
      && Verifies(Words(g[ip..ip + IP_LEN], little))
      && g[ip + 16..ip + 20] == f[ip + 12..ip + 16] && g[ip + 12..ip + 16] != g[ip + 16..ip + 20]
  {
    hide WordBytes, IpCksum, OtherAddr, Verifies, Put;
    var e := SwapAdj(f, 0, 6);
    SwapAdjAt(f, 0, 6, ip + 16);
    SwapAdjOutside(f, 0, 6, ip + 12, ip + 16);
    var src := e[ip + 12..ip + 16];
    var g := Put(Put(e, ip + 12, OtherAddr(src)), ip + 16, src);
    CksumPutVerifies(g, ip, little);
    var g1, b := Put(e, ip + 12, OtherAddr(src)), WordBytes(IpCksum(g, ip, little), little);
    PutInside(e, ip + 12, OtherAddr(src));
    PutOutside(g1, ip + 16, src, ip + 12, ip + 16);
    PutInside(g1, ip + 16, src);
    PutOutside(g, ip + 10, b, ip + 12, ip + 16);
    PutOutside(g, ip + 10, b, ip + 16, ip + 20);
  }

  /** Options are left out of the new checksum: with them the header of the answer is intact exactly if
      the words of the request's options sum up to a multiple of 65535. */
  lemma MulticastHeaderWithOptions(f: seq<byte>, ip: nat, hl: nat, little: bool)
    requires 14 <= ip && ip + IP_LEN + 4 <= |f| && IsEchoRequest(f, ip) && IsMulticast(f, ip + 16)
    requires IP_LEN <= hl && hl % 4 == 0 && ip + hl <= |f|
    ensures Verifies(Words(Replied(f, ip, little)[ip..ip + hl], little))
       <==> WordSum(f[ip + IP_LEN..ip + hl], little) % 0xFFFF == 0
  {
    hide WordSum, Replied, Verifies;
    var g := Replied(f, ip, little);
    MulticastHeader(f, ip, little);
    BehindFront(f, ip, ip + hl, little);
    HeaderParts(g, ip, IP_LEN, little);
    HeaderParts(g, ip, hl, little);
    SameModulo(WordSum(g[ip..ip + IP_LEN], little), 0, WordSum(g[ip + IP_LEN..ip + hl], little));
  }

  // ---------- the answer, byte by byte ----------

  /** Ethernet addresses exchanged, type set to reply, IP addresses exchanged or, for a multicast request, sent
      back from an address with other low bits; apart from the two checksums every other byte is as it was. */
  predicate Answered(f: seq<byte>, g: seq<byte>, ip: nat)
    requires 14 <= ip && ip + IP_LEN + 4 <= |f|
  {
    && |g| == |f|
    && g[0..6] == f[6..12] && g[6..12] == f[0..6]
    && g[ip + 16..ip + 20] == f[ip + 12..ip + 16]
    && (f[ip + 16] == 224 ==>
         && g[ip + 12..ip + 15] == f[ip + 12..ip + 15]
         && g[ip + 15] == f[ip + 15] - f[ip + 15] % 4 + if f[ip + 15] % 4 == 1 then 2 else 1)
    && (f[ip + 16] != 224 ==> g[ip + 12..ip + 16] == f[ip + 16..ip + 20] && g[ip + 10..ip + 12] == f[ip + 10..ip + 12])
    && g[ip + 20] == 0
    && (forall i :: 12 <= i < |f| && (i < ip + 10 || i == ip + 21 || ip + 24 <= i) ==> g[i] == f[i])
  }

  lemma ReplySteps(f: seq<byte>, ip: nat, little: bool)
    requires 14 <= ip && ip + IP_LEN + 4 <= |f|
    ensures Replied(f, ip, little) == IcmpReplied(IpReplied(SwapAdj(f, 0, 6), ip, little), ip + IP_LEN, little)
  {
  }

  lemma AnsweredBytes(f: seq<byte>, ip: nat, little: bool)
    requires 14 <= ip && ip + IP_LEN + 4 <= |f|
    ensures Answered(f, Replied(f, ip, little), ip)
  {
    hide WordBytes, IpCksum, Updated, HostWord, IpReplied, IcmpReplied, SwapAdj, OtherAddr;
    var e := SwapAdj(f, 0, 6);
    var h := IpReplied(e, ip, little);
    var g := IcmpReplied(h, ip + IP_LEN, little);
    forall i | 0 <= i < |f|
      ensures e[i] == f[if i < 6 then i + 6 else if i < 12 then i - 6 else i]
    {
      SwapAdjAt(f, 0, 6, i);
    }
    IpBytes(e, ip, little);
    IcmpBytes(h, ip + IP_LEN, little);
    assert g[0..6] == f[6..12] && g[6..12] == f[0..6];
    assert g[ip + 16..ip + 20] == h[ip + 16..ip + 20] && e[ip + 12..ip + 16] == f[ip + 12..ip + 16];
    assert g[ip + 12..ip + 16] == h[ip + 12..ip + 16] && e[ip + 16..ip + 20] == f[ip + 16..ip + 20];
    assert g[ip + 12..ip + 15] == h[ip + 12..ip + 15] && e[ip + 12..ip + 15] == f[ip + 12..ip + 15];
    assert g[ip + 10..ip + 12] == h[ip + 10..ip + 12] && e[ip + 10..ip + 12] == f[ip + 10..ip + 12];
  }

  lemma IpBytes(e: seq<byte>, ip: nat, little: bool)
    requires ip + IP_LEN <= |e|
    ensures var h := IpReplied(e, ip, little);
      && h[ip + 16..ip + 20] == e[ip + 12..ip + 16]
      && (e[ip + 16] == 224 ==>
           && h[ip + 12..ip + 15] == e[ip + 12..ip + 15]
           && h[ip + 15] == e[ip + 15] - e[ip + 15] % 4 + if e[ip + 15] % 4 == 1 then 2 else 1)
      && (e[ip + 16] != 224 ==>
           h[ip + 12..ip + 16] == e[ip + 16..ip + 20] && h[ip + 10..ip + 12] == e[ip + 10..ip + 12])
      && forall i :: 0 <= i < |e| && (i < ip + 10 || ip + 20 <= i) ==> h[i] == e[i]
  {
    hide IpReplied;
    var h := IpReplied(e, ip, little);
    forall i | 0 <= i < |e| && (e[ip + 16] != 224 || !(ip + 10 <= i < ip + 12))
      ensures h[i] ==
        if e[ip + 16] == 224 && i == ip + 15 then e[i] - e[i] % 4 + if e[i] % 4 == 1 then 2 else 1
        else e[if e[ip + 16] != 224 && ip + 12 <= i < ip + 16 then i + 4
               else if ip + 16 <= i < ip + 20 then i - 4 else i]
    {
      IpByteAt(e, ip, little, i);
    }
  }

  lemma IpByteAt(e: seq<byte>, ip: nat, little: bool, i: nat)
    requires ip + IP_LEN <= |e| && i < |e| && (e[ip + 16] != 224 || !(ip + 10 <= i < ip + 12))
    ensures IpReplied(e, ip, little)[i] ==
      if e[ip + 16] == 224 && i == ip + 15 then e[i] - e[i] % 4 + if e[i] % 4 == 1 then 2 else 1
      else e[if e[ip + 16] != 224 && ip + 12 <= i < ip + 16 then i + 4
             else if ip + 16 <= i < ip + 20 then i - 4 else i]
  {
    hide WordBytes, IpCksum, HostWord, Put, OtherAddr, SwapAdj;
    if e[ip + 16] == 224 {
      var src := e[ip + 12..ip + 16];
      OtherAddrBytes(src);
      var a := Put(e, ip + 12, OtherAddr(src));
      var b := Put(a, ip + 16, src);
      PutAt(b, ip + 10, WordBytes(IpCksum(b, ip, little), little), i);
      PutAt(a, ip + 16, src, i);
      PutAt(e, ip + 12, OtherAddr(src), i);
    } else {
      SwapAdjAt(e, ip + 12, 4, i);
    }
  }

  lemma OtherAddrBytes(a: seq<byte>)
    requires |a| == 4
    ensures OtherAddr(a)[0] == a[0] && OtherAddr(a)[1] == a[1] && OtherAddr(a)[2] == a[2]
    ensures OtherAddr(a)[3] == a[3] - a[3] % 4 + if a[3] % 4 == 1 then 2 else 1
  {
  }

  lemma IcmpBytes(h: seq<byte>, icmp: nat, little: bool)
    requires icmp + 4 <= |h|
    ensures var g := IcmpReplied(h, icmp, little);
      g[icmp] == 0 && forall i :: 0 <= i < |h| && i != icmp && !(icmp + 2 <= i < icmp + 4) ==> g[i] == h[i]
  {
    hide WordBytes, Updated, HostWord, Put;
    var c, m := HostWord(h[icmp + 2], h[icmp + 3], little), HostWord(ECHO_REQUEST, 0, little);
    UpdatedMakesUpHere(h, icmp, little);
    var u := WordBytes(Updated(c, m), little);
    forall i | 0 <= i < |h| && !(icmp + 2 <= i < icmp + 4)
      ensures IcmpReplied(h, icmp, little)[i] == if i == icmp then 0 else h[i]
    {
      PutAt(Put(h, icmp, [ECHO_REPLY]), icmp + 2, u, i);
      PutAt(h, icmp, [ECHO_REPLY], i);
    }
  }

  lemma UpdatedMakesUpHere(h: seq<byte>, icmp: nat, little: bool)
    requires icmp + 4 <= |h|
    ensures Updated(HostWord(h[icmp + 2], h[icmp + 3], little), HostWord(ECHO_REQUEST, 0, little)) < 0x1_0000
  {
    EchoWord(little);
    UpdatedMakesUp(HostWord(h[icmp + 2], h[icmp + 3], little), HostWord(ECHO_REQUEST, 0, little));
  }
}
