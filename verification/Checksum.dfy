/** The Internet checksum (RFC 1071) as the forwarding engines compute it: two 32-bit routines for the
    IPv4 header (icmpecho.c, txonly.c) and the incremental update of an ICMP echo (icmpecho.c). */
module Checksum {
  import opened Common

  // ---------- words of a byte string ----------

  /** The 16-bit word a host of the given byte order reads from two bytes in memory. */
  function HostWord(b0: byte, b1: byte, little: bool): (w: nat)
    ensures w < 0x1_0000
  {
    if little then b0 + 256 * b1 else 256 * b0 + b1
  }

  /** The words of a byte string; an odd last byte is followed by a zero byte. */
  function Words(b: seq<byte>, little: bool): (ws: seq<nat>)
    ensures forall i :: 0 <= i < |ws| ==> ws[i] < 0x1_0000
  {
    if b == [] then []
    else if |b| == 1 then [HostWord(b[0], 0, little)]
    else [HostWord(b[0], b[1], little)] + Words(b[2..], little)
  }

  lemma {:induction false} WordsAppend(a: seq<byte>, b: seq<byte>, little: bool)
    requires |a| % 2 == 0
    ensures Words(a + b, little) == Words(a, little) + Words(b, little)
  {
    if a == [] {
      assert a + b == b;
    } else {
      assert (a + b)[2..] == a[2..] + b;
      WordsAppend(a[2..], b, little);
    }
  }

  function WordSum(b: seq<byte>, little: bool): nat {
    Sum(Words(b, little))
  }

  lemma WordSumAppend(a: seq<byte>, b: seq<byte>, little: bool)
    requires |a| % 2 == 0
    ensures WordSum(a + b, little) == WordSum(a, little) + WordSum(b, little)
  {
    WordsAppend(a, b, little);
    SumAppend(Words(a, little), Words(b, little));
  }

  // ---------- one's complement sums ----------

  /** One's complement addition of 16-bit words: the carry is added back in. */
  function OnesAdd(x: nat, y: nat): nat {
    if x + y > 0xFFFF then x + y - 0xFFFF else x + y
  }

  /** The one's complement sum of section 1 of RFC 1071. */
  function OnesSum(ws: seq<nat>): nat {
    if ws == [] then 0 else OnesAdd(OnesSum(ws[..|ws| - 1]), ws[|ws| - 1])
  }

  /** A block that carries its checksum is intact if it sums up to all ones. */
  predicate Verifies(ws: seq<nat>) {
    OnesSum(ws) == 0xFFFF
  }

  /** The residue in 1..65535 that one's complement arithmetic keeps of a positive sum. */
  function Residue(s: nat): nat {
    if s == 0 then 0 else (s - 1) % 0xFFFF + 1
  }

  lemma ResidueStep(s: nat, w: nat)
    requires w < 0x1_0000
    ensures OnesAdd(Residue(s), w) == Residue(s + w)
  {
    if s > 0 && w > 0 {
      var q, r := (s - 1) / 0xFFFF, (s - 1) % 0xFFFF;
      if r + 1 + w > 0xFFFF {
        DivModUnique(s + w - 1, 0xFFFF, q + 1, r + w - 0xFFFF);
      } else {
        DivModUnique(s + w - 1, 0xFFFF, q, r + w);
      }
    } else if w > 0 {
      DivModUnique(w - 1, 0xFFFF, 0, w - 1);
    }
  }

  lemma {:induction false} OnesSumIsResidue(ws: seq<nat>)
    requires forall i :: 0 <= i < |ws| ==> ws[i] < 0x1_0000
    ensures OnesSum(ws) == Residue(Sum(ws))
  {
    if ws != [] {
      var init := ws[..|ws| - 1];
      OnesSumIsResidue(init);
      SumSnoc(ws, |ws| - 1);
      assert ws[..|ws|] == ws;
      ResidueStep(Sum(init), ws[|ws| - 1]);
    }
  }

  lemma VerifiesIff(ws: seq<nat>)
    requires forall i :: 0 <= i < |ws| ==> ws[i] < 0x1_0000
    ensures Verifies(ws) <==> Sum(ws) > 0 && Sum(ws) % 0xFFFF == 0
  {
    OnesSumIsResidue(ws);
    var s := Sum(ws);
    if s > 0 {
      DivStep(s - 1, 0xFFFF);
    }
  }

  // ---------- the two IPv4 header routines ----------

  /** (x & 0xffff) + (x >> 16) */
  function Fold(x: nat): nat {
    x % 0x1_0000 + x / 0x1_0000
  }

  /** ~x & 0xffff */
  function Complement(x: nat): nat {
    0xFFFF - x % 0x1_0000
  }

  function ZeroAsOnes(c: nat): nat {
    if c == 0 then 0xFFFF else c
  }

  /** ipv4_hdr_cksum of icmpecho.c, on the sum of the words: fold twice. */
  function EchoCksum(sum: nat): nat {
    ZeroAsOnes(Complement(Fold(Fold(sum))))
  }

  /** The end of setup_pkt_udp_ip_headers of txonly.c: fold once, then take a carry back by hand. */
  function TxCksum(sum: nat): nat {
    var x := Fold(sum);
    ZeroAsOnes(Complement(if x > 0xFFFF then x - 0xFFFF else x))
  }

  const CKSUM_WORD := 5

  /** The sum of the header words except the checksum's. */
  function SumWithout(ws: seq<nat>): nat
    requires |ws| > CKSUM_WORD
  {
    Sum(ws[..CKSUM_WORD]) + Sum(ws[CKSUM_WORD + 1..])
  }

  lemma SumReplaced(ws: seq<nat>, c: nat)
    requires |ws| > CKSUM_WORD
    ensures Sum(ws[CKSUM_WORD := c]) == SumWithout(ws) + c
  {
    var v := ws[CKSUM_WORD := c];
    assert v == ws[..CKSUM_WORD] + ([c] + ws[CKSUM_WORD + 1..]);
    SumAppend(ws[..CKSUM_WORD], [c] + ws[CKSUM_WORD + 1..]);
    assert ([c] + ws[CKSUM_WORD + 1..])[1..] == ws[CKSUM_WORD + 1..];
  }

  /** Folding a sum of at most ten words twice, or once with the carry taken back, gives the same. */
  lemma FoldsAgree(sum: nat)
    requires sum <= 10 * 0xFFFF
    ensures var x := Fold(sum);
      Fold(x) == (if x > 0xFFFF then x - 0xFFFF else x) <= 0xFFFF
  {
  }

  lemma FoldTwice(sum: nat)
    requires sum <= 10 * 0xFFFF
    ensures Fold(Fold(sum)) == Residue(sum)
  {
    if sum > 0 {
      var f := Fold(Fold(sum));
      FoldsAgree(sum);
      assert sum == f + 0xFFFF * ((sum - f) / 0xFFFF) by {
        FoldLoses(sum);
        FoldLoses(Fold(sum));
      }
      DivModUnique(sum - 1, 0xFFFF, (sum - f) / 0xFFFF, f - 1);
    }
  }

  /** A fold takes a multiple of 65535 away and leaves no positive sum at zero. */
  lemma FoldLoses(x: nat)
    ensures Fold(x) == x - 0xFFFF * (x / 0x1_0000)
    ensures x > 0 ==> Fold(x) > 0
  {
  }

  /** On every 20-byte header (ten words) the two routines agree. */
  lemma RoutinesAgree(ws: seq<nat>)
    requires |ws| == 10 && forall i :: 0 <= i < |ws| ==> ws[i] < 0x1_0000
    ensures EchoCksum(SumWithout(ws)) == TxCksum(SumWithout(ws))
  {
    HeaderSumBound(ws);
    FoldsAgree(SumWithout(ws));
  }

  lemma {:induction false} SumBound(ws: seq<nat>)
    requires forall i :: 0 <= i < |ws| ==> ws[i] < 0x1_0000
    ensures Sum(ws) <= 0xFFFF * |ws|
  {
    if ws != [] {
      SumBound(ws[1..]);
    }
  }

  lemma HeaderSumBound(ws: seq<nat>)
    requires |ws| == 10 && forall i :: 0 <= i < |ws| ==> ws[i] < 0x1_0000
    ensures SumWithout(ws) <= 9 * 0xFFFF
  {
    SumBound(ws[..CKSUM_WORD]);
    SumBound(ws[CKSUM_WORD + 1..]);
  }

  /** The header verifies once it carries the checksum computed for it. */
  lemma CksumVerifies(ws: seq<nat>)
    requires |ws| == 10 && forall i :: 0 <= i < |ws| ==> ws[i] < 0x1_0000
    ensures EchoCksum(SumWithout(ws)) < 0x1_0000
    ensures Verifies(ws[CKSUM_WORD := EchoCksum(SumWithout(ws))])
  {
    var s := SumWithout(ws);
    var c := EchoCksum(s);
    HeaderSumBound(ws);
    SumReplaced(ws, c);
    FoldTwice(s);
    SumToOnes(s, c);
    VerifiesIff(ws[CKSUM_WORD := c]);
  }

  /** A sum and the complement of its residue (or all ones) make a positive multiple of 65535. */
  lemma SumToOnes(s: nat, c: nat)
    requires c == ZeroAsOnes(Complement(Residue(s)))
    ensures s + c > 0 && (s + c) % 0xFFFF == 0
  {
    if s > 0 {
      var q, r := (s - 1) / 0xFFFF, (s - 1) % 0xFFFF;
      assert s == 0xFFFF * q + r + 1;
      if r + 1 == 0xFFFF {
        DivModUnique(s + c, 0xFFFF, q + 2, 0);
      } else {
        DivModUnique(s + c, 0xFFFF, q + 1, 0);
      }
    }
  }
}
