/** Spreading a value over the bits of a mask, in either byte order (cmdline_flow.c). */
module BitFill {
  import opened Common

  // ---------- bits of a number ----------

  function Pow2(n: nat): (p: nat)
    ensures p > 0
  {
    if n == 0 then 1 else 2 * Pow2(n - 1)
  }

  /** x >> k */
  function Shift(x: nat, k: nat): nat {
    if k == 0 then x else Shift(x, k - 1) / 2
  }

  predicate Bit(x: nat, k: nat) {
    Shift(x, k) % 2 == 1
  }

  /** x with bit k replaced: clear it, then or the new one in. */
  function SetBit(x: nat, k: nat, v: bool): nat {
    if k == 0 then 2 * (x / 2) + (if v then 1 else 0)
    else 2 * SetBit(x / 2, k - 1, v) + x % 2
  }

  lemma {:induction false} ShiftFromBelow(x: nat, k: nat)
    ensures Shift(x, k + 1) == Shift(x / 2, k)
  {
    if k > 0 {
      ShiftFromBelow(x, k - 1);
    }
  }

  lemma {:induction false} SetBitBits(x: nat, k: nat, v: bool, j: nat)
    ensures Bit(SetBit(x, k, v), j) == if j == k then v else Bit(x, j)
  {
    var y := SetBit(x, k, v);
    if j == 0 {
    } else {
      ShiftFromBelow(x, j - 1);
      ShiftFromBelow(y, j - 1);
      if k > 0 {
        SetBitBits(x / 2, k - 1, v, j - 1);
      }
    }
  }

  /** The arithmetic of clearing and setting. */
  lemma {:induction false} SetBitValue(x: nat, k: nat, v: bool)
    ensures SetBit(x, k, v) == x - (if Bit(x, k) then Pow2(k) else 0) + if v then Pow2(k) else 0
  {
    if k > 0 {
      SetBitValue(x / 2, k - 1, v);
      ShiftFromBelow(x, k - 1);
    }
  }

  lemma {:induction false} SetBitSmall(x: nat, k: nat, v: bool, n: nat)
    requires k < n && x < Pow2(n)
    ensures SetBit(x, k, v) < Pow2(n)
  {
    if k > 0 {
      SetBitSmall(x / 2, k - 1, v, n - 1);
    }
  }

  /** The number whose bits, lowest first, are `bits`. */
  function Value(bits: seq<bool>): nat {
    if bits == [] then 0 else (if bits[0] then 1 else 0) + 2 * Value(bits[1..])
  }

  lemma {:induction false} ValueOfBits(x: nat, n: nat, bits: seq<bool>)
    requires |bits| == n && forall k :: 0 <= k < n ==> bits[k] == Bit(x, k)
    ensures Value(bits) == x % Pow2(n)
  {
    if n > 0 {
      forall k | 0 <= k < n - 1
        ensures bits[1..][k] == Bit(x / 2, k)
      {
        ShiftFromBelow(x, k);
      }
      ValueOfBits(x / 2, n - 1, bits[1..]);
      var p := Pow2(n - 1);
      HalfMod(x, p);
    }
  }

  lemma HalfMod(x: nat, p: nat)
    requires p > 0
    ensures x % (2 * p) == x % 2 + 2 * ((x / 2) % p)
  {
    var q, r := (x / 2) / p, (x / 2) % p;
    assert x / 2 == p * q + r;
    assert x == 2 * (x / 2) + x % 2;
    assert 2 * (p * q) == (2 * p) * q;
    DivModUnique(x, 2 * p, q, x % 2 + 2 * r);
  }

  // ---------- the order of the mask bits ----------

  /** A bit of a field: byte index and bit number. */
  datatype Pos = Pos(i: nat, k: nat)

  /** The byte visited after `n` others: upwards for a little-endian field, from the end for one in
      network order. */
  function ByteAt(n: nat, size: nat, hton: bool): nat
    requires n < size
  {
    if hton then size - 1 - n else n
  }

  /** The mask bits below `s` of byte `i`. */
  function BytePos(i: nat, m: byte, s: nat): seq<Pos> {
    if s == 0 then [] else BytePos(i, m, s - 1) + if Bit(m, s - 1) then [Pos(i, s - 1)] else []
  }

  /** The mask bits of the first `n` bytes visited. */
  function PosUpTo(mask: seq<byte>, hton: bool, n: nat): seq<Pos>
    requires n <= |mask|
  {
    if n == 0 then []
    else
      var i := ByteAt(n - 1, |mask|, hton);
      PosUpTo(mask, hton, n - 1) + BytePos(i, mask[i], 8)
  }

  /** All mask bits in the order in which they are filled. */
  function Positions(mask: seq<byte>, hton: bool): seq<Pos> {
    PosUpTo(mask, hton, |mask|)
  }

  predicate Within(ps: seq<Pos>, size: nat) {
    forall p :: p in ps ==> p.i < size && p.k < 8
  }

  lemma {:induction false} BytePosMembers(i: nat, m: byte, s: nat)
    ensures Distinct(BytePos(i, m, s))
    ensures forall p :: p in BytePos(i, m, s) <==> p.i == i && p.k < s && Bit(m, p.k)
  {
    if s > 0 {
      BytePosMembers(i, m, s - 1);
    }
  }

  lemma {:induction false} PosUpToMembers(mask: seq<byte>, hton: bool, n: nat)
    requires n <= |mask|
    ensures Distinct(PosUpTo(mask, hton, n))
    ensures forall p :: p in PosUpTo(mask, hton, n) <==>
      p.i < |mask| && p.k < 8 && Bit(mask[p.i], p.k) && if hton then p.i >= |mask| - n else p.i < n
  {
    if n > 0 {
      var i := ByteAt(n - 1, |mask|, hton);
      PosUpToMembers(mask, hton, n - 1);
      BytePosMembers(i, mask[i], 8);
    }
  }

  /** `p` is of lower significance than `q` in a field of `size` bytes in the given byte order. */
  predicate Lower(p: Pos, q: Pos, size: nat, hton: bool)
    requires p.i < size && q.i < size
  {
    var a, b := ByteAt(p.i, size, hton), ByteAt(q.i, size, hton);
    a < b || (a == b && p.k < q.k)
  }

  lemma {:induction false} BytePosRises(i: nat, m: byte, s: nat)
    ensures forall a, b :: 0 <= a < b < |BytePos(i, m, s)| ==> BytePos(i, m, s)[a].k < BytePos(i, m, s)[b].k
  {
    if s > 0 {
      BytePosRises(i, m, s - 1);
      BytePosMembers(i, m, s - 1);
      var ps := BytePos(i, m, s - 1);
      assert forall a :: 0 <= a < |ps| ==> ps[a] in ps;
    }
  }

  /** The mask bits are taken in the order of their significance in the field's byte order. */
  lemma {:induction false} Rising(mask: seq<byte>, hton: bool, n: nat, a: nat, b: nat)
    requires n <= |mask| && a < b < |PosUpTo(mask, hton, n)|
    ensures var ps := PosUpTo(mask, hton, n);
      ps[a].i < |mask| && ps[b].i < |mask| && Lower(ps[a], ps[b], |mask|, hton)
  {
    hide BytePos;
    if n > 0 {
      var i := ByteAt(n - 1, |mask|, hton);
      var before, more := PosUpTo(mask, hton, n - 1), BytePos(i, mask[i], 8);
      if b < |before| {
        Rising(mask, hton, n - 1, a, b);
      } else {
        PosUpToMembers(mask, hton, n - 1);
        BytePosMembers(i, mask[i], 8);
        BytePosRises(i, mask[i], 8);
        assert more[b - |before|] in more;
        if a < |before| {
          assert before[a] in before;
        } else {
          assert more[a - |before|] in more;
        }
      }
    }
  }

  // ---------- filling ----------

  function SetAt(mem: seq<byte>, off: nat, p: Pos, v: bool): (r: seq<byte>)
    requires off + p.i < |mem| && p.k < 8
    ensures |r| == |mem|
  {
    SetBitSmall(mem[off + p.i], p.k, v, 8);
    assert Pow2(8) == 256;
    mem[off + p.i := SetBit(mem[off + p.i], p.k, v)]
  }

  /** Bit n of the value goes to the n-th position. */
  function Fill(mem: seq<byte>, off: nat, ps: seq<Pos>, val: nat): (r: seq<byte>)
    requires forall p :: p in ps ==> off + p.i < |mem| && p.k < 8
    ensures |r| == |mem|
  {
    if ps == [] then mem
    else
      var last := |ps| - 1;
      SetAt(Fill(mem, off, ps[..last], val), off, ps[last], Bit(val, last))
  }

  function BitAt(mem: seq<byte>, off: nat, p: Pos): bool
    requires off + p.i < |mem|
  {
    Bit(mem[off + p.i], p.k)
  }

  lemma SetAtBits(mem: seq<byte>, off: nat, p: Pos, v: bool, q: Pos)
    requires off + p.i < |mem| && p.k < 8 && off + q.i < |mem|
    ensures BitAt(SetAt(mem, off, p, v), off, q) == if q == p then v else BitAt(mem, off, q)
  {
    SetBitBits(mem[off + p.i], p.k, v, q.k);
  }

  /** Filling writes bit n of the value to the n-th position and nothing else. */
  lemma {:induction false} FillBits(mem: seq<byte>, off: nat, ps: seq<Pos>, val: nat, q: Pos)
    requires (forall p :: p in ps ==> off + p.i < |mem| && p.k < 8) && Distinct(ps) && off + q.i < |mem|
    ensures q !in ps ==> BitAt(Fill(mem, off, ps, val), off, q) == BitAt(mem, off, q)
    ensures forall n :: 0 <= n < |ps| && ps[n] == q ==> BitAt(Fill(mem, off, ps, val), off, q) == Bit(val, n)
  {
    if ps != [] {
      var last := |ps| - 1;
      FillBits(mem, off, ps[..last], val, q);
      SetAtBits(Fill(mem, off, ps[..last], val), off, ps[last], Bit(val, last), q);
    }
  }

  /** The bits found at the positions. */
  function BitsAt(mem: seq<byte>, off: nat, ps: seq<Pos>): (bits: seq<bool>)
    requires forall p :: p in ps ==> off + p.i < |mem|
    ensures |bits| == |ps| && forall n :: 0 <= n < |ps| ==> bits[n] == BitAt(mem, off, ps[n])
  {
    seq(|ps|, n requires 0 <= n < |ps| => BitAt(mem, off, ps[n]))
  }

  /** Reading the mask bits back in the order of filling gives the value modulo 2^bits, for any mask
      and either byte order. */
  lemma ReadBack(mem: seq<byte>, off: nat, mask: seq<byte>, hton: bool, val: nat)
    requires off + |mask| <= |mem|
    ensures var ps := Positions(mask, hton);
      && Within(ps, |mask|)
      && Value(BitsAt(Fill(mem, off, ps, val), off, ps)) == val % Pow2(|ps|)
  {
    var ps := Positions(mask, hton);
    PosUpToMembers(mask, hton, |mask|);
    var after := Fill(mem, off, ps, val);
    var bits := BitsAt(after, off, ps);
    forall n | 0 <= n < |ps|
      ensures bits[n] == Bit(val, n)
    {
      FillBits(mem, off, ps, val, ps[n]);
    }
    ValueOfBits(val, |ps|, bits);
  }

  /** Every bit that is not in the mask keeps its value, in the field and around it. */
  lemma OthersKept(mem: seq<byte>, off: nat, mask: seq<byte>, hton: bool, val: nat, at: nat, k: nat)
    requires off + |mask| <= |mem| && at < |mem| && k < 8
    requires off <= at < off + |mask| ==> !Bit(mask[at - off], k)
    ensures Within(Positions(mask, hton), |mask|)
    ensures Bit(Fill(mem, off, Positions(mask, hton), val)[at], k) == Bit(mem[at], k)
  {
    var ps := Positions(mask, hton);
    PosUpToMembers(mask, hton, |mask|);
    if at >= off {
      FillBits(mem, off, ps, val, Pos(at - off, k));
    } else {
      FillElsewhere(mem, off, ps, val, at);
    }
  }

  lemma {:induction false} FillElsewhere(mem: seq<byte>, off: nat, ps: seq<Pos>, val: nat, at: nat)
    requires forall p :: p in ps ==> off + p.i < |mem| && p.k < 8 && off + p.i != at
    requires at < |mem|
    ensures Fill(mem, off, ps, val)[at] == mem[at]
  {
    if ps != [] {
      FillElsewhere(mem, off, ps[..|ps| - 1], val, at);
    }
  }

  // ---------- the same, byte by byte and bit by bit ----------

  lemma {:induction false} ValueAppend(a: seq<bool>, b: seq<bool>)
    ensures Value(a + b) == Value(a) + Pow2(|a|) * Value(b)
  {
    if a == [] {
      assert a + b == b;
    } else {
      ValueAppend(a[1..], b);
      assert (a + b)[1..] == a[1..] + b;
      assert 2 * (Pow2(|a| - 1) * Value(b)) == Pow2(|a|) * Value(b);
    }
  }

  lemma BitsAtAppend(mem: seq<byte>, off: nat, a: seq<Pos>, b: seq<Pos>)
    requires (forall p :: p in a ==> off + p.i < |mem|) && (forall p :: p in b ==> off + p.i < |mem|)
    ensures forall p :: p in a + b ==> off + p.i < |mem|
    ensures Value(BitsAt(mem, off, a + b)) == Value(BitsAt(mem, off, a)) + Pow2(|a|) * Value(BitsAt(mem, off, b))
  {
    hide Value, Pow2;
    assert BitsAt(mem, off, a + b) == BitsAt(mem, off, a) + BitsAt(mem, off, b);
    ValueAppend(BitsAt(mem, off, a), BitsAt(mem, off, b));
  }

  lemma ValueOfNone(bits: seq<bool>)
    requires bits == []
    ensures Value(bits) == 0
  {
  }

  /** The bytes of a field or of its mask, least significant first: from the last byte on in network
      order. */
  function InOrder(s: seq<byte>, hton: bool): (r: seq<byte>)
    ensures |r| == |s|
  {
    if hton then Reversed(s) else s
  }

  /** How many of the lowest `s` bits are set. */
  function BitCount(m: byte, s: nat): nat {
    if s == 0 then 0 else BitCount(m, s - 1) + if Bit(m, s - 1) then 1 else 0
  }

  /** The number formed by the bits of `b` under the lowest `s` bits of `m`. */
  function Gather(b: byte, m: byte, s: nat): nat {
    if s == 0 then 0
    else Gather(b, m, s - 1) + if Bit(m, s - 1) && Bit(b, s - 1) then Pow2(BitCount(m, s - 1)) else 0
  }

  function MaskBits(mask: seq<byte>): nat {
    if mask == [] then 0 else MaskBits(mask[..|mask| - 1]) + BitCount(mask[|mask| - 1], 8)
  }

  /** The number under a mask, bytes least significant first. */
  function MaskRead(f: seq<byte>, mask: seq<byte>): nat
    requires |f| == |mask|
  {
    if f == [] then 0
    else
      var n := |f| - 1;
      MaskRead(f[..n], mask[..n]) + Pow2(MaskBits(mask[..n])) * Gather(f[n], mask[n], 8)
  }

  lemma {:induction false} GatherReads(mem: seq<byte>, off: nat, i: nat, m: byte, s: nat)
    requires off + i < |mem|
    ensures |BytePos(i, m, s)| == BitCount(m, s) && forall p :: p in BytePos(i, m, s) ==> p.i == i
    ensures Value(BitsAt(mem, off, BytePos(i, m, s))) == Gather(mem[off + i], m, s)
  {
    hide Bit, Pow2;
    if s > 0 {
      GatherReads(mem, off, i, m, s - 1);
      var ps, p := BytePos(i, m, s - 1), [Pos(i, s - 1)];
      if Bit(m, s - 1) {
        BitsAtAppend(mem, off, ps, p);
        OneBit(BitsAt(mem, off, p));
      } else {
        assert BytePos(i, m, s) == ps;
      }
    } else {
      ValueOfNone(BitsAt(mem, off, BytePos(i, m, 0)));
    }
  }

  lemma OneBit(bits: seq<bool>)
    requires |bits| == 1
    ensures Value(bits) == if bits[0] then 1 else 0
  {
  }

  lemma {:induction false} PositionsRead(mem: seq<byte>, off: nat, mask: seq<byte>, hton: bool, n: nat)
    requires off + |mask| <= |mem| && n <= |mask|
    ensures Within(PosUpTo(mask, hton, n), |mask|)
    ensures |PosUpTo(mask, hton, n)| == MaskBits(InOrder(mask, hton)[..n])
    ensures Value(BitsAt(mem, off, PosUpTo(mask, hton, n)))
         == MaskRead(InOrder(mem[off..off + |mask|], hton)[..n], InOrder(mask, hton)[..n])
  {
    hide Value, BytePos, Pow2, BitsAt, Gather, BitCount;
    PosUpToMembers(mask, hton, n);
    var f, m := InOrder(mem[off..off + |mask|], hton), InOrder(mask, hton);
    if n == 0 {
      ValueOfNone(BitsAt(mem, off, PosUpTo(mask, hton, n)));
    } else {
      PositionsRead(mem, off, mask, hton, n - 1);
      var i := ByteAt(n - 1, |mask|, hton);
      assert f[n - 1] == mem[off + i] && m[n - 1] == mask[i];
      GatherReads(mem, off, i, mask[i], 8);
      BitsAtAppend(mem, off, PosUpTo(mask, hton, n - 1), BytePos(i, mask[i], 8));
      assert f[..n][..n - 1] == f[..n - 1] && m[..n][..n - 1] == m[..n - 1];
    }
  }

  /** `now` is `was` with a number stored under the mask: read from the last byte on in network order and
      from the first on otherwise, lowest bit first, the mask bits are that number modulo 2^bits, and every
      other bit, in the field and around it, is as it was. */
  ghost predicate StoredUnder(was: seq<byte>, now: seq<byte>, off: nat, mask: seq<byte>, hton: bool, val: nat)
    requires |now| == |was| && off + |mask| <= |was|
  {
    var f := now[off..off + |mask|];
    && (if hton then MaskRead(Reversed(f), Reversed(mask)) == val % Pow2(MaskBits(Reversed(mask)))
        else MaskRead(f, mask) == val % Pow2(MaskBits(mask)))
    && forall at, k :: 0 <= at < |was| && 0 <= k < 8 && !(off <= at < off + |mask| && Bit(mask[at - off], k)) ==>
      Bit(now[at], k) == Bit(was[at], k)
  }

  lemma FillStores(mem: seq<byte>, off: nat, mask: seq<byte>, hton: bool, val: nat)
    requires off + |mask| <= |mem|
    ensures Within(Positions(mask, hton), |mask|)
    ensures |Positions(mask, hton)| == MaskBits(InOrder(mask, hton))
    ensures StoredUnder(mem, Fill(mem, off, Positions(mask, hton), val), off, mask, hton, val)
  {
    hide Value, Pow2, BitsAt, MaskRead, Fill, MaskBits, PosUpTo, Bit;
    PosUpToMembers(mask, hton, |mask|);
    var after := Fill(mem, off, Positions(mask, hton), val);
    ReadBack(mem, off, mask, hton, val);
    PositionsRead(after, off, mask, hton, |mask|);
    TakeAll(InOrder(mask, hton));
    TakeAll(InOrder(after[off..off + |mask|], hton));
    forall at, k | 0 <= at < |mem| && 0 <= k < 8 && !(off <= at < off + |mask| && Bit(mask[at - off], k))
      ensures Bit(after[at], k) == Bit(mem[at], k)
    {
      OthersKept(mem, off, mask, hton, val, at, k);
    }
  }

  // ---------- the loops ----------

  /** Where a parsed argument goes: byte range within the object, order, and optionally a bit-mask. */
  datatype Arg = Arg(offset: nat, size: nat, hton: bool, mask: Option<seq<byte>>) {
    predicate Valid() {
      mask.Some? ==> |mask.value| == size
    }

    /** The bits a value is spread over, in order. */
    function Bits(): (ps: seq<Pos>)
      requires Valid()
      ensures forall p :: p in ps ==> p.i < size && p.k < 8
    {
      if mask.None? then []
      else
        PosUpToMembers(mask.value, hton, size);
        Positions(mask.value, hton)
    }
  }

  lemma FillSnoc(mem: seq<byte>, off: nat, ps: seq<Pos>, p: Pos, val: nat)
    requires forall q :: q in ps + [p] ==> off + q.i < |mem| && q.k < 8
    ensures (forall q :: q in ps ==> off + q.i < |mem| && q.k < 8) && off + p.i < |mem| && p.k < 8
    ensures Fill(mem, off, ps + [p], val) == SetAt(Fill(mem, off, ps, val), off, p, Bit(val, |ps|))
  {
    assert p in ps + [p];
    assert (ps + [p])[..|ps|] == ps;
  }

  lemma {:induction false} NoHigherBits(m: nat, s: nat, k: nat)
    requires Shift(m, s) == 0 && s <= k
    ensures Shift(m, k) == 0 && !Bit(m, k)
  {
    if s < k {
      NoHigherBits(m, s, k - 1);
    }
  }

  lemma {:induction false} ByteShiftedOut(m: nat, n: nat)
    requires m < Pow2(n)
    ensures Shift(m, n) == 0
  {
    if n > 0 {
      ShiftFromBelow(m, n - 1);
      ByteShiftedOut(m / 2, n - 1);
    }
  }

  /** Stopping when nothing is left above `s` loses no mask bit. */
  lemma {:induction false} BytePosStops(i: nat, m: byte, s: nat, n: nat)
    requires Shift(m, s) == 0 && s <= n
    ensures BytePos(i, m, n) == BytePos(i, m, s)
  {
    if s < n {
      NoHigherBits(m, s, n - 1);
      BytePosStops(i, m, s, n - 1);
    }
  }

  lemma BytePosStart(i: nat, m: byte, ps: seq<Pos>)
    ensures BytePos(i, m, 0) == [] && ps + BytePos(i, m, 0) == ps
  {
  }

  lemma BytePosNext(i: nat, m: byte, s: nat, ps: seq<Pos>)
    ensures Bit(m, s) ==> |BytePos(i, m, s + 1)| == |BytePos(i, m, s)| + 1
    ensures Bit(m, s) ==> ps + BytePos(i, m, s + 1) == (ps + BytePos(i, m, s)) + [Pos(i, s)]
    ensures !Bit(m, s) ==> BytePos(i, m, s + 1) == BytePos(i, m, s)
  {
    if Bit(m, s) {
      assert BytePos(i, m, s + 1) == BytePos(i, m, s) + [Pos(i, s)];
    }
  }

  /** How far the filling has come: the positions `ps` are written and counted, and what is left of the
      value is its part above them. */
  ghost predicate Filled(mem: seq<byte>, was: seq<byte>, off: nat, ps: seq<Pos>, whole: nat, val: nat) {
    && (forall p :: p in ps ==> off + p.i < |was| && p.k < 8)
    && mem == Fill(was, off, ps, whole)
    && val == Shift(whole, |ps|)
  }

  lemma FilledMore(mem: seq<byte>, was: seq<byte>, off: nat, ps: seq<Pos>, p: Pos, whole: nat, val: nat)
    requires Filled(mem, was, off, ps, whole, val) && off + p.i < |mem| && p.k < 8
    ensures Filled(SetAt(mem, off, p, val % 2 == 1), was, off, ps + [p], whole, val / 2)
  {
    FillSnoc(was, off, ps, p, whole);
  }

  lemma NothingFilled(was: seq<byte>, off: nat, mask: seq<byte>, hton: bool, val: nat)
    ensures PosUpTo(mask, hton, 0) == [] && Filled(was, was, off, PosUpTo(mask, hton, 0), val, val)
  {
  }

  /** One byte of the mask, lowest bit first. */
  method FillByte(dst: array?<byte>, off: nat, i: nat, m: byte, val: nat, ghost was: seq<byte>,
                  ghost ps: seq<Pos>, ghost whole: nat)
    returns (len: nat, rest: nat)
    requires dst != null ==> off + i < dst.Length && Filled(dst[..], was, off, ps, whole, val)
    modifies dst
    ensures len == |BytePos(i, m, 8)|
    ensures dst != null ==> Filled(dst[..], was, off, ps + BytePos(i, m, 8), whole, rest)
  {
    hide Filled, SetBit, BytePos, Bit;
    ByteShiftedOut(m, 8) by { assert Pow2(8) == 256; }
    var shift := 0;
    len, rest := 0, val;
    BytePosStart(i, m, ps);
    while Shift(m, shift) != 0
      invariant shift <= 8
      invariant len == |BytePos(i, m, shift)|
      invariant dst != null ==> Filled(dst[..], was, off, ps + BytePos(i, m, shift), whole, rest)
      decreases 8 - shift
    {
      BytePosNext(i, m, shift, ps);
      if Bit(m, shift) {
        len := len + 1;
        if dst != null {
          FilledMore(dst[..], was, off, ps + BytePos(i, m, shift), Pos(i, shift), whole, rest);
          SetBitSmall(dst[off + i], shift, rest % 2 == 1, 8);
          dst[off + i] := SetBit(dst[off + i], shift, rest % 2 == 1);
          rest := rest / 2;
        }
      }
      shift := shift + 1;
    }
    BytePosStops(i, m, shift, 8);
  }

  lemma PosUpToNext(mask: seq<byte>, hton: bool, n: nat)
    requires n < |mask|
    ensures var i := ByteAt(n, |mask|, hton);
      PosUpTo(mask, hton, n + 1) == PosUpTo(mask, hton, n) + BytePos(i, mask[i], 8)
  {
  }

  lemma Counted(mask: seq<byte>, hton: bool)
    ensures |PosUpTo(mask, hton, |mask|)| == MaskBits(InOrder(mask, hton))
  {
    hide PosUpTo, MaskBits;
    PositionsRead(mask, 0, mask, hton, |mask|);
    TakeAll(InOrder(mask, hton));
  }

  /** Spreads `val` over the mask bits and returns their number; without an object it only counts. */
  method ArgEntryBfFill(dst: array?<byte>, val: nat, arg: Arg) returns (len: nat)
    requires arg.Valid()
    requires dst != null ==> arg.offset + arg.size <= dst.Length
    modifies dst
    ensures len == |arg.Bits()| == if arg.mask.None? then 0 else MaskBits(InOrder(arg.mask.value, arg.hton))
    ensures dst != null ==> dst[..] == Fill(old(dst[..]), arg.offset, arg.Bits(), val)
    ensures dst != null && arg.mask.Some? ==>
      StoredUnder(old(dst[..]), dst[..], arg.offset, arg.mask.value, arg.hton, val)
  {
    hide PosUpTo, BytePos, StoredUnder, MaskBits;
    len := 0;
    if arg.mask.None? {
      return;
    }
    ghost var was := if dst != null then dst[..] else [];
    var mask := arg.mask.value;
    var i, end, sub, add := arg.size, 0, 1, 0;
    if !arg.hton {
      i, end, sub, add := 0, arg.size, 0, 1;
    }
    var rest := val;
    ghost var n := 0;
    NothingFilled(was, arg.offset, mask, arg.hton, val);
    while i != end
      invariant 0 <= n <= arg.size && i == if arg.hton then arg.size - n else n
      invariant len == |PosUpTo(mask, arg.hton, n)|
      invariant dst != null ==> Filled(dst[..], was, arg.offset, PosUpTo(mask, arg.hton, n), val, rest)
      decreases arg.size - n
    {
      PosUpToNext(mask, arg.hton, n);
      i := i - sub;
      var more;
      more, rest := FillByte(dst, arg.offset, i, mask[i], rest, was, PosUpTo(mask, arg.hton, n), val);
      len := len + more;
      i := i + add;
      n := n + 1;
    }
    Counted(mask, arg.hton);
    if dst != null {
      FillStores(was, arg.offset, mask, arg.hton, val);
    }
  }
}
