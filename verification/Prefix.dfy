/** Prefix lengths turned into field masks (cmdline_flow.c). */
module Prefix {
  import opened Common
  import opened BitFill

  const UINT32: nat := 0x1_0000_0000
  const UINTMAX: nat := 0x1_0000_0000_0000_0000

  // ---------- the values written ----------

  /** `u` ones followed by `extra` zeros, in a 64-bit word. */
  function MaskedValue(u: nat, extra: nat): nat {
    (((Pow2(u) - 1) % UINTMAX) * Pow2(extra)) % UINTMAX
  }

  /** The table of partial bytes: its first `extra` bits are ones. */
  const CONV: seq<byte> := [0x00, 0x80, 0xc0, 0xe0, 0xf0, 0xf8, 0xfc, 0xfe, 0xff]

  /** The whole bytes of a prefix, counted in an unsigned int. */
  function WholeBytes(u: nat): nat {
    (u / 8) % UINT32
  }

  /** The byte of significance `j` (0 is the least) in a field of `size` bytes. */
  function PrefixByte(size: nat, u: nat, j: nat): byte {
    var bytes, extra := WholeBytes(u), u % 8;
    if j + bytes >= size then 0xff
    else if extra != 0 && j + bytes + 1 == size then CONV[extra]
    else 0
  }

  function PlainField(size: nat, u: nat, hton: bool): (f: seq<byte>)
    ensures |f| == size
  {
    seq(size, i requires 0 <= i < size => PrefixByte(size, u, ByteAt(i, size, hton)))
  }

  predicate PlainAccepted(u: nat, size: nat) {
    WholeBytes(u) <= size && (WholeBytes(u) + (if u % 8 != 0 then 1 else 0)) % UINT32 <= size
  }

  // ---------- what a field says ----------

  /** The number held by the `n` least significant bytes of a field in its byte order. */
  function LowBytes(f: seq<byte>, hton: bool, n: nat): nat
    requires n <= |f|
  {
    if n == 0 then 0 else LowBytes(f, hton, n - 1) + Pow2(8 * (n - 1)) * f[ByteAt(n - 1, |f|, hton)]
  }

  /** The number whose bytes, most significant first, are `s`. */
  function BigEndian(s: seq<byte>): nat {
    if s == [] then 0 else 256 * BigEndian(s[..|s| - 1]) + s[|s| - 1]
  }

  /** The number whose bytes, least significant first, are `s`. */
  function LittleEndian(s: seq<byte>): nat {
    if s == [] then 0 else s[0] + 256 * LittleEndian(s[1..])
  }

  /** What a field says: network order or the order of a little-endian host. */
  function FieldValue(f: seq<byte>, hton: bool): nat {
    if hton then BigEndian(f) else LittleEndian(f)
  }

  lemma {:induction false} BigEndianFront(b: byte, s: seq<byte>)
    ensures BigEndian([b] + s) == Pow2(8 * |s|) * b + BigEndian(s)
  {
    if s == [] {
      assert [b] + s == [b] && [b][..0] == [];
    } else {
      var n := |s| - 1;
      BigEndianFront(b, s[..n]);
      assert ([b] + s)[..|s|] == [b] + s[..n];
      PowBytes(n);
      assert 256 * (Pow2(8 * n) * b) == (256 * Pow2(8 * n)) * b;
    }
  }

  lemma {:induction false} LittleEndianBack(s: seq<byte>, b: byte)
    ensures LittleEndian(s + [b]) == LittleEndian(s) + Pow2(8 * |s|) * b
  {
    if s == [] {
      assert s + [b] == [b] && [b][1..] == [];
    } else {
      LittleEndianBack(s[1..], b);
      assert (s + [b])[1..] == s[1..] + [b];
      PowBytes(|s| - 1);
      assert 256 * (Pow2(8 * (|s| - 1)) * b) == (256 * Pow2(8 * (|s| - 1))) * b;
    }
  }

  lemma {:induction false} LowBytesAre(f: seq<byte>, hton: bool, n: nat)
    requires n <= |f|
    ensures LowBytes(f, hton, n) == if hton then BigEndian(f[|f| - n..]) else LittleEndian(f[..n])
  {
    hide Pow2, BigEndian, LittleEndian;
    if n == 0 {
      NoBytes();
      assert f[|f|..] == [] && f[..0] == [];
    } else {
      LowBytesAre(f, hton, n - 1);
      if hton {
        assert f[|f| - n..] == [f[|f| - n]] + f[|f| - (n - 1)..];
        BigEndianFront(f[|f| - n], f[|f| - (n - 1)..]);
      } else {
        assert f[..n] == f[..n - 1] + [f[n - 1]];
        LittleEndianBack(f[..n - 1], f[n - 1]);
      }
    }
  }

  lemma NoBytes()
    ensures BigEndian([]) == 0 && LittleEndian([]) == 0
  {
  }

  lemma LowBytesAll(f: seq<byte>, hton: bool)
    ensures LowBytes(f, hton, |f|) == FieldValue(f, hton)
  {
    hide BigEndian, LittleEndian, LowBytes;
    LowBytesAre(f, hton, |f|);
    assert f[|f| - |f|..] == f && f[..|f|] == f;
  }

  lemma {:induction false} PowSum(a: nat, b: nat)
    ensures Pow2(a + b) == Pow2(a) * Pow2(b)
  {
    if a > 0 {
      PowSum(a - 1, b);
      assert Pow2(a + b) == 2 * Pow2(a - 1 + b);
      assert 2 * (Pow2(a - 1) * Pow2(b)) == (2 * Pow2(a - 1)) * Pow2(b);
    }
  }

  lemma {:induction false} PowMonotone(a: nat, b: nat)
    requires a <= b
    ensures Pow2(a) <= Pow2(b)
    ensures a < b ==> 2 * Pow2(a) <= Pow2(b)
  {
    if a < b {
      PowMonotone(a, b - 1);
    }
  }

  lemma PowBytes(n: nat)
    ensures Pow2(8 * (n + 1)) == 256 * Pow2(8 * n)
  {
    PowSum(8, 8 * n);
    assert Pow2(8) == 256;
  }

  /** The value of a prefix of `u` ones in a field of `w` bits. */
  function PrefixValue(w: nat, u: nat): (v: nat)
    requires u <= w
    ensures v == Pow2(w) - Pow2(w - u)
  {
    PowMonotone(w - u, w);
    Pow2(w) - Pow2(w - u)
  }

  lemma ConvValue(extra: nat)
    requires 0 < extra < 8
    ensures CONV[extra] == 256 - Pow2(8 - extra)
  {
    assert Pow2(1) == 2 && Pow2(2) == 4 && Pow2(3) == 8 && Pow2(4) == 16;
    assert Pow2(5) == 2 * Pow2(4) && Pow2(6) == 2 * Pow2(5) && Pow2(7) == 2 * Pow2(6);
  }

  /** A byte of the field by where the lowest one of the prefix, bit `zeros`, falls. */
  lemma PrefixByteValue(size: nat, u: nat, j: nat, zeros: nat)
    requires j < size && u + zeros == 8 * size && u / 8 < UINT32
    ensures PrefixByte(size, u, j)
         == if 8 * j + 8 <= zeros then 0 else if zeros <= 8 * j then 255 else 256 - Pow2(zeros - 8 * j)
  {
    if zeros < 8 * j + 8 && 8 * j < zeros {
      assert u % 8 == 8 - (zeros - 8 * j);
      ConvValue(u % 8);
    }
  }

  lemma FieldStep(low: nat, b: nat, p: nat, z: nat, j: nat)
    requires p == Pow2(8 * j)
    requires low == if 8 * j <= z then 0 else p - Pow2(z)
    requires b == if 8 * j + 8 <= z then 0 else if z <= 8 * j then 255 else 256 - Pow2(z - 8 * j)
    ensures low + p * b == if 8 * j + 8 <= z then 0 else 256 * p - Pow2(z)
  {
    hide Pow2;
    if z == 8 * j {
    } else if 8 * j < z < 8 * j + 8 {
      PowSum(8 * j, z - 8 * j);
      var q := Pow2(z - 8 * j);
      assert p * (256 - q) == p * 256 - p * q;
    }
  }

  /** The field up to significance `n`: nothing below the prefix, then its ones. */
  lemma {:induction false} PlainUpTo(size: nat, u: nat, hton: bool, n: nat, zeros: nat)
    requires n <= size && u + zeros == 8 * size && u / 8 < UINT32
    ensures LowBytes(PlainField(size, u, hton), hton, n) == if 8 * n <= zeros then 0 else Pow2(8 * n) - Pow2(zeros)
  {
    hide PrefixByte, Pow2;
    if n > 0 {
      var f := PlainField(size, u, hton);
      PlainUpTo(size, u, hton, n - 1, zeros);
      assert f[ByteAt(n - 1, size, hton)] == PrefixByte(size, u, n - 1);
      PrefixByteValue(size, u, n - 1, zeros);
      PowBytes(n - 1);
      FieldStep(LowBytes(f, hton, n - 1), PrefixByte(size, u, n - 1), Pow2(8 * (n - 1)), zeros, n - 1);
    }
  }

  /** For every prefix length below 2^35 the plain branch accepts exactly the lengths that fit, and the
      field, read in its byte order, is u ones followed by zeros. */
  lemma PlainPrefix(size: nat, u: nat, hton: bool)
    requires size < UINT32 - 1 && u < 8 * UINT32
    ensures PlainAccepted(u, size) <==> u <= 8 * size
    ensures u <= 8 * size ==> FieldValue(PlainField(size, u, hton), hton) == PrefixValue(8 * size, u)
  {
    hide BigEndian, LittleEndian, LowBytes, PrefixByte, FieldValue;
    assert WholeBytes(u) == u / 8;
    if u <= 8 * size {
      PlainUpTo(size, u, hton, size, 8 * size - u);
      LowBytesAll(PlainField(size, u, hton), hton);
    }
  }

  /** The bound is exact: of the accepted lengths, those that fit the field and fill it as they should
      are the ones below 2^35. */
  lemma PlainPrefixIff(size: nat, u: nat, hton: bool)
    requires size < UINT32 - 1 && PlainAccepted(u, size)
    ensures u < 8 * UINT32 <==>
      u <= 8 * size && FieldValue(PlainField(size, u, hton), hton) == PrefixValue(8 * size, u)
  {
    if u < 8 * UINT32 {
      PlainPrefix(size, u, hton);
    }
  }

  /** Lengths 2^35 apart are not told apart: 2^35 itself is accepted everywhere, as the empty prefix. */
  lemma LengthWraps(size: nat, u: nat, hton: bool)
    ensures PlainAccepted(u + 8 * UINT32, size) <==> PlainAccepted(u, size)
    ensures PlainField(size, u + 8 * UINT32, hton) == PlainField(size, u, hton)
    ensures PlainAccepted(8 * UINT32, size) && PlainField(size, 8 * UINT32, hton) == PlainField(size, 0, hton)
  {
    WholeBytesWrap(u);
    WholeBytesWrap(0);
  }

  lemma WholeBytesWrap(u: nat)
    ensures WholeBytes(u + 8 * UINT32) == WholeBytes(u) && (u + 8 * UINT32) % 8 == u % 8
  {
    var a, q, r := u / 8, u / 8 / UINT32, u / 8 % UINT32;
    assert (u + 8 * UINT32) / 8 == a + UINT32;
    DivModUnique(a + UINT32, UINT32, q + 1, r);
  }

  // ---------- the masked branch ----------

  lemma MaskedValueIs(u: nat, extra: nat)
    requires extra < 64
    ensures u + extra <= 64 ==> MaskedValue(u, extra) == PrefixValue(u + extra, u)
    ensures MaskedValue(u, extra) < UINTMAX == Pow2(64)
  {
    hide Pow2;
    PowSixtyFour();
    if u + extra <= 64 {
      PowMonotone(u, 64);
      PowMonotone(u + extra, 64);
      PowSum(u, extra);
      assert (Pow2(u) - 1) * Pow2(extra) == Pow2(u + extra) - Pow2(extra);
    }
  }

  lemma PowSixtyFour()
    ensures Pow2(64) == UINTMAX
  {
    assert Pow2(8) == 256;
    PowSum(8, 8);
    PowSum(16, 16);
    PowSum(32, 32);
  }

  lemma WideFallsShort(bits: nat, u: nat)
    requires u <= bits && bits - u < 64 < bits
    ensures PrefixValue(bits, u) >= Pow2(64) && Pow2(bits) - 1 > Pow2(64) - 1 
  {
    hide Pow2;
    PowMonotone(64, bits);
    PowMonotone(bits - u, 63);
    PowMonotone(63, 64);
  }

  /** What is left of the built value in a field of as many bits as the mask. */
  lemma MaskedReduced(bits: nat, u: nat)
    requires u <= bits && bits - u < 64
    ensures MaskedValue(u, bits - u) % Pow2(bits) == PrefixValue(bits, u) <==> bits <= 64
  {
    hide Pow2, MaskedValue;
    MaskedValueIs(u, bits - u);
    PowPositive(bits - u);
    var v := MaskedValue(u, bits - u);
    if bits > 64 {
      WideFallsShort(bits, u);
      DivModUnique(v, Pow2(bits), 0, v);
    } else {
      PowMonotone(bits - u, bits);
      DivModUnique(v, Pow2(bits), 0, v);
    }
  }

  lemma OnesReduced(bits: nat)
    ensures (UINTMAX - 1) % Pow2(bits) == Pow2(bits) - 1 <==> bits <= 64
  {
    hide Pow2;
    if bits <= 64 {
      AllOnesBelow(bits);
    } else {
      PowSixtyFour();
      PowPositive(64);
      PowMonotone(64, bits);
      DivModUnique(UINTMAX - 1, Pow2(bits), 0, UINTMAX - 1);
    }
  }

  /** Read back in the order of its mask, a masked field is u ones followed by zeros, and its mask all
      ones, exactly when the mask has no more bits than the word they are built in. */
  lemma MaskedPrefix(mem: seq<byte>, off: nat, arg: Arg, u: nat)
    requires arg.Valid() && off + arg.size <= |mem| && arg.mask.Some?
    requires u <= |arg.Bits()| && |arg.Bits()| - u < 64
    ensures var ps := arg.Bits(); var bits := |ps|;
      && (Value(BitsAt(Fill(mem, off, ps, MaskedValue(u, bits - u)), off, ps)) == PrefixValue(bits, u) <==> bits <= 64)
      && (Value(BitsAt(Fill(mem, off, ps, UINTMAX - 1), off, ps)) == Pow2(bits) - 1 <==> bits <= 64)
  {
    hide Pow2, Positions, Fill, Value, BitsAt, MaskedValue, PrefixValue;
    var bits := |arg.Bits()|;
    ReadBack(mem, off, arg.mask.value, arg.hton, MaskedValue(u, bits - u));
    ReadBack(mem, off, arg.mask.value, arg.hton, UINTMAX - 1);
    MaskedReduced(bits, u);
    OnesReduced(bits);
  }

  lemma AllOnesBelow(bits: nat)
    requires bits <= 64
    ensures (UINTMAX - 1) % Pow2(bits) == Pow2(bits) - 1
  {
    hide Pow2;
    PowSixtyFour();
    var p, q := Pow2(bits), Pow2(64 - bits);
    PowSum(bits, 64 - bits);
    assert p * (q - 1) == p * q - p;
    DivModUnique(UINTMAX - 1, p, q - 1, p - 1);
  }

  // ---------- the two branches ----------

  function AllOnes(size: nat): seq<byte> {
    seq(size, i requires 0 <= i < size => 0xff)
  }

  lemma {:induction false} OnesBytePos(i: nat, s: nat)
    requires s <= 8
    ensures |BytePos(i, 255, s)| == s
    ensures forall k :: 0 <= k < s ==> BytePos(i, 255, s)[k] == Pos(i, k)
  {
    if s > 0 {
      OnesBytePos(i, s - 1);
      OnesBits(s - 1);
    }
  }

  lemma OnesBits(k: nat)
    requires k < 8
    ensures Bit(255, k)
  {
    assert Shift(255, 1) == 127 && Shift(255, 2) == 63 && Shift(255, 3) == 31 && Shift(255, 4) == 15;
    assert Shift(255, 5) == 7 && Shift(255, 6) == 3 && Shift(255, 7) == 1;
  }

  /** The bits of a whole byte hold the byte. */
  lemma ByteBits(mem: seq<byte>, off: nat, i: nat)
    requires off + i < |mem|
    ensures |BytePos(i, 255, 8)| == 8 && (forall p :: p in BytePos(i, 255, 8) ==> off + p.i < |mem|)
    ensures Value(BitsAt(mem, off, BytePos(i, 255, 8))) == mem[off + i]
  {
    hide Bit, BytePos, Value, Pow2;
    OnesBytePos(i, 8);
    BytePosMembers(i, 255, 8);
    var bits := BitsAt(mem, off, BytePos(i, 255, 8));
    ValueOfBits(mem[off + i], 8, bits);
    ByteRange();
  }

  lemma ByteRange()
    ensures Pow2(8) == 256
  {
  }

  /** Under an all-ones mask the bits in filling order spell the field in its byte order. */
  lemma {:induction false} OnesRead(mem: seq<byte>, off: nat, size: nat, hton: bool, n: nat)
    requires off + size <= |mem| && n <= size
    ensures |PosUpTo(AllOnes(size), hton, n)| == 8 * n
    ensures Within(PosUpTo(AllOnes(size), hton, n), size)
    ensures Value(BitsAt(mem, off, PosUpTo(AllOnes(size), hton, n))) == LowBytes(mem[off..off + size], hton, n)
  {
    hide Value, BytePos, Pow2, BitsAt;
    PosUpToMembers(AllOnes(size), hton, n);
    if n == 0 {
      ValueOfNone(BitsAt(mem, off, PosUpTo(AllOnes(size), hton, n)));
    } else {
      OnesRead(mem, off, size, hton, n - 1);
      var ps := PosUpTo(AllOnes(size), hton, n - 1);
      var i := ByteAt(n - 1, size, hton);
      ByteBits(mem, off, i);
      var last := BytePos(i, 255, 8);
      assert PosUpTo(AllOnes(size), hton, n) == ps + last;
      BitsAtAppend(mem, off, ps, last);
    }
  }

  /** So reading under an all-ones mask is reading the field. */
  lemma OnesReadField(f: seq<byte>, hton: bool)
    ensures if hton then MaskRead(Reversed(f), Reversed(AllOnes(|f|))) == BigEndian(f)
            else MaskRead(f, AllOnes(|f|)) == LittleEndian(f)
  {
    hide Value, BitsAt, MaskRead, PosUpTo, LowBytes, BigEndian, LittleEndian, AllOnes;
    OnesInOrder(f, hton);
    LowBytesAll(f, hton);
  }

  lemma OnesInOrder(f: seq<byte>, hton: bool)
    ensures |AllOnes(|f|)| == |f|
    ensures MaskRead(InOrder(f, hton), InOrder(AllOnes(|f|), hton)) == LowBytes(f, hton, |f|)
  {
    hide Value, BitsAt, MaskRead, PosUpTo, LowBytes, InOrder;
    TakeAll(f);
    OnesRead(f, 0, |f|, hton, |f|);
    PositionsRead(f, 0, AllOnes(|f|), hton, |f|);
    TakeAll(InOrder(f, hton));
    TakeAll(InOrder(AllOnes(|f|), hton));
  }

  lemma {:induction false} LowBytesBound(f: seq<byte>, hton: bool, n: nat)
    requires n <= |f|
    ensures LowBytes(f, hton, n) < Pow2(8 * n)
  {
    hide Pow2;
    if n > 0 {
      LowBytesBound(f, hton, n - 1);
      PowBytes(n - 1);
      var b, p := f[ByteAt(n - 1, |f|, hton)], Pow2(8 * (n - 1));
      MulGap(p, b, 256);
    } else {
      PowMonotone(0, 0);
      PowPositive(0);
    }
  }

  lemma PowPositive(n: nat)
    ensures Pow2(n) > 0
  {
  }

  /** A field is determined by its value. */
  lemma {:induction false} ValueDetermines(f: seq<byte>, g: seq<byte>, hton: bool, n: nat, j: nat)
    requires |f| == |g| && n <= |f| && LowBytes(f, hton, n) == LowBytes(g, hton, n) && j < n
    ensures f[ByteAt(j, |f|, hton)] == g[ByteAt(j, |f|, hton)]
  {
    hide Pow2;
    var p := Pow2(8 * (n - 1));
    var a, b := f[ByteAt(n - 1, |f|, hton)], g[ByteAt(n - 1, |f|, hton)];
    LowBytesBound(f, hton, n - 1);
    LowBytesBound(g, hton, n - 1);
    DivModUnique(LowBytes(f, hton, n), p, a, LowBytes(f, hton, n - 1));
    DivModUnique(LowBytes(f, hton, n), p, b, LowBytes(g, hton, n - 1));
    if j < n - 1 {
      ValueDetermines(f, g, hton, n - 1, j);
    }
  }

  lemma SameField(f: seq<byte>, g: seq<byte>, hton: bool)
    requires |f| == |g| && FieldValue(f, hton) == FieldValue(g, hton)
    ensures f == g
  {
    hide LowBytes, FieldValue;
    LowBytesAll(f, hton);
    LowBytesAll(g, hton);
    forall i | 0 <= i < |f|
      ensures f[i] == g[i]
    {
      ValueDetermines(f, g, hton, |f|, ByteAt(i, |f|, hton));
    }
  }

  /** With an all-ones mask the two branches write the same bytes, exactly for fields of up to 8 bytes. */
  lemma BranchesAgree(mem: seq<byte>, off: nat, size: nat, hton: bool, u: nat)
    requires off + size <= |mem| && size < UINT32 - 1 && u <= 8 * size && 8 * size - u < 64
    ensures Within(Positions(AllOnes(size), hton), size) && |Positions(AllOnes(size), hton)| == 8 * size
    ensures (Fill(mem, off, Positions(AllOnes(size), hton), MaskedValue(u, 8 * size - u))
             == Put(mem, off, PlainField(size, u, hton))) <==> size <= 8
  {
    hide Pow2, Fill, Value, MaskedValue, PosUpTo, PlainField, LowBytes, FieldValue;
    var arg := Arg(off, size, hton, Some(AllOnes(size)));
    OnesRead(mem, off, size, hton, size);
    var ps := Positions(AllOnes(size), hton);
    assert arg.Bits() == ps;
    var filled := Fill(mem, off, ps, MaskedValue(u, 8 * size - u));
    var plain := PlainField(size, u, hton);
    MaskedPrefix(mem, off, arg, u);
    OnesRead(filled, off, size, hton, size);
    PlainPrefix(size, u, hton);
    var f := filled[off..off + size];
    LowBytesAll(f, hton);
    assert Put(mem, off, plain)[off..off + size] == plain;
    if size <= 8 {
      SameField(f, plain, hton);
      forall at | 0 <= at < |mem|
        ensures filled[at] == Put(mem, off, plain)[at]
      {
        if off <= at < off + size {
          assert filled[at] == f[at - off];
        } else {
          FillElsewhere(mem, off, ps, MaskedValue(u, 8 * size - u), at);
        }
      }
    }
  }

  // ---------- the parser ----------

  predicate Accepted(arg: Arg, u: nat, stored: bool)
    requires arg.Valid()
  {
    if arg.mask.Some? then u <= |arg.Bits()| && (stored ==> arg.Bits() != [])
    else PlainAccepted(u, arg.size)
  }

  /** The object with the prefix in its field. */
  function Stored(obj: seq<byte>, arg: Arg, u: nat): seq<byte>
    requires arg.Valid() && arg.offset + arg.size <= |obj|
    requires arg.mask.Some? ==> u <= |arg.Bits()|
  {
    if arg.mask.Some? then Fill(obj, arg.offset, arg.Bits(), MaskedValue(u, |arg.Bits()| - u))
    else Put(obj, arg.offset, PlainField(arg.size, u, arg.hton))
  }

  /** The object's mask with the field marked as given. */
  function Marked(objmask: seq<byte>, arg: Arg): seq<byte>
    requires arg.Valid() && arg.offset + arg.size <= |objmask|
  {
    if arg.mask.Some? then Fill(objmask, arg.offset, arg.Bits(), UINTMAX - 1)
    else Put(objmask, arg.offset, AllOnes(arg.size))
  }

  /** The field is `u` ones followed by zeros, in its byte order or, for a mask of up to 64 bits, in the
      order of its mask bits; nothing around it has changed. */
  ghost predicate PrefixStored(was: seq<byte>, now: seq<byte>, arg: Arg, u: nat)
    requires arg.Valid() && |now| == |was| && arg.offset + arg.size <= |was|
  {
    if arg.mask.Some? then
      var bits := MaskBits(InOrder(arg.mask.value, arg.hton));
      bits <= 64 && u <= bits ==>
        StoredUnder(was, now, arg.offset, arg.mask.value, arg.hton, PrefixValue(bits, u))
    else
      var f := now[arg.offset..arg.offset + arg.size];
      u < 8 * UINT32 ==>
        && u <= 8 * arg.size
        && (if arg.hton then BigEndian(f) else LittleEndian(f)) == Pow2(8 * arg.size) - Pow2(8 * arg.size - u)
        && KeptAround(was, now, arg)
  }

  /** The field is all ones, or for a mask of up to 64 bits all its mask bits are. */
  ghost predicate OnesStored(was: seq<byte>, now: seq<byte>, arg: Arg)
    requires arg.Valid() && |now| == |was| && arg.offset + arg.size <= |was|
  {
    if arg.mask.Some? then
      var bits := MaskBits(InOrder(arg.mask.value, arg.hton));
      bits <= 64 ==> StoredUnder(was, now, arg.offset, arg.mask.value, arg.hton, Pow2(bits) - 1)
    else
      && (forall i :: arg.offset <= i < arg.offset + arg.size ==> now[i] == 0xff)
      && KeptAround(was, now, arg)
  }

  predicate KeptAround(was: seq<byte>, now: seq<byte>, arg: Arg)
    requires |now| == |was| && arg.offset + arg.size <= |was|
  {
    now[..arg.offset] == was[..arg.offset] && now[arg.offset + arg.size..] == was[arg.offset + arg.size..]
  }

  /** Storing a number and storing what is left of it under the mask is the same. */
  lemma SameUnder(was: seq<byte>, now: seq<byte>, off: nat, mask: seq<byte>, hton: bool, v: nat, w: nat)
    requires |now| == |was| && off + |mask| <= |was| && StoredUnder(was, now, off, mask, hton, v)
    requires var bits := MaskBits(InOrder(mask, hton)); v % Pow2(bits) == w < Pow2(bits)
    ensures StoredUnder(was, now, off, mask, hton, w)
  {
    hide Pow2, MaskRead, MaskBits, Bit;
    DivModUnique(w, Pow2(MaskBits(InOrder(mask, hton))), 0, w);
  }

  lemma StoredMeans(was: seq<byte>, arg: Arg, u: nat)
    requires arg.Valid() && arg.offset + arg.size <= |was| && arg.size < UINT32 - 1 && Accepted(arg, u, true)
    requires arg.mask.Some? ==> |arg.Bits()| - u < 64
    ensures PrefixStored(was, Stored(was, arg, u), arg, u) && OnesStored(was, Marked(was, arg), arg)
  {
    hide Pow2, Fill, Positions, MaskBits, StoredUnder, MaskedValue, PrefixByte, PlainAccepted, BigEndian, LittleEndian;
    if arg.mask.Some? {
      var mask, bits := arg.mask.value, |arg.Bits()|;
      FillStores(was, arg.offset, mask, arg.hton, MaskedValue(u, bits - u));
      FillStores(was, arg.offset, mask, arg.hton, UINTMAX - 1);
      if bits <= 64 {
        MaskedReduced(bits, u);
        OnesReduced(bits);
        PowPositive(bits);
        PowPositive(bits - u);
        SameUnder(was, Stored(was, arg, u), arg.offset, mask, arg.hton, MaskedValue(u, bits - u), PrefixValue(bits, u));
        SameUnder(was, Marked(was, arg), arg.offset, mask, arg.hton, UINTMAX - 1, Pow2(bits) - 1);
      }
    } else {
      var f := PlainField(arg.size, u, arg.hton);
      PutInside(was, arg.offset, f);
      PutInside(was, arg.offset, AllOnes(arg.size));
      if u < 8 * UINT32 {
        PlainPrefix(arg.size, u, arg.hton);
      }
    }
  }

  /** In numbers: a length is accepted if it fits. */
  lemma AcceptedMeans(arg: Arg, u: nat, stored: bool)
    requires arg.Valid() && arg.size < UINT32 - 1
    ensures arg.mask.Some? ==>
      var bits := MaskBits(InOrder(arg.mask.value, arg.hton));
      Accepted(arg, u, stored) == (u <= bits && (stored ==> bits > 0))
    ensures arg.mask.None? && u < 8 * UINT32 ==> Accepted(arg, u, stored) == (u <= 8 * arg.size)
  {
    hide Pow2, PosUpTo, MaskBits, PlainAccepted;
    if arg.mask.Some? {
      Counted(arg.mask.value, arg.hton);
    } else if u < 8 * UINT32 {
      PlainPrefix(arg.size, u, arg.hton);
    }
  }

  /** The built word: a one is shifted in `u` times. */
  method Ones(u: nat) returns (v: nat)
    ensures v == (Pow2(u) - 1) % UINTMAX
  {
    v := 0;
    var left := u;
    while left > 0
      invariant 0 <= left <= u
      invariant v == (Pow2(u - left) - 1) % UINTMAX
    {
      ShiftInOne(Pow2(u - left) - 1);
      v := (2 * v) % UINTMAX + 1;
      left := left - 1;
    }
  }

  lemma ShiftInOne(x: nat)
    ensures (2 * (x % UINTMAX)) % UINTMAX + 1 == (2 * x + 1) % UINTMAX
  {
    var q, r := x / UINTMAX, x % UINTMAX;
    if 2 * r < UINTMAX {
      DivModUnique(2 * x + 1, UINTMAX, 2 * q, 2 * r + 1);
    } else {
      DivModUnique(2 * x + 1, UINTMAX, 2 * q + 1, 2 * r + 1 - UINTMAX);
    }
  }

  /** The part of the parser's context a prefix touches: the argument stack and the objects under
      construction. */
  class Context {
    var args: seq<Arg>
    var obj: array?<byte>
    var objmask: array?<byte>

    /** The top argument fits the objects, and the widths in which the parser counts suffice. */
    ghost predicate Ready()
      reads this
    {
      && (obj != null ==> obj != objmask)
      && (args != [] ==>
        var arg := args[|args| - 1];
        && arg.Valid() && arg.size < UINT32 - 1 && |arg.Bits()| < UINT32
        && (obj != null ==> arg.offset + arg.size <= obj.Length)
        && (objmask != null ==> arg.offset + arg.size <= objmask.Length))
    }

    /** `number` is the prefix length, if the word is a number; `len` is the length of the word. */
    method ParsePrefix(number: Option<nat>, len: nat) returns (ret: int)
      requires Ready()
      requires number.Some? && args != [] && args[|args| - 1].mask.Some? && obj != null ==>
        |args[|args| - 1].Bits()| - number.value < 64
      modifies `args, obj, objmask
      ensures old(args) == [] ==> ret == -1 && args == []
      ensures old(args) != [] ==>
        var arg := old(args[|args| - 1]);
        && (ret == len || ret == -1)
        && (ret == len <==> number.Some? && Accepted(arg, number.value, obj != null))
        && args == (if ret == len then old(args[..|args| - 1]) else old(args))
        && (obj != null ==>
          obj[..] == if ret == len then Stored(old(obj[..]), arg, number.value) else old(obj[..]))
        && (objmask != null ==>
          objmask[..] == if ret == len && obj != null then Marked(old(objmask[..]), arg) else old(objmask[..]))
        && (ret == len && obj != null ==>
          && PrefixStored(old(obj[..]), obj[..], arg, number.value)
          && (objmask != null ==> OnesStored(old(objmask[..]), objmask[..], arg)))
        && (number.Some? && arg.mask.Some? ==>
          var bits := MaskBits(InOrder(arg.mask.value, arg.hton));
          ret == len <==> number.value <= bits && (obj != null ==> bits > 0))
        && (number.Some? && arg.mask.None? && number.value < 8 * UINT32 ==>
          (ret == len <==> number.value <= 8 * arg.size))
    {
      ret := TakePrefix(number, len);
      if old(args) != [] && number.Some? {
        ghost var arg := old(args[|args| - 1]);
        hide Stored, Marked, Accepted, PrefixStored, OnesStored, MaskBits, Arg.Bits;
        AcceptedMeans(arg, number.value, obj != null);
        if ret == len && obj != null {
          StoredMeans(old(obj[..]), arg, number.value);
          if objmask != null {
            StoredMeans(old(objmask[..]), arg, number.value);
          }
        }
      }
    }

    /** The same in terms of the bytes written. */
    method TakePrefix(number: Option<nat>, len: nat) returns (ret: int)
      requires Ready()
      requires number.Some? && args != [] && args[|args| - 1].mask.Some? && obj != null ==>
        |args[|args| - 1].Bits()| - number.value < 64
      modifies `args, obj, objmask
      ensures old(args) == [] ==> ret == -1 && args == []
      ensures old(args) != [] ==>
        var arg := old(args[|args| - 1]);
        && (ret == len || ret == -1)
        && (ret == len <==> number.Some? && Accepted(arg, number.value, obj != null))
        && args == (if ret == len then old(args[..|args| - 1]) else old(args))
        && (obj != null ==>
          obj[..] == if ret == len then Stored(old(obj[..]), arg, number.value) else old(obj[..]))
        && (objmask != null ==>
          objmask[..] == if ret == len && obj != null then Marked(old(objmask[..]), arg) else old(objmask[..]))
    {
      hide Pow2, Fill, Arg.Bits, PrefixByte;
      if args == [] {
        return -1;
      }
      var arg := args[|args| - 1];
      args := args[..|args| - 1];
      if number.None? {
        args := args + [arg];
        return -1;
      }
      var u := number.value;
      if arg.mask.Some? {
        var extra := ArgEntryBfFill(null, 0, arg);
        if u > extra {
          args := args + [arg];
          return -1;
        }
        if obj == null {
          return len;
        }
        var ok := StoreMasked(obj, objmask, arg, u, extra);
        if !ok {
          args := args + [arg];
          return -1;
        }
        return len;
      }
      var bytes, extra := WholeBytes(u), u % 8;
      if bytes > arg.size || (bytes + if extra != 0 then 1 else 0) % UINT32 > arg.size {
        args := args + [arg];
        return -1;
      }
      if obj == null {
        return len;
      }
      WritePlain(obj, arg.offset, arg.size, arg.hton, u);
      if objmask != null {
        ghost var was := objmask[..];
        Memset(objmask, arg.offset, 0xff, arg.size);
        assert objmask[..] == Put(was, arg.offset, AllOnes(arg.size));
      }
      return len;
    }
  }

  lemma FillNone(mem: seq<byte>, off: nat, val: nat)
    ensures Fill(mem, off, [], val) == mem
  {
  }

  /** Fills the prefix into the object's field and ones into its mask, if it has one; fails when the
      mask selects no bit. */
  method StoreMasked(obj: array<byte>, objmask: array?<byte>, arg: Arg, u: nat, bits: nat) returns (ok: bool)
    requires arg.Valid() && arg.mask.Some? && bits == |arg.Bits()| && u <= bits && bits - u < 64
    requires arg.offset + arg.size <= obj.Length && obj != objmask
    requires objmask != null ==> arg.offset + arg.size <= objmask.Length
    modifies obj, objmask
    ensures ok <==> arg.Bits() != []
    ensures obj[..] == if ok then Stored(old(obj[..]), arg, u) else old(obj[..])
    ensures objmask != null ==> objmask[..] == if ok then Marked(old(objmask[..]), arg) else old(objmask[..])
  {
    hide Pow2, Fill, Arg.Bits;
    var extra := bits - u;
    var v := Ones(u);
    v := (v * Pow2(extra)) % UINTMAX;
    var filled := ArgEntryBfFill(obj, v, arg);
    if filled == 0 {
      FillNone(old(obj[..]), arg.offset, v);
      return false;
    }
    filled := ArgEntryBfFill(objmask, UINTMAX - 1, arg);
    return filled != 0;
  }

  /** Whole bytes of ones, the partial byte, zeros; from the front, or from the back in a little-endian
      field. */
  method WritePlain(buf: array<byte>, at: nat, size: nat, hton: bool, u: nat)
    requires at + size <= buf.Length && size < UINT32 - 1 && PlainAccepted(u, size)
    modifies buf
    ensures buf[..] == Put(old(buf[..]), at, PlainField(size, u, hton))
  {
    var bytes, extra := WholeBytes(u), u % 8;
    if !hton {
      Memset(buf, at + size - bytes, 0xff, bytes);
      Memset(buf, at, 0, size - bytes);
      if extra != 0 {
        buf[at + size - bytes - 1] := CONV[extra];
      }
    } else {
      Memset(buf, at, 0xff, bytes);
      Memset(buf, at + bytes, 0, size - bytes);
      if extra != 0 {
        buf[at + bytes] := CONV[extra];
      }
    }
    assert buf[..] == Put(old(buf[..]), at, PlainField(size, u, hton));
  }
}
