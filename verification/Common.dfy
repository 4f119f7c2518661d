/** Byte and sequence vocabulary shared by the component models. */
module Common {

  type byte = x: int | 0 <= x < 256

  datatype Option<+T> = None | Some(value: T)

  function Min(a: nat, b: nat): nat {
    if a <= b then a else b
  }

  lemma TakeSnoc<T>(s: seq<T>, k: nat)
    requires k < |s|
    ensures s[..k + 1] == s[..k] + [s[k]]
  {
  }

  lemma TakeAll<T>(s: seq<T>)
    ensures s[..0] == [] && s[..|s|] == s
  {
  }

  function Reversed<T>(s: seq<T>): (r: seq<T>)
    ensures |r| == |s| && forall i :: 0 <= i < |s| ==> r[i] == s[|s| - 1 - i]
  {
    seq(|s|, i requires 0 <= i < |s| => s[|s| - 1 - i])
  }

  lemma MulGap(d: nat, a: int, b: int)
    requires a < b
    ensures d * a + d <= d * b
  {
    assert d * (b - a) >= d by {
      assert d * (b - a - 1) >= 0;
    }
  }

  /** Quotient and remainder are determined by the division equation. */
  lemma DivModUnique(n: int, d: nat, q: int, r: int)
    requires d > 0 && n == d * q + r && 0 <= r < d
    ensures n / d == q && n % d == r
  {
    var q', r' := n / d, n % d;
    assert n == d * q' + r';
    if q < q' {
      MulGap(d, q, q');
    } else if q > q' {
      MulGap(d, q', q);
    }
  }

  lemma DivStep(k: nat, d: nat)
    requires d > 0
    ensures (k + 1) / d == (if k % d == d - 1 then k / d + 1 else k / d)
    ensures (k + 1) % d == if k % d == d - 1 then 0 else k % d + 1
  {
    if k % d == d - 1 {
      assert d * (k / d + 1) == d * (k / d) + d;
      DivModUnique(k + 1, d, k / d + 1, 0);
    } else {
      DivModUnique(k + 1, d, k / d, k % d + 1);
    }
  }

  function Sum(s: seq<nat>): nat {
    if s == [] then 0 else s[0] + Sum(s[1..])
  }

  lemma SumAppend(a: seq<nat>, b: seq<nat>)
    ensures Sum(a + b) == Sum(a) + Sum(b)
  {
    if a == [] {
      assert a + b == b;
    } else {
      assert (a + b)[1..] == a[1..] + b;
    }
  }

  lemma SumSnoc(s: seq<nat>, k: nat)
    requires k < |s|
    ensures Sum(s[..k + 1]) == Sum(s[..k]) + s[k]
  {
    assert s[..k + 1] == s[..k] + [s[k]];
    SumAppend(s[..k], [s[k]]);
  }

  lemma {:induction false} SumRaised(s: seq<nat>, i: nat, k: nat)
    requires i < |s|
    ensures Sum(s[i := s[i] + k]) == Sum(s) + k
  {
    if i > 0 {
      SumRaised(s[1..], i - 1, k);
      assert s[i := s[i] + k][1..] == s[1..][i - 1 := s[i] + k];
    } else {
      assert s[0 := s[0] + k][1..] == s[1..];
    }
  }

  /** The concatenation of a sequence of pieces, in order. */
  function Flatten<T>(pieces: seq<seq<T>>): seq<T> {
    if pieces == [] then [] else pieces[0] + Flatten(pieces[1..])
  }

  lemma FlattenAppend<T>(a: seq<seq<T>>, b: seq<seq<T>>)
    ensures Flatten(a + b) == Flatten(a) + Flatten(b)
  {
    if a == [] {
      assert a + b == b;
    } else {
      assert (a + b)[1..] == a[1..] + b;
    }
  }

  lemma FlattenAdd<T>(pieces: seq<seq<T>>, x: seq<T>)
    ensures Flatten(pieces + [x]) == Flatten(pieces) + x
  {
    FlattenAppend(pieces, [x]);
    assert Flatten([x]) == x;
  }

  lemma FlattenSnoc<T>(pieces: seq<seq<T>>, k: nat)
    requires k < |pieces|
    ensures Flatten(pieces[..k + 1]) == Flatten(pieces[..k]) + pieces[k]
  {
    assert pieces[..k + 1] == pieces[..k] + [pieces[k]];
    FlattenAdd(pieces[..k], pieces[k]);
  }

  /** Piece `k` sits in the concatenation right after the pieces before it. */
  lemma FlattenSplit<T>(pieces: seq<seq<T>>, k: nat)
    requires k < |pieces|
    ensures Flatten(pieces) == Flatten(pieces[..k]) + pieces[k] + Flatten(pieces[k + 1..])
  {
    assert pieces == pieces[..k + 1] + pieces[k + 1..];
    FlattenAppend(pieces[..k + 1], pieces[k + 1..]);
    FlattenSnoc(pieces, k);
  }

  function Zeros(n: nat): (z: seq<byte>)
    ensures |z| == n && forall i :: 0 <= i < n ==> z[i] == 0
  {
    seq(n, i requires 0 <= i < n => 0)
  }

  ghost predicate Distinct<T>(s: seq<T>) {
    forall i, j :: 0 <= i < j < |s| ==> s[i] != s[j]
  }

  lemma FlattenLength<T>(v: seq<seq<T>>, lens: seq<nat>)
    requires |v| == |lens| && forall i :: 0 <= i < |v| ==> |v[i]| == lens[i]
    ensures |Flatten(v)| == Sum(lens)
  {
    if v != [] {
      FlattenLength(v[1..], lens[1..]);
    }
  }

  /** `f` with the bytes from `at` on replaced by `x`. */
  function Put(f: seq<byte>, at: nat, x: seq<byte>): (r: seq<byte>)
    requires at + |x| <= |f|
    ensures |r| == |f|
  {
    f[..at] + x + f[at + |x|..]
  }

  lemma PutAt(f: seq<byte>, at: nat, x: seq<byte>, i: nat)
    requires at + |x| <= |f| && i < |f|
    ensures Put(f, at, x)[i] == if at <= i < at + |x| then x[i - at] else f[i]
  {
  }

  lemma PutInside(f: seq<byte>, at: nat, x: seq<byte>)
    requires at + |x| <= |f|
    ensures Put(f, at, x)[at..at + |x|] == x
  {
  }

  lemma PutOutside(f: seq<byte>, at: nat, x: seq<byte>, lo: nat, hi: nat)
    requires at + |x| <= |f| && lo <= hi <= |f| && (hi <= at || at + |x| <= lo)
    ensures Put(f, at, x)[lo..hi] == f[lo..hi]
  {
    forall i | lo <= i < hi
      ensures Put(f, at, x)[i] == f[i]
    {
      PutAt(f, at, x, i);
    }
  }

  lemma PutWithin(f: seq<byte>, at: nat, x: seq<byte>, lo: nat, hi: nat)
    requires lo <= at && at + |x| <= hi <= |f|
    ensures Put(f, at, x)[lo..hi] == Put(f[lo..hi], at - lo, x)
  {
    hide Put;
    var l, r := Put(f, at, x)[lo..hi], Put(f[lo..hi], at - lo, x);
    forall i | 0 <= i < |r|
      ensures l[i] == r[i]
    {
      PutAt(f, at, x, lo + i);
      PutAt(f[lo..hi], at - lo, x, i);
    }
  }

  /** `f` with the `n` bytes from `a` on and the `n` bytes after them exchanged. */
  function SwapAdj(f: seq<byte>, a: nat, n: nat): (r: seq<byte>)
    requires a + 2 * n <= |f|
    ensures |r| == |f|
  {
    f[..a] + f[a + n..a + 2 * n] + f[a..a + n] + f[a + 2 * n..]
  }

  lemma SwapAdjAt(f: seq<byte>, a: nat, n: nat, i: nat)
    requires a + 2 * n <= |f| && i < |f|
    ensures SwapAdj(f, a, n)[i] == f[if a <= i < a + n then i + n else if a + n <= i < a + 2 * n then i - n else i]
  {
  }

  lemma SwapAdjTwice(f: seq<byte>, a: nat, n: nat)
    requires a + 2 * n <= |f|
    ensures SwapAdj(SwapAdj(f, a, n), a, n) == f
  {
  }

  /** memcpy: `len` bytes from `src` at `s` to `dst` at `d`. */
  method Memcpy(dst: array<byte>, d: nat, src: array<byte>, s: nat, len: nat)
    requires d + len <= dst.Length && s + len <= src.Length
    modifies dst
    ensures dst[..] == old(dst[..d] + src[s..s + len] + dst[d + len..])
  {
    forall k | 0 <= k < len {
      dst[d + k] := src[s + k];
    }
  }

  /** memset: `len` bytes of `dst` from `at` on become `b`. */
  method Memset(dst: array<byte>, at: nat, b: byte, len: nat)
    requires at + len <= dst.Length
    modifies dst
    ensures forall i :: 0 <= i < dst.Length ==> dst[i] == if at <= i < at + len then b else old(dst[i])
  {
    forall k | 0 <= k < len {
      dst[at + k] := b;
    }
  }

  method PutBytes(f: array<byte>, at: nat, x: seq<byte>)
    requires at + |x| <= f.Length
    modifies f
    ensures f[..] == Put(old(f[..]), at, x)
  {
    forall k | 0 <= k < |x| {
      f[at + k] := x[k];
    }
  }
}
