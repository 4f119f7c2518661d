/** In-place edits of packet bytes, and what they do to word sums. */
module Frames {
  import opened Common
  import opened Checksum

  /** The exchange is seen only by ranges that overlap it. */
  lemma SwapAdjOutside(f: seq<byte>, a: nat, n: nat, lo: nat, hi: nat)
    requires a + 2 * n <= |f| && lo <= hi <= |f|
    requires hi <= a || a + 2 * n <= lo
    ensures SwapAdj(f, a, n)[lo..hi] == f[lo..hi]
  {
    forall i | lo <= i < hi
      ensures SwapAdj(f, a, n)[i] == f[i]
    {
      SwapAdjAt(f, a, n, i);
    }
  }

  lemma Trim(a: seq<byte>, b: seq<byte>, c: seq<byte>, lo: nat, k: nat)
    requires lo <= |a| && k <= |c|
    ensures (a + b + c)[lo..|a| + |b| + k] == a[lo..] + b + c[..k]
  {
  }

  lemma SwapPieces(f: seq<byte>, a: nat, n: nat, lo: nat, hi: nat)
    requires lo <= a && a + 2 * n <= hi <= |f|
    ensures var p, x, y, s := f[lo..a], f[a..a + n], f[a + n..a + 2 * n], f[a + 2 * n..hi];
      f[lo..hi] == p + (x + (y + s)) && SwapAdj(f, a, n)[lo..hi] == p + (y + (x + s))
  {
    var x, y, s := f[a..a + n], f[a + n..a + 2 * n], f[a + 2 * n..hi];
    var c := f[a + 2 * n..];
    var k := hi - (a + 2 * n);
    assert f == f[..a] + (x + y) + c;
    assert SwapAdj(f, a, n) == f[..a] + (y + x) + c;
    assert f[..a][lo..] == f[lo..a] && c[..k] == s;
    assert |f[..a]| + |x + y| + k == hi && |f[..a]| + |y + x| + k == hi;
    Trim(f[..a], x + y, c, lo, k);
    Trim(f[..a], y + x, c, lo, k);
    assert f[lo..hi] == f[lo..a] + (x + y) + s;
    assert SwapAdj(f, a, n)[lo..hi] == f[lo..a] + (y + x) + s;
    Regroup(f[lo..a], x, y, s);
    Regroup(f[lo..a], y, x, s);
  }

  lemma Regroup(p: seq<byte>, x: seq<byte>, y: seq<byte>, s: seq<byte>)
    ensures p + (x + y) + s == p + (x + (y + s))
  {
  }

  lemma WordSumFour(p: seq<byte>, x: seq<byte>, y: seq<byte>, s: seq<byte>, little: bool)
    requires |p| % 2 == 0 && |x| % 2 == 0 && |y| % 2 == 0
    ensures WordSum(p + (x + (y + s)), little)
         == WordSum(p, little) + WordSum(x, little) + WordSum(y, little) + WordSum(s, little)
  {
    hide WordSum;
    WordSumAppend(p, x + (y + s), little);
    WordSumAppend(x, y + s, little);
    WordSumAppend(y, s, little);
  }

  /** Exchanging two blocks of whole words within a range keeps the word sum of the range. */
  lemma SwapKeepsSum(f: seq<byte>, a: nat, n: nat, lo: nat, hi: nat, little: bool)
    requires lo <= a && a + 2 * n <= hi <= |f| && n % 2 == 0 && (a - lo) % 2 == 0
    ensures WordSum(SwapAdj(f, a, n)[lo..hi], little) == WordSum(f[lo..hi], little)
  {
    hide WordSum, SwapAdj;
    var p, x, y, s := f[lo..a], f[a..a + n], f[a + n..a + 2 * n], f[a + 2 * n..hi];
    SwapPieces(f, a, n, lo, hi);
    WordSumFour(p, x, y, s, little);
    WordSumFour(p, y, x, s, little);
  }

  // ---------- on arrays ----------

  /** Exchange through a temporary, as the memcpy sequences do. */
  method SwapBytes(f: array<byte>, a: nat, n: nat)
    requires a + 2 * n <= f.Length
    modifies f
    ensures f[..] == SwapAdj(old(f[..]), a, n)
  {
    ghost var was := f[..];
    var tmp, other := f[a..a + n], f[a + n..a + 2 * n];
    PutBytes(f, a, other);
    PutBytes(f, a + n, tmp);
    assert f[..] == SwapAdj(was, a, n);
  }
}
