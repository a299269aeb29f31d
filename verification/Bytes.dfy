/** Bytes, the C string view of a byte sequence, 32-bit integers in both byte
    orders, and the unsigned dictionary order of byte strings. */
module Bytes {

  type byte = b: int | 0 <= b < 256

  type bytes = seq<byte>

  const TWO32: nat := 0x1_0000_0000

  /** `k[p]` as a C string sees it: the byte after the last one is NUL. */
  function At(k: bytes, p: nat): (c: byte) {
    if p < |k| then k[p] else 0
  }

  ghost predicate NulFree(k: bytes) {
    forall i :: 0 <= i < |k| ==> k[i] != 0
  }

  /** The bytes of `s` stand in `t` from position `i` on. */
  ghost predicate HoldsAt(t: bytes, i: nat, s: bytes) {
    i + |s| <= |t| && t[i..i + |s|] == s
  }

  lemma HoldsAtSplit(t: bytes, i: nat, a: bytes, b: bytes)
    ensures HoldsAt(t, i, a + b) <==> HoldsAt(t, i, a) && HoldsAt(t, i + |a|, b)
  {
    if i + |a| + |b| <= |t| {
      assert t[i..i + |a| + |b|] == t[i..i + |a|] + t[i + |a|..i + |a| + |b|];
      assert t[i..i + |a|] == t[i..i + |a| + |b|][..|a|];
      assert t[i + |a|..i + |a| + |b|] == t[i..i + |a| + |b|][|a|..];
      assert (a + b)[..|a|] == a && (a + b)[|a|..] == b;
    }
  }

  lemma HoldsAtExtends(t: bytes, t': bytes, i: nat, s: bytes)
    requires HoldsAt(t, i, s) && t <= t'
    ensures HoldsAt(t', i, s)
  {
    assert t'[i..i + |s|] == t[i..i + |s|];
  }

  lemma SliceOfSlice(t: bytes, lo: nat, hi: nat, i: nat, j: nat)
    requires lo <= hi <= |t| && i <= j <= hi - lo
    ensures t[lo..hi][i..j] == t[lo + i..lo + j]
  {
    forall k | 0 <= k < j - i ensures t[lo..hi][i..j][k] == t[lo + i..lo + j][k] {
      assert t[lo..hi][i + k] == t[lo + i + k];
    }
  }

  lemma SliceOfRest(t: bytes, p: nat, n: nat)
    requires p + n <= |t|
    ensures t[p..][..n] == t[p..p + n] && t[p..][n..] == t[p + n..]
  {
    forall k | 0 <= k < |t| - p - n ensures t[p..][n..][k] == t[p + n..][k] {
      assert t[p..][n + k] == t[p + n + k];
    }
  }

  lemma SliceOfFront(t: bytes, more: bytes, i: nat, j: nat)
    requires i <= j <= |t|
    ensures (t + more)[i..j] == t[i..j]
  {
  }

  // ----- 32-bit integers

  /** The four bytes of `n` as a little-endian machine stores them. */
  function LE32(n: nat): (r: bytes)
    requires n < TWO32
    ensures |r| == 4
  {
    [n % 256, n / 256 % 256, n / 65536 % 256, n / 16777216]
  }

  function FromLE32(b: bytes): (n: nat)
    requires |b| == 4
    ensures n < TWO32
  {
    b[0] as int + 256 * (b[1] as int) + 65536 * (b[2] as int) + 16777216 * (b[3] as int)
  }

  /** The four bytes of `n` in network order. */
  function BE32(n: nat): (r: bytes)
    requires n < TWO32
    ensures |r| == 4
  {
    [n / 16777216, n / 65536 % 256, n / 256 % 256, n % 256]
  }

  function FromBE32(b: bytes): (n: nat)
    requires |b| == 4
    ensures n < TWO32
  {
    b[3] as int + 256 * (b[2] as int) + 65536 * (b[1] as int) + 16777216 * (b[0] as int)
  }

  lemma RoundTrip32(n: nat)
    requires n < TWO32
    ensures FromLE32(LE32(n)) == n
    ensures FromBE32(BE32(n)) == n
  {
    var q := n / 256;
    assert n / 65536 == q / 256;
    assert n / 16777216 == q / 256 / 256;
  }

  /** The digits of a number to base 256, the lowest in front, are unique. */
  lemma LittleEndian(n: nat, d: bytes)
    requires |d| == 4 && n == d[0] as int + 256 * d[1] as int + 65536 * d[2] as int + 16777216 * d[3] as int
    ensures n < TWO32 && LE32(n) == d && FromLE32(d) == n
  {
    var q := n / 256;
    assert n == 256 * (d[1] as int + 256 * d[2] as int + 65536 * d[3] as int) + d[0] as int;
    assert q == d[1] as int + 256 * (d[2] as int + 256 * d[3] as int);
    assert n / 65536 == q / 256 && n / 16777216 == q / 256 / 256;
  }

  lemma LittleEndianOf(n: nat)
    requires n < TWO32
    ensures var d := LE32(n); n == d[0] as int + 256 * d[1] as int + 65536 * d[2] as int + 16777216 * d[3] as int
  {
    hide LE32;
    RoundTrip32(n);
  }

  /** ... and so are those with the highest in front. */
  lemma BigEndian(n: nat, d: bytes)
    requires |d| == 4 && n == ((d[0] as int * 256 + d[1] as int) * 256 + d[2] as int) * 256 + d[3] as int
    ensures n < TWO32 && BE32(n) == d && FromBE32(d) == n
  {
    LittleEndian(n, [d[3], d[2], d[1], d[0]]);
  }

  lemma BigEndianOf(n: nat)
    requires n < TWO32
    ensures var d := BE32(n); n == ((d[0] as int * 256 + d[1] as int) * 256 + d[2] as int) * 256 + d[3] as int
  {
    hide BE32;
    RoundTrip32(n);
  }

  // ----- dictionary order

  /** `a` precedes `b`, given that they agree before position `p`. */
  predicate LexLessFrom(a: bytes, b: bytes, p: nat)
    requires p <= |a| && p <= |b|
    decreases |a| - p
  {
    if p == |b| then false
    else if p == |a| then true
    else if a[p] != b[p] then a[p] < b[p]
    else LexLessFrom(a, b, p + 1)
  }

  /** Dictionary order on unsigned bytes; a proper prefix comes first. */
  predicate LexLess(a: bytes, b: bytes) {
    LexLessFrom(a, b, 0)
  }

  lemma {:induction false} LexLessSkip(a: bytes, b: bytes, p: nat)
    requires p <= |a| && p <= |b| && a[..p] == b[..p]
    ensures LexLess(a, b) == LexLessFrom(a, b, p)
    decreases p
  {
    if p == 0 {
    } else {
      assert a[..p - 1] == a[..p][..p - 1] && b[..p - 1] == b[..p][..p - 1];
      assert a[p - 1] == a[..p][p - 1] && b[p - 1] == b[..p][p - 1];
      LexLessSkip(a, b, p - 1);
    }
  }

  lemma LexLessIrreflexive(a: bytes)
    ensures !LexLess(a, a)
  {
    LexLessSkip(a, a, |a|);
  }

  lemma {:induction false} LexLessFromTrichotomy(a: bytes, b: bytes, p: nat)
    requires p <= |a| && p <= |b| && a[..p] == b[..p]
    ensures LexLessFrom(a, b, p) <==> a != b && !LexLessFrom(b, a, p)
    decreases |a| - p
  {
    if p < |a| && p < |b| && a[p] == b[p] {
      assert a[..p + 1] == a[..p] + [a[p]] && b[..p + 1] == b[..p] + [b[p]];
      LexLessFromTrichotomy(a, b, p + 1);
    } else if p == |a| == |b| {
      assert a == a[..p] && b == b[..p];
    }
  }

  lemma {:induction false} LexLessFromTransitive(a: bytes, b: bytes, c: bytes, p: nat)
    requires p <= |a| && p <= |b| && p <= |c| && LexLessFrom(a, b, p) && LexLessFrom(b, c, p)
    ensures LexLessFrom(a, c, p)
    decreases |a| - p
  {
    if p == |a| || p == |c| || !(a[p] == b[p] == c[p]) {
    } else {
      LexLessFromTransitive(a, b, c, p + 1);
    }
  }

  lemma LexLessTransitive(a: bytes, b: bytes, c: bytes)
    requires LexLess(a, b) && LexLess(b, c)
    ensures LexLess(a, c)
  {
    LexLessFromTransitive(a, b, c, 0);
  }

  /** Of two different strings exactly one precedes the other. */
  lemma LexLessTrichotomy(a: bytes, b: bytes)
    ensures LexLess(a, b) <==> a != b && !LexLess(b, a)
  {
    LexLessFromTrichotomy(a, b, 0);
  }

  /** With a common prefix of length `p`, the bytes at `p` decide when they differ. */
  lemma LexLessByByte(a: bytes, b: bytes, p: nat)
    requires NulFree(a) && NulFree(b)
    requires p <= |a| && p <= |b| && a[..p] == b[..p]
    requires At(a, p) != At(b, p)
    ensures LexLess(a, b) <==> At(a, p) < At(b, p)
  {
    LexLessSkip(a, b, p);
  }
}
