/** Sizes of the read buffer: 2048 doubled some number of times. */
module Buffers {
  const DATA_BUFFER_SIZE: nat := 2048
  const READ_BUFFER_HIGHWAT: nat := 8192

  /** The largest exponent: 2048 doubled 19 times is 2^30, and once more would not be an `int`. */
  const TOP: nat := 19

  function SizeOf(k: nat): (n: nat)
    ensures n >= 2048
  {
    if k == 0 then 2048 else 2 * SizeOf(k - 1)
  }

  /** `n` doubled `k` times. */
  ghost function Doublings(n: nat, k: nat): nat {
    if k == 0 then n else 2 * Doublings(n, k - 1)
  }

  lemma FewDoublings(n: nat, k: nat)
    requires k <= 4
    ensures Doublings(n, k) <= 16 * n
  {
    assert Doublings(n, 1) == 2 * n && Doublings(n, 2) == 4 * n;
    assert Doublings(n, 3) == 8 * n && Doublings(n, 4) == 16 * n;
  }

  /** 2048 doubled at most `m` times. */
  ghost predicate Doubled(n: nat, m: nat) {
    exists k :: 0 <= k <= m && SizeOf(k) == n
  }

  lemma {:induction false} SizeOfMonotone(j: nat, k: nat)
    requires j <= k
    ensures SizeOf(j) <= SizeOf(k)
    ensures j < k ==> 2 * SizeOf(j) <= SizeOf(k)
    decreases k
  {
    if j == k {
    } else {
      SizeOfMonotone(j, k - 1);
    }
  }

  lemma NextSize(k: nat)
    ensures SizeOf(k + 1) == 2 * SizeOf(k)
  {
  }

  lemma SizeOfTop()
    ensures SizeOf(2) == READ_BUFFER_HIGHWAT && SizeOf(TOP) == 0x4000_0000
  {
    assert SizeOf(2) == 2 * SizeOf(1) == 4 * SizeOf(0);
    assert SizeOf(4) == 2 * SizeOf(3) == 4 * SizeOf(2);
    assert SizeOf(6) == 2 * SizeOf(5) == 4 * SizeOf(4);
    assert SizeOf(8) == 2 * SizeOf(7) == 4 * SizeOf(6);
    assert SizeOf(10) == 2 * SizeOf(9) == 4 * SizeOf(8);
    assert SizeOf(12) == 2 * SizeOf(11) == 4 * SizeOf(10);
    assert SizeOf(14) == 2 * SizeOf(13) == 4 * SizeOf(12);
    assert SizeOf(16) == 2 * SizeOf(15) == 4 * SizeOf(14);
    assert SizeOf(18) == 2 * SizeOf(17) == 4 * SizeOf(16);
    assert SizeOf(19) == 2 * SizeOf(18);
  }

  lemma DoubleOnce(n: nat, m: nat)
    requires Doubled(n, m)
    ensures Doubled(2 * n, m + 1)
  {
    var k :| 0 <= k <= m && SizeOf(k) == n;
    assert SizeOf(k + 1) == 2 * n;
  }

  lemma DoubledMore(n: nat, m: nat, m2: nat)
    requires Doubled(n, m) && m <= m2
    ensures Doubled(n, m2) && 2048 <= n <= SizeOf(m2)
  {
    var k :| 0 <= k <= m && SizeOf(k) == n;
    SizeOfMonotone(k, m2);
  }

  /** A size that is not above the high-water mark. */
  lemma DoubledSmall(n: nat, m: nat)
    requires Doubled(n, m) && n <= READ_BUFFER_HIGHWAT
    ensures Doubled(n, 2)
  {
    SizeOfTop();
    var k :| 0 <= k <= m && SizeOf(k) == n;
    if k > 2 {
      SizeOfMonotone(2, k);
    }
  }

  lemma InitialSize(n: nat)
    requires n == DATA_BUFFER_SIZE
    ensures Doubled(n, 2) && Doubled(n, TOP)
  {
    assert SizeOf(0) == n;
  }
}
