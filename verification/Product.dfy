/** The Cartesian product that expands a text into all its readings. */
module Product {
  import opened Bytes

  /** How many ways there are to take one reading from each list. */
  function Count(lists: seq<seq<bytes>>): nat {
    if lists == [] then 1 else Count(lists[..|lists| - 1]) * |lists[|lists| - 1]|
  }

  /** A choice: an index into each list. */
  ghost predicate Choice(lists: seq<seq<bytes>>, d: seq<nat>) {
    |d| == |lists| && forall i :: 0 <= i < |d| ==> d[i] < |lists[i]|
  }

  /** The chosen readings, one after the other. */
  ghost function Pick(lists: seq<seq<bytes>>, d: seq<nat>): bytes
    requires Choice(lists, d)
  {
    if lists == [] then []
    else
      var n := |lists| - 1;
      assert Choice(lists[..n], d[..n]);
      Pick(lists[..n], d[..n]) + lists[n][d[n]]
  }

  /** The number whose digits are `d` in the mixed radix of the list sizes, the first
      list least significant. */
  ghost function Number(lists: seq<seq<bytes>>, d: seq<nat>): nat
    requires Choice(lists, d)
  {
    if lists == [] then 0
    else
      var n := |lists| - 1;
      assert Choice(lists[..n], d[..n]);
      Number(lists[..n], d[..n]) + Count(lists[..n]) * d[n]
  }

  lemma ChoiceMore(lists: seq<seq<bytes>>, d: seq<nat>, x: nat)
    requires lists != [] && Choice(lists[..|lists| - 1], d) && x < |lists[|lists| - 1]|
    ensures Choice(lists, d + [x])
  {
    forall i | 0 <= i < |d| ensures d[i] < |lists[i]| {
      assert lists[..|lists| - 1][i] == lists[i];
    }
  }

  /** The digits of `k`. */
  ghost function Digits(lists: seq<seq<bytes>>, k: nat): (d: seq<nat>)
    requires k < Count(lists)
    ensures Choice(lists, d)
  {
    if lists == [] then []
    else
      var n := |lists| - 1;
      var c := Count(lists[..n]);
      hide *; DivModBound(k, c, |lists[n]|);
      var front := Digits(lists[..n], k % c);
      ChoiceMore(lists, front, k / c);
      front + [k / c]
  }

  // ----- division

  lemma MulMonotone(c: nat, a: nat, b: nat)
    requires a <= b
    ensures c * a <= c * b
  {
  }

  lemma DivModBound(k: nat, c: nat, m: nat)
    requires k < c * m
    ensures 0 < c && 0 < m && k % c < c && k / c < m
  {
    assert c != 0 && m != 0;
    if k / c >= m {
      MulMonotone(c, m, k / c);
    }
  }

  lemma DivModOf(c: nat, q: nat, r: nat)
    requires r < c
    ensures (c * q + r) / c == q && (c * q + r) % c == r
  {
    var k := c * q + r;
    var q2, r2 := k / c, k % c;
    assert k == c * q2 + r2;
    if q2 < q {
      MulMonotone(c, q2 + 1, q);
    } else if q < q2 {
      MulMonotone(c, q + 1, q2);
    }
  }

  // ----- numbers and choices correspond one to one

  lemma {:induction false} NumberOfDigits(lists: seq<seq<bytes>>, k: nat)
    requires k < Count(lists)
    ensures Number(lists, Digits(lists, k)) == k
    decreases |lists|
  {
    if lists == [] {
    } else {
      var n := |lists| - 1;
      var c := Count(lists[..n]);
      DivModBound(k, c, |lists[n]|);
      NumberOfDigits(lists[..n], k % c);
      var d := Digits(lists, k);
      assert d[..n] == Digits(lists[..n], k % c) && d[n] == k / c;
    }
  }

  lemma LeadingDigit(c: nat, low: nat, digit: nat, size: nat)
    requires low < c && digit < size
    ensures low + c * digit < c * size
  {
    MulMonotone(c, digit + 1, size);
    assert c * (digit + 1) == c * digit + c;
  }

  lemma {:induction false} NumberBound(lists: seq<seq<bytes>>, d: seq<nat>)
    requires Choice(lists, d)
    ensures Number(lists, d) < Count(lists)
    decreases |lists|
  {
    if lists == [] {
    } else {
      var n := |lists| - 1;
      NumberBound(lists[..n], d[..n]);
      LeadingDigit(Count(lists[..n]), Number(lists[..n], d[..n]), d[n], |lists[n]|);
    }
  }

  lemma {:induction false} DigitsOfNumber(lists: seq<seq<bytes>>, d: seq<nat>)
    requires Choice(lists, d)
    ensures Number(lists, d) < Count(lists) && Digits(lists, Number(lists, d)) == d
    decreases |lists|
  {
    NumberBound(lists, d);
    if lists == [] {
    } else {
      var n := |lists| - 1;
      DigitsOfNumber(lists[..n], d[..n]);
      DivModOf(Count(lists[..n]), d[n], Number(lists[..n], d[..n]));
      assert d == d[..n] + [d[n]];
    }
  }

  lemma {:induction false} CountFront(lists: seq<seq<bytes>>)
    requires lists != []
    ensures Count(lists) == |lists[0]| * Count(lists[1..])
  {
    var n := |lists| - 1;
    if n == 0 {
      assert lists[..0] == [] == lists[1..];
    } else {
      CountFront(lists[..n]);
      assert lists[1..][..n - 1] == lists[..n][1..];
      Regroup(|lists[0]|, Count(lists[..n][1..]), |lists[n]|);
    }
  }

  lemma Regroup(a: nat, b: nat, c: nat)
    ensures a * b * c == a * (b * c)
  {
  }

  /** The first list is the least significant. */
  lemma {:induction false} NumberFront(lists: seq<seq<bytes>>, d: seq<nat>)
    requires lists != [] && Choice(lists, d)
    ensures Choice(lists[1..], d[1..]) && Number(lists, d) == d[0] + |lists[0]| * Number(lists[1..], d[1..])
    decreases |lists|
  {
    var n := |lists| - 1;
    if n == 0 {
      assert lists[..0] == [] == lists[1..];
    } else {
      NumberFront(lists[..n], d[..n]);
      CountFront(lists[..n]);
      assert lists[1..][..n - 1] == lists[..n][1..] && d[1..][..n - 1] == d[..n][1..];
      var a, low, c := |lists[0]|, Number(lists[..n][1..], d[..n][1..]), Count(lists[..n][1..]);
      assert Number(lists, d) == d[0] + a * low + a * c * d[n];
      assert Number(lists[1..], d[1..]) == low + c * d[n];
      hide *;
      Factored(a, low, c, d[n]);
    }
  }

  lemma Factored(a: nat, b: nat, c: nat, d: nat)
    ensures a * b + a * c * d == a * (b + c * d)
  {
    Regroup(a, c, d);
  }

  // ----- spelling from the front

  lemma {:induction false} PickFront(lists: seq<seq<bytes>>, d: seq<nat>)
    requires lists != [] && Choice(lists, d)
    ensures Choice(lists[1..], d[1..]) && Pick(lists, d) == lists[0][d[0]] + Pick(lists[1..], d[1..])
    decreases |lists|
  {
    var n := |lists| - 1;
    if n == 0 {
      assert Pick(lists[..0], d[..0]) == [] && lists[1..] == [] && d[1..] == [];
    } else {
      PickFront(lists[..n], d[..n]);
      assert lists[1..][..n - 1] == lists[..n][1..] && d[1..][..n - 1] == d[..n][1..];
      assert Pick(lists, d) == Pick(lists[..n], d[..n]) + lists[n][d[n]];
      assert Pick(lists[1..], d[1..]) == Pick(lists[..n][1..], d[..n][1..]) + lists[n][d[n]];
    }
  }

  /** One reading after the other can be taken so that together they begin with `q`. */
  predicate Spells(q: bytes, lists: seq<seq<bytes>>)
    decreases |lists|
  {
    q == [] || (lists != [] && exists i :: 0 <= i < |lists[0]| && SpellsWith(q, lists, i))
  }

  /** ... with reading number `i` first. */
  predicate SpellsWith(q: bytes, lists: seq<seq<bytes>>, i: nat)
    requires lists != [] && i < |lists[0]|
    decreases |lists|, 0
  {
    var r := lists[0][i];
    q <= r || (r <= q && Spells(q[|r|..], lists[1..]))
  }

  ghost predicate NoneEmpty(lists: seq<seq<bytes>>) {
    forall i :: 0 <= i < |lists| ==> lists[i] != []
  }

  lemma {:induction false} SpellsPick(q: bytes, lists: seq<seq<bytes>>) returns (d: seq<nat>)
    requires NoneEmpty(lists) && Spells(q, lists)
    ensures Choice(lists, d) && q <= Pick(lists, d)
    decreases |lists|
  {
    if lists == [] {
      d := [];
    } else {
      var i: nat, more: bytes := 0, [];
      if q != [] {
        i :| 0 <= i < |lists[0]| && SpellsWith(q, lists, i);
        if !(q <= lists[0][i]) {
          more := q[|lists[0][i]|..];
        }
      }
      var rest := SpellsPick(more, lists[1..]);
      d := [i] + rest;
      assert d[1..] == rest;
      ChoiceFront(lists, i, rest);
      PickFront(lists, d);
      assert q <= lists[0][i] || q == lists[0][i] + more;
    }
  }

  lemma ChoiceFront(lists: seq<seq<bytes>>, i: nat, rest: seq<nat>)
    requires lists != [] && i < |lists[0]| && Choice(lists[1..], rest)
    ensures Choice(lists, [i] + rest)
  {
    forall k | 1 <= k < |lists| ensures rest[k - 1] < |lists[k]| {
      assert lists[1..][k - 1] == lists[k];
    }
  }

  lemma {:induction false} PickSpells(q: bytes, lists: seq<seq<bytes>>, d: seq<nat>)
    requires Choice(lists, d) && q <= Pick(lists, d)
    ensures Spells(q, lists)
    decreases |lists|
  {
    if lists == [] || q == [] {
      assert lists == [] ==> Pick(lists, d) == [];
    } else {
      PickFront(lists, d);
      var r, more := lists[0][d[0]], Pick(lists[1..], d[1..]);
      if |r| < |q| {
        assert r == q[..|r|] && q[|r|..] <= more;
        PickSpells(q[|r|..], lists[1..], d[1..]);
      }
      assert SpellsWith(q, lists, d[0]);
    }
  }

  // ----- the expansion

  /** The list of all choices, in the order of their numbers. */
  ghost predicate IsProduct(out: seq<bytes>, lists: seq<seq<bytes>>) {
    |out| == Count(lists) && forall k :: 0 <= k < |out| ==> out[k] == Pick(lists, Digits(lists, k))
  }

  /** So it has a reading exactly when some choice spells it. */
  lemma ProductComplete(out: seq<bytes>, lists: seq<seq<bytes>>, s: bytes)
    requires IsProduct(out, lists)
    ensures s in out <==> exists d :: Choice(lists, d) && s == Pick(lists, d)
  {
    if s in out {
      var k :| 0 <= k < |out| && out[k] == s;
      assert Choice(lists, Digits(lists, k)) && s == Pick(lists, Digits(lists, k));
    }
    if d :| Choice(lists, d) && s == Pick(lists, d) {
      DigitsOfNumber(lists, d);
      assert out[Number(lists, d)] == s;
    }
  }

  /** Every entry times every reading of one more list. */
  ghost predicate IsExtended(out: seq<bytes>, before: seq<bytes>, list: seq<bytes>) {
    && |out| == |before| * |list|
    && forall t: nat :: t < |out| && 0 < |before| ==>
         t / |before| < |list| && out[t] == before[t % |before|] + list[t / |before|]
  }

  lemma ProductExtended(out: seq<bytes>, before: seq<bytes>, lists: seq<seq<bytes>>, n: nat)
    requires n < |lists| && IsProduct(before, lists[..n]) && IsExtended(out, before, lists[n])
    ensures IsProduct(out, lists[..n + 1])
  {
    var all := lists[..n + 1];
    assert all[..n] == lists[..n] && all[n] == lists[n];
    forall k | 0 <= k < |out| ensures out[k] == Pick(all, Digits(all, k)) {
      DivModBound(k, |before|, |lists[n]|);
      var d := Digits(all, k);
      assert d[..n] == Digits(lists[..n], k % |before|) && d[n] == k / |before|;
    }
  }

  /** `get_all_results`: expands `lists` in place into `vOut`. */
  method GetAllResults(lists: seq<seq<bytes>>, vOut: seq<bytes>) returns (out: seq<bytes>)
    requires forall i :: 1 <= i < |lists| ==> lists[i] != []
    ensures if lists == [] then out == vOut else IsProduct(out, lists)
  {
    out := vOut;
    if |lists| == 0 {
      return;
    }
    out := lists[0];
    FirstProduct(lists);
    for i := 1 to |lists|
      invariant IsProduct(out, lists[..i])
    {
      ghost var before := out;
      out := ExtendAll(out, lists[i]);
      ProductExtended(out, before, lists, i);
    }
    assert lists[..|lists|] == lists;
  }

  lemma FirstProduct(lists: seq<seq<bytes>>)
    requires lists != []
    ensures IsProduct(lists[0], lists[..1])
  {
    var one := lists[..1];
    assert one[..0] == [];
    assert Count(one) == Count(one[..0]) * |one[0]| == |lists[0]|;
    forall k | 0 <= k < |lists[0]| ensures lists[0][k] == Pick(one, Digits(one, k)) {
      assert Digits(one, k) == [] + [k];
      assert Pick(one[..0], Digits(one, k)[..0]) == [];
    }
  }

  /** `n` copies of `v`. */
  ghost function Repeat(v: seq<bytes>, n: nat): seq<bytes> {
    if n == 0 then [] else Repeat(v, n - 1) + v
  }

  lemma {:induction false} RepeatAt(v: seq<bytes>, n: nat, t: nat)
    requires t < |v| * n
    ensures |Repeat(v, n)| == |v| * n && 0 < |v| && Repeat(v, n)[t] == v[t % |v|]
  {
    DivModBound(t, |v|, n);
    RepeatLength(v, n);
    assert |v| * n == |v| * (n - 1) + |v|;
    if t < |v| * (n - 1) {
      RepeatAt(v, n - 1, t);
    } else {
      RepeatLength(v, n - 1);
      DivModOf(|v|, n - 1, t - |v| * (n - 1));
    }
  }

  lemma {:induction false} RepeatLength(v: seq<bytes>, n: nat)
    ensures |Repeat(v, n)| == |v| * n
  {
    if n == 0 {
    } else {
      RepeatLength(v, n - 1);
      assert |v| * n == |v| * (n - 1) + |v|;
    }
  }

  /** The first loop: entry after entry is copied behind the others, `m - 1` times. */
  method CopyBlocks(vOut: seq<bytes>, m: nat) returns (out: seq<bytes>)
    requires 0 < m
    ensures out == Repeat(vOut, m)
  {
    out := vOut;
    assert Repeat(vOut, 1) == Repeat(vOut, 0) + vOut == vOut;
    for j := 0 to m - 1
      invariant out == Repeat(vOut, j + 1) && vOut <= out
    {
      ghost var start := out;
      for k := 0 to |vOut|
        invariant out == start + vOut[..k]
      {
        assert out[k] == start[k] == vOut[k];
        out := out + [out[k]];
      }
      assert vOut[..|vOut|] == vOut;
    }
  }

  /** Entry `t` after the readings below `bound` have been appended to their blocks. */
  function Appended(copied: seq<bytes>, list: seq<bytes>, n: nat, bound: nat, t: nat): bytes
    requires t < |copied| && 0 < n
  {
    if t < bound && t / n < |list| then copied[t] + list[t / n] else copied[t]
  }

  /** The second loop: each entry of block `j` gets reading `j`. */
  method AppendReadings(copied: seq<bytes>, list: seq<bytes>, n: nat) returns (out: seq<bytes>)
    requires |copied| == n * |list|
    ensures |out| == |copied|
    ensures forall t: nat :: t < |out| && 0 < n ==> out[t] == Appended(copied, list, n, n * |list|, t)
  {
    out := copied;
    for j := 0 to |list|
      invariant |out| == |copied|
      invariant forall t: nat :: t < |out| && 0 < n ==> out[t] == Appended(copied, list, n, n * j, t)
    {
      MulMonotone(n, j + 1, |list|);
      assert n * (j + 1) == n * j + n;
      for k := 0 to n
        invariant |out| == |copied|
        invariant forall t: nat :: t < |out| && 0 < n ==> out[t] == Appended(copied, list, n, n * j + k, t)
      {
        DivModOf(n, j, k);
        out := out[n * j + k := out[n * j + k] + list[j]];
      }
    }
  }

  /** The two loops of one round: copy the entries until there is one block per reading,
      then append to each block its reading. */
  method ExtendAll(vOut: seq<bytes>, list: seq<bytes>) returns (out: seq<bytes>)
    requires list != []
    ensures IsExtended(out, vOut, list)
  {
    out := CopyBlocks(vOut, |list|);
    RepeatLength(vOut, |list|);
    ghost var copied := out;
    out := AppendReadings(out, list, |vOut|);
    forall t: nat | t < |out| && 0 < |vOut|
      ensures t / |vOut| < |list| && out[t] == vOut[t % |vOut|] + list[t / |vOut|]
    {
      DivModBound(t, |vOut|, |list|);
      RepeatAt(vOut, |list|, t);
    }
  }
}
