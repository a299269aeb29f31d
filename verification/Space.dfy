/** How much space a list of records can take: bounds on the tail and on the double array
    that can be computed from the records before they are built. */
module Space {
  import opened Bytes
  import opened Records
  import opened TrieSpec

  /** The bytes of the tail for `s` if no key were shortened. */
  function StoredBytes(s: seq<Record>): nat {
    if s == [] then 0
    else StoredBytes(s[..|s| - 1]) + |s[|s| - 1].key| + 1 + |EncodeValue(s[|s| - 1].value)|
  }

  function LengthFrom(k: bytes, p: nat): nat {
    if p <= |k| then |k| - p else 0
  }

  /** The bytes of all keys from depth `p` on. */
  function KeyBytes(s: seq<Record>, p: nat): nat {
    if s == [] then 0 else KeyBytes(s[..|s| - 1], p) + LengthFrom(s[|s| - 1].key, p)
  }

  /** At most this many inner nodes at and below the node for `s` at depth `p`: each of them
      but the first takes up a key byte of one of its records. */
  function NodeBound(s: seq<Record>, p: nat): nat {
    if |s| <= 1 then 0 else 1 + KeyBytes(s, p)
  }

  /** At most this many cells, when the array or the marks reach up to `extent` before: no node
      needs more than 257 new ones. */
  function CellBound(s: seq<Record>, p: nat, extent: nat): nat {
    extent + 257 * NodeBound(s, p)
  }

  lemma {:induction false} StoredConcat(a: seq<Record>, b: seq<Record>)
    ensures StoredBytes(a + b) == StoredBytes(a) + StoredBytes(b)
  {
    hide EncodeValue;
    if b == [] {
      assert a + b == a;
    } else {
      assert (a + b)[..|a + b| - 1] == a + b[..|b| - 1];
      StoredConcat(a, b[..|b| - 1]);
    }
  }

  lemma {:induction false} KeyBytesConcat(a: seq<Record>, b: seq<Record>, p: nat)
    ensures KeyBytes(a + b, p) == KeyBytes(a, p) + KeyBytes(b, p)
  {
    hide LengthFrom;
    if b == [] {
      assert a + b == a;
    } else {
      assert (a + b)[..|a + b| - 1] == a + b[..|b| - 1];
      KeyBytesConcat(a, b[..|b| - 1], p);
    }
  }

  lemma OneMore(n: nat, c: nat)
    ensures n * c + c == (n + 1) * c
  {
  }

  lemma EncodedItem(v: Value)
    requires v != []
    ensures |EncodeItems(v)| == |v[0].name| + 5 + |EncodeItems(v[1..])|
  {
  }

  lemma {:induction false} ItemsBound(v: Value, l: nat)
    requires forall x :: x in v ==> |x.name| <= l
    ensures |EncodeItems(v)| <= |v| * (l + 5)
  {
    if v != [] {
      var n := |v[1..]|;
      assert v[0] in v && forall x :: x in v[1..] ==> x in v;
      ItemsBound(v[1..], l);
      hide *;
      EncodedItem(v);
      OneMore(n, l + 5);
      assert |v| == n + 1;
    }
  }

  lemma ValueBound(v: Value, i: nat, l: nat)
    requires |v| <= i && forall x :: x in v ==> |x.name| <= l
    ensures |EncodeValue(v)| <= 4 + i * (l + 5)
  {
    hide EncodeItems, LE32;
    ItemsBound(v, l);
    assert i * (l + 5) == |v| * (l + 5) + (i - |v|) * (l + 5);
  }

  /** `s` has keys of at most `k` bytes and values of at most `i` items with names of at most `l`. */
  ghost predicate Sized(s: seq<Record>, k: nat, i: nat, l: nat) {
    forall r :: r in s ==> |r.key| <= k && |r.value| <= i && forall x :: x in r.value ==> |x.name| <= l
  }

  lemma LastSpace(s: seq<Record>)
    requires s != []
    ensures var r := s[|s| - 1];
            && KeyBytes(s, 0) == KeyBytes(s[..|s| - 1], 0) + |r.key|
            && StoredBytes(s) == StoredBytes(s[..|s| - 1]) + |r.key| + 1 + |EncodeValue(r.value)|
  {
  }

  lemma {:induction false} SpaceBound(s: seq<Record>, k: nat, i: nat, l: nat)
    requires Sized(s, k, i, l)
    ensures KeyBytes(s, 0) <= |s| * k
    ensures StoredBytes(s) <= |s| * (k + 5 + i * (l + 5))
  {
    hide EncodeValue, KeyBytes, StoredBytes;
    if s == [] {
      NoSpace();
    } else {
      var n := |s| - 1;
      var front, r := s[..n], s[n];
      assert r in s && forall x :: x in front ==> x in s;
      SpaceBound(front, k, i, l);
      ValueBound(r.value, i, l);
      LastSpace(s);
      OneMore(n, k);
      OneMore(n, k + 5 + i * (l + 5));
    }
  }

  lemma NoSpace()
    ensures KeyBytes([], 0) == 0 && StoredBytes([]) == 0
  {
  }

  /** One more run of records. */
  lemma BoundsStep(s: seq<Record>, p: nat, lo: nat, hi: nat)
    requires lo <= hi <= |s|
    ensures StoredBytes(s[..hi]) == StoredBytes(s[..lo]) + StoredBytes(s[lo..hi])
    ensures KeyBytes(s[..hi], p) == KeyBytes(s[..lo], p) + KeyBytes(s[lo..hi], p)
    ensures StoredBytes(s[..hi]) <= StoredBytes(s) && KeyBytes(s[..hi], p) <= KeyBytes(s, p)
  {
    hide *;
    assert s[..lo] + s[lo..hi] == s[..hi] && s[..hi] + s[hi..] == s;
    StoredConcat(s[..lo], s[lo..hi]);
    KeyBytesConcat(s[..lo], s[lo..hi], p);
    StoredConcat(s[..hi], s[hi..]);
    KeyBytesConcat(s[..hi], s[hi..], p);
  }

  lemma BoundsStart(s: seq<Record>, p: nat)
    ensures StoredBytes(s[..0]) == 0 && KeyBytes(s[..0], p) == 0
  {
  }

  lemma StoredOne(r: Record, p: nat)
    requires p <= |r.key|
    ensures |r.key[p..] + [0]| + |EncodeValue(r.value)| <= StoredBytes([r])
  {
    assert [r][..0] == [];
  }

  /** A step down takes one byte from every key, so the nodes below take less. */
  lemma {:induction false} KeyBytesBelow(g: seq<Record>, p: nat)
    requires forall r :: r in g ==> p < |r.key|
    ensures KeyBytes(g, p) == KeyBytes(g, p + 1) + |g|
  {
    if g == [] {
    } else {
      var n := |g| - 1;
      assert g[n] in g && forall r :: r in g[..n] ==> r in g;
      KeyBytesBelow(g[..n], p);
    }
  }

  lemma NodesBelow(g: seq<Record>, p: nat, c: byte)
    requires c == 0 ==> |g| <= 1
    requires c != 0 ==> forall r :: r in g ==> p < |r.key|
    ensures NodeBound(g, Below(p, c)) <= KeyBytes(g, p)
  {
    if c != 0 {
      KeyBytesBelow(g, p);
    }
  }
}
