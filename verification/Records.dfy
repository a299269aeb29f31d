/** The records an index is built from: a key, and the `string_array` value that
    the indexer stores under it; and how sorted records split by the byte at a depth. */
module Records {
  import opened Bytes

  /** The bytes of a `float`, not interpreted. */
  type quad = q: bytes | |q| == 4 witness [0, 0, 0, 0]

  datatype Item = Item(name: bytes, rank: quad)

  type Value = seq<Item>

  datatype Record = Record(key: bytes, value: Value)

  // ----- the stored form of a value

  function EncodeItems(v: Value): bytes {
    if v == [] then [] else v[0].name + [0] + v[0].rank + EncodeItems(v[1..])
  }

  /** A 32-bit count (it wraps), then each name with its NUL and its rank. */
  function EncodeValue(v: Value): bytes {
    LE32(|v| % TWO32) + EncodeItems(v)
  }

  /** Values that the reader can get back: names are text, the count fits. */
  ghost predicate Encodable(v: Value) {
    |v| < TWO32 && forall i :: 0 <= i < |v| ==> NulFree(v[i].name)
  }

  lemma {:induction false} EncodeItemsAppend(v: Value, x: Item)
    ensures EncodeItems(v + [x]) == EncodeItems(v) + (x.name + [0] + x.rank)
  {
    if v == [] {
      assert ([] + [x])[1..] == [];
    } else {
      assert (v + [x])[1..] == v[1..] + [x];
      EncodeItemsAppend(v[1..], x);
    }
  }

  /** The bytes `b` are these items: each name, a NUL, and four bytes of rank. */
  ghost predicate IsItems(b: bytes, v: Value)
    decreases |v|
  {
    if v == [] then b == []
    else
      var l := |v[0].name|;
      && l + 5 <= |b| && b[..l] == v[0].name && b[l] == 0 && b[l + 1..l + 5] == v[0].rank
      && IsItems(b[l + 5..], v[1..])
  }

  /** The bytes `b` are this value: the digits of its count modulo 2^32, the lowest in front, and
      its items. */
  ghost predicate IsStored(b: bytes, v: Value) {
    && 4 <= |b|
    && b[0] as int + 256 * b[1] as int + 65536 * b[2] as int + 16777216 * b[3] as int == |v| % 0x1_0000_0000
    && IsItems(b[4..], v)
  }

  lemma {:induction false} ItemsForm(b: bytes, v: Value)
    ensures IsItems(b, v) <==> b == EncodeItems(v)
    decreases |v|
  {
    if v != [] {
      var x := v[0];
      var l := |x.name|;
      var more := EncodeItems(v[1..]);
      if IsItems(b, v) {
        ItemsForm(b[l + 5..], v[1..]);
        assert b == b[..l] + [b[l]] + b[l + 1..l + 5] + b[l + 5..];
      }
      if b == EncodeItems(v) {
        assert b == x.name + [0] + x.rank + more;
        assert b[l + 5..] == more && b[l + 1..l + 5] == x.rank;
        ItemsForm(more, v[1..]);
      }
    }
  }

  lemma StoredForm(b: bytes, v: Value)
    ensures IsStored(b, v) <==> b == EncodeValue(v)
  {
    hide LE32, IsItems, EncodeItems;
    var n := |v| % TWO32;
    if IsStored(b, v) {
      LittleEndian(n, b[..4]);
      ItemsForm(b[4..], v);
      assert b == b[..4] + b[4..];
    }
    if b == EncodeValue(v) {
      LittleEndianOf(n);
      assert b[..4] == LE32(n) && b[4..] == EncodeItems(v);
      ItemsForm(b[4..], v);
    }
  }

  // ----- sortedness

  ghost predicate KeysNulFree(s: seq<Record>) {
    forall i :: 0 <= i < |s| ==> NulFree(s[i].key)
  }

  /** Strictly ascending keys in unsigned byte order; so also no duplicates. */
  ghost predicate Sorted(s: seq<Record>) {
    forall i, j :: 0 <= i < j < |s| ==> LexLess(s[i].key, s[j].key)
  }

  /** Some key follows a greater one. */
  ghost predicate OutOfOrder(s: seq<Record>) {
    exists i, j :: 0 <= i < j < |s| && LexLess(s[j].key, s[i].key)
  }

  ghost predicate HasDuplicates(s: seq<Record>) {
    exists i, j :: 0 <= i < j < |s| && s[i].key == s[j].key
  }

  /** The two ways not to be strictly ascending. */
  lemma SortedExactly(s: seq<Record>)
    ensures Sorted(s) <==> !OutOfOrder(s) && !HasDuplicates(s)
  {
    forall i, j | 0 <= i < j < |s|
      ensures LexLess(s[i].key, s[j].key) <==> s[i].key != s[j].key && !LexLess(s[j].key, s[i].key)
    {
      LexLessTrichotomy(s[i].key, s[j].key);
    }
  }

  /** All keys reach depth `p` and agree before it. */
  ghost predicate CommonPrefix(s: seq<Record>, p: nat) {
    && (forall i :: 0 <= i < |s| ==> p <= |s[i].key|)
    && (forall i, j :: 0 <= i < |s| && 0 <= j < |s| ==> s[i].key[..p] == s[j].key[..p])
  }

  lemma ZeroPrefix(s: seq<Record>)
    ensures CommonPrefix(s, 0)
  {
  }

  lemma SortedKeysDistinct(s: seq<Record>, i: nat, j: nat)
    requires Sorted(s) && i < |s| && j < |s| && s[i].key == s[j].key
    ensures i == j
  {
    LexLessIrreflexive(s[i].key);
  }

  // ----- key lengths, the measure of the recursion

  function MaxLen(s: seq<Record>): (m: nat)
    ensures forall i :: 0 <= i < |s| ==> |s[i].key| <= m
  {
    if s == [] then 0
    else
      var m := MaxLen(s[1..]);
      assert forall i :: 1 <= i < |s| ==> s[i] == s[1..][i - 1];
      if |s[0].key| > m then |s[0].key| else m
  }

  lemma {:induction false} MaxLenLeast(s: seq<Record>, bound: nat)
    requires forall i :: 0 <= i < |s| ==> |s[i].key| <= bound
    ensures MaxLen(s) <= bound
  {
    if s == [] {
    } else {
      MaxLenLeast(s[1..], bound);
    }
  }

  // ----- the records whose key has byte `c` at depth `p`

  function Group(s: seq<Record>, p: nat, c: byte): (g: seq<Record>)
    ensures |g| <= |s|
    ensures forall r :: r in g <==> r in s && At(r.key, p) == c
    ensures MaxLen(g) <= MaxLen(s)
  {
    if s == [] then []
    else
      var g := Group(s[1..], p, c);
      assert forall r :: r in s <==> r == s[0] || r in s[1..];
      var r := if At(s[0].key, p) == c then [s[0]] + g else g;
      assert MaxLen(r) <= MaxLen(s) by {
        forall i | 0 <= i < |r| ensures |r[i].key| <= MaxLen(s) {
          assert r[i] in s;
        }
        MaxLenLeast(r, MaxLen(s));
      }
      r
  }

  lemma {:induction false} GroupEmpty(s: seq<Record>, p: nat, c: byte)
    requires forall i :: 0 <= i < |s| ==> At(s[i].key, p) != c
    ensures Group(s, p, c) == []
  {
    if s == [] {
    } else {
      GroupEmpty(s[1..], p, c);
    }
  }

  lemma {:induction false} GroupAll(s: seq<Record>, p: nat, c: byte)
    requires forall i :: 0 <= i < |s| ==> At(s[i].key, p) == c
    ensures Group(s, p, c) == s
  {
    if s == [] {
    } else {
      GroupAll(s[1..], p, c);
    }
  }

  lemma {:induction false} GroupAppend(s: seq<Record>, t: seq<Record>, p: nat, c: byte)
    ensures Group(s + t, p, c) == Group(s, p, c) + Group(t, p, c)
  {
    if s == [] {
      assert [] + t == t;
    } else {
      assert (s + t)[1..] == s[1..] + t;
      GroupAppend(s[1..], t, p, c);
    }
  }

  lemma GroupMiddle(a: seq<Record>, b: seq<Record>, z: seq<Record>, p: nat, c: byte)
    requires forall i :: 0 <= i < |a| ==> At(a[i].key, p) != c
    requires forall i :: 0 <= i < |b| ==> At(b[i].key, p) == c
    requires forall i :: 0 <= i < |z| ==> At(z[i].key, p) != c
    ensures Group(a + b + z, p, c) == b
  {
    hide *;
    GroupAppend(a + b, z, p, c);
    GroupAppend(a, b, p, c);
    GroupEmpty(a, p, c);
    GroupAll(b, p, c);
    GroupEmpty(z, p, c);
  }

  /** When the records with byte `c` stand together, the group is that slice. */
  lemma GroupSlice(s: seq<Record>, p: nat, c: byte, lo: nat, hi: nat)
    requires lo <= hi <= |s|
    requires forall i :: 0 <= i < |s| ==> (At(s[i].key, p) == c <==> lo <= i < hi)
    ensures Group(s, p, c) == s[lo..hi]
  {
    hide *;
    assert s == s[..lo] + s[lo..hi] + s[hi..];
    GroupMiddle(s[..lo], s[lo..hi], s[hi..], p, c);
  }

  lemma PrefixOfMembers(s: seq<Record>, p: nat, a: Record, b: Record)
    requires CommonPrefix(s, p) && a in s && b in s
    ensures p <= |a.key| && p <= |b.key| && a.key[..p] == b.key[..p]
  {
    var i :| 0 <= i < |s| && s[i] == a;
    var j :| 0 <= j < |s| && s[j] == b;
    assert s[i].key[..p] == s[j].key[..p];
  }

  lemma OneByteFurther(a: bytes, b: bytes, p: nat, c: byte)
    requires p <= |a| && p <= |b| && a[..p] == b[..p]
    requires At(a, p) == At(b, p) == c != 0
    ensures p < |a| && p < |b| && a[..p + 1] == b[..p + 1]
  {
    assert a[..p + 1] == a[..p] + [c];
    assert b[..p + 1] == b[..p] + [c];
  }

  lemma GroupMembersPrefix(s: seq<Record>, p: nat, c: byte, a: Record, b: Record)
    requires CommonPrefix(s, p) && a in Group(s, p, c) && b in Group(s, p, c)
    ensures p <= |a.key| && p <= |b.key| && a.key[..p] == b.key[..p]
    ensures c != 0 ==> p < |a.key| && p < |b.key| && a.key[..p + 1] == b.key[..p + 1]
  {
    hide *;
    PrefixOfMembers(s, p, a, b);
    if c != 0 {
      OneByteFurther(a.key, b.key, p, c);
    }
  }

  /** Below an arc with a byte other than NUL, keys agree one byte further. */
  lemma GroupPrefix(s: seq<Record>, p: nat, c: byte)
    requires CommonPrefix(s, p)
    ensures CommonPrefix(Group(s, p, c), if c == 0 then p else p + 1)
  {
    var g := Group(s, p, c);
    forall i, j | 0 <= i < |g| && 0 <= j < |g|
      ensures p <= |g[i].key| && g[i].key[..p] == g[j].key[..p]
      ensures c != 0 ==> p < |g[i].key| && g[i].key[..p + 1] == g[j].key[..p + 1]
    {
      GroupMembersPrefix(s, p, c, g[i], g[j]);
    }
  }
}
