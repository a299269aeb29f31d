/** What `getChildrenRecursive` lists: the arcs of a node in byte order, up to byte 254. */
module Listing {
  import opened Bytes
  import opened Records
  import opened TrieSpec

  datatype KeyValue = KeyValue(key: bytes, value: Value)

  /** The pairs listed below a node at depth `p` that holds `s`, from the arcs of the
      bytes below `m`; `pre` is the string collected so far. */
  ghost function ListUpTo(pre: bytes, s: seq<Record>, p: nat, m: nat): seq<KeyValue>
    requires CommonPrefix(s, p) && m <= 256
    decreases MaxLen(s) - p, |s|, m, 1
  {
    if m == 0 then [] else ListUpTo(pre, s, p, m - 1) + ListArc(pre, s, p, m - 1)
  }

  ghost function ListArc(pre: bytes, s: seq<Record>, p: nat, c: byte): seq<KeyValue>
    requires CommonPrefix(s, p)
    decreases MaxLen(s) - p, |s|, c, 2
  {
    var g := Group(s, p, c);
    GroupPrefix(s, p, c);
    if g == [] then []
    else if |g| == 1 then [KeyValue(pre + [c] + g[0].key[Below(p, c)..], g[0].value)]
    else if c == 0 then []
    else
      assert g[0] in g && g[0] in s;
      ListUpTo(pre + [c], g, p + 1, 255)
  }

  /** The first `n` elements, or all. */
  function Take<T>(e: seq<T>, n: int): seq<T> {
    if n <= 0 then [] else if n < |e| then e[..n] else e
  }

  lemma TakeConcat<T>(a: seq<T>, b: seq<T>, n: int)
    ensures Take(a + b, n) == if |a| < n then Take(a, n) + Take(b, n - |a|) else Take(a, n)
  {
  }

  /** Further arcs only add to the listing. */
  lemma {:induction false} ListUpToExtends(pre: bytes, s: seq<Record>, p: nat, m: nat)
    requires CommonPrefix(s, p) && m <= 255
    ensures ListUpTo(pre, s, p, m) <= ListUpTo(pre, s, p, 255)
    decreases 255 - m
  {
    if m == 255 {
    } else {
      ListUpToStep(pre, s, p, m);
      ListUpToExtends(pre, s, p, m + 1);
    }
  }

  function Values(e: seq<KeyValue>): seq<Value> {
    seq(|e|, i requires 0 <= i < |e| => e[i].value)
  }

  function RecordValues(s: seq<Record>): seq<Value> {
    seq(|s|, i requires 0 <= i < |s| => s[i].value)
  }

  // ----- the groups of a sorted list, one after the other

  /** The records whose byte at depth `p` is below `m`, in order. */
  ghost function Under(s: seq<Record>, p: nat, m: nat): (u: seq<Record>) {
    if s == [] then []
    else (if At(s[0].key, p) < m then [s[0]] else []) + Under(s[1..], p, m)
  }

  lemma {:induction false} UnderAll(s: seq<Record>, p: nat)
    ensures Under(s, p, 256) == s && Under(s, p, 0) == []
  {
    if s == [] {
    } else {
      UnderAll(s[1..], p);
    }
  }

  ghost predicate Ascends(s: seq<Record>, p: nat) {
    forall i, j :: 0 <= i < j < |s| ==> At(s[i].key, p) <= At(s[j].key, p)
  }

  lemma SortedAscends(s: seq<Record>, p: nat)
    requires Sorted(s) && KeysNulFree(s) && CommonPrefix(s, p)
    ensures Ascends(s, p)
  {
    forall i, j | 0 <= i < j < |s| ensures At(s[i].key, p) <= At(s[j].key, p) {
      if At(s[i].key, p) != At(s[j].key, p) {
        LexLessByByte(s[i].key, s[j].key, p);
      }
    }
  }

  lemma {:induction false} UnderEmpty(s: seq<Record>, p: nat, m: nat)
    requires forall i :: 0 <= i < |s| ==> At(s[i].key, p) >= m
    ensures Under(s, p, m) == []
  {
    if s == [] {
    } else {
      UnderEmpty(s[1..], p, m);
    }
  }

  /** Group after group gives the list back. */
  lemma {:induction false} UnderStep(s: seq<Record>, p: nat, c: byte)
    requires Ascends(s, p)
    ensures Under(s, p, c as int + 1) == Under(s, p, c) + Group(s, p, c)
  {
    hide *;
    if s == [] {
      UnderNone(p, c);
    } else {
      AscendsTail(s, p);
      UnderStep(s[1..], p, c);
      UnderHead(s, p, c);
      if At(s[0].key, p) >= c {
        UnderEmpty(s[1..], p, c);
      }
      HeadPlaced(s[0], Under(s[1..], p, c), Group(s[1..], p, c));
    }
  }

  lemma HeadPlaced<T>(x: T, u: seq<T>, g: seq<T>)
    ensures [x] + (u + g) == ([x] + u) + g && [] + (u + g) == ([] + u) + ([] + g)
    ensures ([x] + u) + g == ([x] + u) + ([] + g)
    ensures u == [] ==> [x] + (u + g) == ([] + u) + ([x] + g)
  {
  }

  lemma UnderNone(p: nat, c: byte)
    ensures Under([], p, c) == [] && Under([], p, c as int + 1) == [] && Group([], p, c) == []
  {
  }

  lemma AscendsTail(s: seq<Record>, p: nat)
    requires s != [] && Ascends(s, p)
    ensures Ascends(s[1..], p)
    ensures forall i :: 0 <= i < |s| - 1 ==> At(s[0].key, p) <= At(s[1..][i].key, p)
  {
  }

  lemma UnderHead(s: seq<Record>, p: nat, c: byte)
    requires s != []
    ensures var rest, b := s[1..], At(s[0].key, p);
            && Under(s, p, c) == (if b < c then [s[0]] else []) + Under(rest, p, c)
            && Under(s, p, c as int + 1) == (if b <= c then [s[0]] else []) + Under(rest, p, c as int + 1)
            && Group(s, p, c) == (if b == c then [s[0]] else []) + Group(rest, p, c)
  {
  }

  lemma SortedTail(s: seq<Record>, y: Record)
    requires s != [] && Sorted(s)
    ensures Sorted(s[1..]) && (y in s[1..] ==> LexLess(s[0].key, y.key))
  {
    if y in s[1..] {
      var k :| 0 <= k < |s[1..]| && s[1..][k] == y;
      assert s[k + 1] == y;
    }
  }

  lemma SortedCons(x: Record, g: seq<Record>)
    requires Sorted(g) && forall y :: y in g ==> LexLess(x.key, y.key)
    ensures Sorted([x] + g)
  {
    var s := [x] + g;
    forall i, j | 0 <= i < j < |s| ensures LexLess(s[i].key, s[j].key) {
      assert s[j] == g[j - 1] && g[j - 1] in g;
      assert i > 0 ==> s[i] == g[i - 1];
    }
  }

  lemma {:induction false} GroupSorted(s: seq<Record>, p: nat, c: byte)
    requires Sorted(s)
    ensures Sorted(Group(s, p, c))
  {
    if s == [] {
    } else {
      var rest := Group(s[1..], p, c);
      SortedTail(s, s[0]);
      GroupSorted(s[1..], p, c);
      if At(s[0].key, p) == c {
        forall y | y in rest ensures LexLess(s[0].key, y.key) {
          SortedTail(s, y);
        }
        SortedCons(s[0], rest);
      }
    }
  }

  // ----- byte 255

  /** Two keys share `d` bytes, at least `p`, and `a` goes on with byte 255: that byte is an arc
      on the way to `a`. */
  ghost predicate SplitsAt255(a: Record, b: Record, p: nat, d: nat) {
    p <= d < |a.key| && d <= |b.key| && a.key[..d] == b.key[..d] && a.key[d] == 255 && a.key != b.key
  }

  /** Byte 255 labels an arc between a node at depth `p` that holds `s` and the leaf of `r`. */
  ghost predicate Hidden(r: Record, s: seq<Record>, p: nat) {
    exists b, d: nat :: b in s && SplitsAt255(r, b, p, d)
  }

  /** Below an arc of another byte, what is hidden is what was. */
  lemma HiddenBelow(r: Record, s: seq<Record>, p: nat, c: byte)
    requires r in Group(s, p, c) && 0 < c < 255
    ensures Hidden(r, s, p) <==> Hidden(r, Group(s, p, c), p + 1)
  {
    hide Group;
    var g, p1 := Group(s, p, c), p + 1;
    if Hidden(r, s, p) {
      var b, d: nat :| b in s && SplitsAt255(r, b, p, d);
      assert r.key[p] == r.key[..d][p] && b.key[p] == b.key[..d][p];
      assert b in g && SplitsAt255(r, b, p1, d);
    }
    if Hidden(r, g, p1) {
      var b, d: nat :| b in g && SplitsAt255(r, b, p1, d);
      assert b in s && SplitsAt255(r, b, p, d);
    }
  }

  /** With a second record in the node, what hangs from the arc of byte 255 is hidden. */
  lemma HiddenHere(r: Record, s: seq<Record>, p: nat)
    requires Sorted(s) && CommonPrefix(s, p) && |s| > 1 && r in Group(s, p, 255)
    ensures Hidden(r, s, p)
  {
    hide Group, CommonPrefix;
    var i: nat :| 0 <= i < |s| && s[i] == r;
    var j: nat := if i == 0 then 1 else 0;
    if s[i].key == s[j].key {
      SortedKeysDistinct(s, i, j);
    }
    PrefixOfMembers(s, p, s[i], s[j]);
    assert SplitsAt255(s[i], s[j], p, p);
  }

  /** A key that ends at the node, and the only key below another arc, are not hidden. */
  lemma AloneShown(r: Record, s: seq<Record>, p: nat, c: byte)
    requires KeysNulFree(s) && CommonPrefix(s, p) && Group(s, p, c) == [r] && c < 255
    ensures !Hidden(r, s, p)
  {
    hide Group;
    assert r in Group(s, p, c);
    if c == 0 {
      MemberOf(s, p, c, r);
    } else {
      HiddenBelow(r, s, p, c);
    }
  }

  /** The records of `t` that the listing of a node at depth `p` with `s` shows. */
  ghost function Shown(t: seq<Record>, s: seq<Record>, p: nat): (g: seq<Record>)
    ensures forall r :: r in g <==> r in t && !Hidden(r, s, p)
  {
    if t == [] then []
    else (if Hidden(t[0], s, p) then [] else [t[0]]) + Shown(t[1..], s, p)
  }

  lemma {:induction false} ShownAll(t: seq<Record>, s: seq<Record>, p: nat)
    ensures Shown(t, s, p) == t <==> forall r :: r in t ==> !Hidden(r, s, p)
  {
    if t == [] {
    } else if Hidden(t[0], s, p) {
      assert t[0] in t && t[0] !in Shown(t, s, p);
    } else {
      ShownAll(t[1..], s, p);
      assert Shown(t, s, p) == [t[0]] + Shown(t[1..], s, p);
      assert Shown(t, s, p)[1..] == Shown(t[1..], s, p);
      assert forall r :: r in t <==> r == t[0] || r in t[1..];
    }
  }

  // ----- the pairs that are reported

  /** The key of some record goes on where the key of `r` ends. */
  ghost predicate EndsInside(r: Record, s: seq<Record>) {
    exists b :: b in s && r.key < b.key
  }

  function From(k: bytes, p: nat): bytes {
    if p <= |k| then k[p..] else []
  }

  /** What the listing of `s` from depth `p` and string `pre` reports of `r`: its value, and
      after `pre` the rest of its key, with the NUL of the arc when the key ends at an inner node. */
  ghost function Report(pre: bytes, s: seq<Record>, p: nat, r: Record): KeyValue {
    KeyValue(pre + From(r.key, p) + if EndsInside(r, s) then [0] else [], r.value)
  }

  ghost function Reports(pre: bytes, s: seq<Record>, p: nat, t: seq<Record>): (e: seq<KeyValue>)
    ensures |e| == |t| && forall i :: 0 <= i < |t| ==> e[i] == Report(pre, s, p, t[i])
  {
    if t == [] then [] else [Report(pre, s, p, t[0])] + Reports(pre, s, p, t[1..])
  }

  /** The pairs for those records of `t` that are shown. */
  ghost function Pairs(pre: bytes, s: seq<Record>, p: nat, t: seq<Record>): seq<KeyValue> {
    Reports(pre, s, p, Shown(t, s, p))
  }

  lemma {:induction false} ShownConcat(t: seq<Record>, u: seq<Record>, s: seq<Record>, p: nat)
    ensures Shown(t + u, s, p) == Shown(t, s, p) + Shown(u, s, p)
  {
    if t == [] {
      assert [] + u == u;
    } else {
      assert (t + u)[1..] == t[1..] + u;
      ShownConcat(t[1..], u, s, p);
    }
  }

  lemma PairsConcat(pre: bytes, s: seq<Record>, p: nat, t: seq<Record>, u: seq<Record>)
    ensures Pairs(pre, s, p, t + u) == Pairs(pre, s, p, t) + Pairs(pre, s, p, u)
  {
    hide Shown, Report;
    ShownConcat(t, u, s, p);
  }

  lemma {:induction false} PairsNone(pre: bytes, s: seq<Record>, p: nat, t: seq<Record>)
    requires forall r :: r in t ==> Hidden(r, s, p)
    ensures Pairs(pre, s, p, t) == []
  {
    hide Hidden, Report;
    if t == [] {
    } else {
      assert t[0] in t;
      PairsNone(pre, s, p, t[1..]);
    }
  }

  lemma PairsOne(pre: bytes, s: seq<Record>, p: nat, r: Record)
    requires !Hidden(r, s, p)
    ensures Pairs(pre, s, p, [r]) == [Report(pre, s, p, r)]
  {
    hide Hidden, Report;
    assert [r][1..] == [] && Shown([], s, p) == [];
    assert Shown([r], s, p) == [r];
  }

  /** Two ways to report the same records. */
  lemma {:induction false} PairsSame(pre: bytes, s: seq<Record>, p: nat, pre2: bytes, s2: seq<Record>, p2: nat,
                                     t: seq<Record>)
    requires forall r :: r in t ==> (Hidden(r, s, p) <==> Hidden(r, s2, p2)) && Report(pre, s, p, r) == Report(pre2, s2, p2, r)
    ensures Pairs(pre, s, p, t) == Pairs(pre2, s2, p2, t)
  {
    hide Hidden, Report;
    if t == [] {
    } else {
      assert t[0] in t;
      PairsSame(pre, s, p, pre2, s2, p2, t[1..]);
    }
  }

  /** The key goes on inside the node exactly when it goes on below the arc. */
  lemma EndsBelow(r: Record, s: seq<Record>, p: nat, c: byte)
    requires r in Group(s, p, c) && c != 0
    ensures EndsInside(r, s) <==> EndsInside(r, Group(s, p, c))
  {
    hide Group;
    if b :| b in s && r.key < b.key {
      assert b.key[p] == r.key[p];
      assert b in Group(s, p, c);
    }
  }

  lemma RestBelow(pre: bytes, k: bytes, p: nat, c: byte)
    requires p < |k| && k[p] == c
    ensures pre + [c] + From(k, p + 1) == pre + From(k, p)
  {
    assert k[p..] == [c] + k[p + 1..];
  }

  lemma ReportBelow(pre: bytes, s: seq<Record>, p: nat, c: byte, r: Record)
    requires r in Group(s, p, c) && c != 0
    ensures Report(pre + [c], Group(s, p, c), p + 1, r) == Report(pre, s, p, r)
  {
    hide Group, EndsInside;
    EndsBelow(r, s, p, c);
    RestBelow(pre, r.key, p, c);
  }

  /** The only record below an arc. */
  lemma ReportAlone(pre: bytes, s: seq<Record>, p: nat, c: byte, r: Record)
    requires |s| > 1 && Sorted(s) && KeysNulFree(s) && CommonPrefix(s, p) && Group(s, p, c) == [r]
    ensures Report(pre, s, p, r) == KeyValue(pre + [c] + From(r.key, Below(p, c)), r.value)
  {
    hide Group;
    assert r in Group(s, p, c);
    MemberOf(s, p, c, r);
    if c == 0 {
      EndsHere(s, p, r);
      assert r.key[p..] == [];
    } else {
      EndsBelow(r, s, p, c);
      RestBelow(pre, r.key, p, c);
    }
  }

  /** A key that ends at a node with another record is a proper prefix of that record's key. */
  lemma EndsHere(s: seq<Record>, p: nat, r: Record)
    requires |s| > 1 && Sorted(s) && CommonPrefix(s, p) && r in s && |r.key| == p
    ensures EndsInside(r, s)
  {
    hide CommonPrefix;
    var i: nat :| 0 <= i < |s| && s[i] == r;
    var j: nat := if i == 0 then 1 else 0;
    if s[i].key == s[j].key {
      SortedKeysDistinct(s, i, j);
    }
    PrefixOfMembers(s, p, s[i], s[j]);
    assert r.key == r.key[..p];
    assert s[j] in s && r.key < s[j].key;
  }

  lemma MemberOf(s: seq<Record>, p: nat, c: byte, r: Record)
    requires KeysNulFree(s) && CommonPrefix(s, p) && r in Group(s, p, c)
    ensures r in s && At(r.key, p) == c && NulFree(r.key) && p <= |r.key|
    ensures c == 0 <==> |r.key| == p
  {
    hide Group;
    var i :| 0 <= i < |s| && s[i] == r;
    assert NulFree(s[i].key);
  }

  lemma GroupKeysNulFree(s: seq<Record>, p: nat, c: byte)
    requires KeysNulFree(s)
    ensures KeysNulFree(Group(s, p, c))
  {
    hide Group;
    var g := Group(s, p, c);
    forall i | 0 <= i < |g| ensures NulFree(g[i].key) {
      assert g[i] in g;
    }
  }

  lemma ListUpToStep(pre: bytes, s: seq<Record>, p: nat, c: byte)
    requires CommonPrefix(s, p)
    ensures ListUpTo(pre, s, p, c as int + 1) == ListUpTo(pre, s, p, c) + ListArc(pre, s, p, c)
  {
  }

  lemma ListUpToZero(pre: bytes, s: seq<Record>, p: nat)
    requires CommonPrefix(s, p)
    ensures ListUpTo(pre, s, p, 0) == []
  {
  }

  /** What the arc of byte `c` lists, case by case. */
  lemma ListArcIs(pre: bytes, s: seq<Record>, p: nat, c: byte)
    requires CommonPrefix(s, p)
    ensures var g := Group(s, p, c);
            && CommonPrefix(g, Below(p, c)) && Below(p, c) == (if c == 0 then p else p + 1)
            && (|g| > 1 && c != 0 ==> MaxLen(g) <= MaxLen(s) && p < MaxLen(g))
            && ListArc(pre, s, p, c) ==
               if g == [] then []
               else if |g| == 1 then [KeyValue(pre + [c] + From(g[0].key, Below(p, c)), g[0].value)]
               else if c == 0 then []
               else ListUpTo(pre + [c], g, p + 1, 255)
  {
    hide Group, ListUpTo;
    GroupPrefix(s, p, c);
    var g := Group(s, p, c);
    if |g| > 1 && c != 0 {
      assert g[0] in g;
    }
  }

  /** The listing of a sorted node is exactly this: for each of its records, in order, that is
      not hidden behind byte 255, the pair that reports it. */
  lemma {:induction false} ListsPairs(pre: bytes, s: seq<Record>, p: nat)
    requires |s| > 1 && Sorted(s) && KeysNulFree(s) && CommonPrefix(s, p)
    ensures ListUpTo(pre, s, p, 255) == Pairs(pre, s, p, s)
    decreases MaxLen(s) - p, |s|, 2
  {
    hide *;
    SortedAscends(s, p);
    UnderAll(s, p);
    UnderStep(s, p, 255);
    ListsPairsUpTo(pre, s, p, 255);
    PairsConcat(pre, s, p, Under(s, p, 255), Group(s, p, 255));
    forall r | r in Group(s, p, 255) ensures Hidden(r, s, p) {
      HiddenHere(r, s, p);
    }
    PairsNone(pre, s, p, Group(s, p, 255));
  }

  lemma {:induction false} ListsPairsUpTo(pre: bytes, s: seq<Record>, p: nat, m: nat)
    requires |s| > 1 && Sorted(s) && KeysNulFree(s) && CommonPrefix(s, p) && m <= 255
    ensures ListUpTo(pre, s, p, m) == Pairs(pre, s, p, Under(s, p, m))
    decreases MaxLen(s) - p, |s|, 1, m
  {
    hide *;
    if m == 0 {
      UnderAll(s, p);
      ListUpToZero(pre, s, p);
      PairsNone(pre, s, p, []);
    } else {
      SortedAscends(s, p);
      UnderStep(s, p, m - 1);
      ListUpToStep(pre, s, p, m - 1);
      ListsPairsUpTo(pre, s, p, m - 1);
      ArcPairs(pre, s, p, m - 1);
      PairsConcat(pre, s, p, Under(s, p, m - 1), Group(s, p, m - 1));
    }
  }

  lemma {:induction false} ArcPairs(pre: bytes, s: seq<Record>, p: nat, c: byte)
    requires |s| > 1 && Sorted(s) && KeysNulFree(s) && CommonPrefix(s, p) && c < 255
    ensures ListArc(pre, s, p, c) == Pairs(pre, s, p, Group(s, p, c))
    decreases MaxLen(s) - p, |s|, 0
  {
    hide *;
    var g := Group(s, p, c);
    ListArcIs(pre, s, p, c);
    GroupSorted(s, p, c);
    GroupKeysNulFree(s, p, c);
    if g == [] {
      PairsNone(pre, s, p, g);
    } else if |g| == 1 {
      assert g == [g[0]];
      AloneShown(g[0], s, p, c);
      ReportAlone(pre, s, p, c, g[0]);
      PairsOne(pre, s, p, g[0]);
    } else if c == 0 {
      NulGroupSingle(s, p);
      assert false;
    } else {
      ListsPairs(pre + [c], g, p + 1);
      forall r | r in g
        ensures (Hidden(r, s, p) <==> Hidden(r, g, p + 1)) && Report(pre + [c], g, p + 1, r) == Report(pre, s, p, r)
      {
        HiddenBelow(r, s, p, c);
        ReportBelow(pre, s, p, c, r);
      }
      PairsSame(pre + [c], g, p + 1, pre, s, p, g);
    }
  }

  lemma NulGroupSingle(s: seq<Record>, p: nat)
    requires Sorted(s) && KeysNulFree(s) && CommonPrefix(s, p)
    ensures |Group(s, p, 0)| <= 1
  {
    var g := Group(s, p, 0);
    GroupSorted(s, p, 0);
    if |g| > 1 {
      assert g[0] in g && g[1] in g;
      PrefixOfMembers(s, p, g[0], g[1]);
      assert g[0].key == g[0].key[..p] && g[1].key == g[1].key[..p];
      LexLessIrreflexive(g[0].key);
    }
  }

  lemma ReportValues(pre: bytes, s: seq<Record>, p: nat, t: seq<Record>)
    ensures Values(Reports(pre, s, p, t)) == RecordValues(t)
  {
  }
}
