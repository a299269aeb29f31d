/** Splitting the records of a node by the byte at its depth: the first half of
    `builder::arrange`, and what an ascending split says about the whole list. */
module Children {
  import opened Bytes
  import opened Records
  import opened TrieSpec

  /** A child arc: its byte, its offset from BASE, and the records below it. */
  datatype Child = Child(c: byte, offset: nat, first: nat, last: nat)

  ghost predicate ChildOk(p: nat, s: seq<Record>, table: Table, ch: Child) {
    && ch.first < ch.last <= |s|
    && ch.offset == Offset(table, ch.c)
    && forall i :: ch.first <= i < ch.last ==> At(s[i].key, p) == ch.c
  }

  /** The children cut the first `n` records into consecutive runs, in ascending
      order of their byte. */
  ghost predicate Runs(p: nat, s: seq<Record>, table: Table, children: seq<Child>, n: nat) {
    && 0 < |children|
    && children[0].first == 0 && children[|children| - 1].last == n <= |s|
    && (forall k :: 0 <= k < |children| ==> ChildOk(p, s, table, children[k]))
    && (forall k :: 0 < k < |children| ==>
          children[k - 1].last == children[k].first && children[k - 1].c < children[k].c)
  }

  ghost predicate Partition(p: nat, s: seq<Record>, table: Table, children: seq<Child>) {
    Runs(p, s, table, children, |s|)
  }

  function Slice(s: seq<Record>, ch: Child): seq<Record>
    requires ch.first <= ch.last <= |s|
  {
    s[ch.first..ch.last]
  }

  lemma SliceIs(s: seq<Record>, ch: Child)
    requires ch.first <= ch.last <= |s|
    ensures Slice(s, ch) == s[ch.first..ch.last]
  {
  }

  lemma {:induction false} RunsAscend(p: nat, s: seq<Record>, table: Table, children: seq<Child>, n: nat, k: nat,
                                      l: nat)
    requires Runs(p, s, table, children, n) && k < l < |children|
    ensures children[k].c < children[l].c && children[k].last <= children[l].first
    decreases l
  {
    assert ChildOk(p, s, table, children[l - 1]);
    if k == l - 1 {
    } else {
      RunsAscend(p, s, table, children, n, k, l - 1);
    }
  }

  /** So there is room in `children[NUMCHARS]`. */
  lemma {:induction false} RunsBounded(p: nat, s: seq<Record>, table: Table, children: seq<Child>, n: nat, k: nat)
    requires Runs(p, s, table, children, n) && k < |children|
    ensures k <= children[k].c
  {
    if k == 0 {
    } else {
      RunsBounded(p, s, table, children, n, k - 1);
    }
  }

  /** The run that record `i` is in. */
  lemma RunOf(p: nat, s: seq<Record>, table: Table, children: seq<Child>, n: nat, i: nat) returns (k: nat)
    requires Runs(p, s, table, children, n) && i < n
    ensures k < |children| && children[k].first <= i < children[k].last
    ensures ChildOk(p, s, table, children[k])
  {
    k := 0;
    while children[k].last <= i
      invariant k < |children| && children[k].first <= i
      decreases |children| - k
    {
      k := k + 1;
    }
  }

  /** Each run is the group of its byte. */
  lemma PartitionGroup(p: nat, s: seq<Record>, table: Table, children: seq<Child>, k: nat)
    requires Partition(p, s, table, children) && k < |children|
    ensures ChildOk(p, s, table, children[k])
    ensures Group(s, p, children[k].c) == Slice(s, children[k])
  {
    var ch := children[k];
    forall i | 0 <= i < |s| ensures At(s[i].key, p) == ch.c <==> ch.first <= i < ch.last {
      var l := RunOf(p, s, table, children, |s|, i);
      if l < k {
        RunsAscend(p, s, table, children, |s|, l, k);
      } else if k < l {
        RunsAscend(p, s, table, children, |s|, k, l);
      }
    }
    GroupSlice(s, p, ch.c, ch.first, ch.last);
  }

  /** A byte with records has a child. */
  lemma GroupHasChild(p: nat, s: seq<Record>, table: Table, children: seq<Child>, c: byte) returns (k: nat)
    requires Partition(p, s, table, children) && Group(s, p, c) != []
    ensures k < |children| && children[k].c == c
  {
    var r := Group(s, p, c)[0];
    assert r in Group(s, p, c);
    var i :| 0 <= i < |s| && s[i] == r;
    k := RunOf(p, s, table, children, |s|, i);
  }

  // ----- order

  /** An adjacent pair whose bytes descend shows that the records are out of order. */
  lemma DescentOutOfOrder(p: nat, s: seq<Record>, i: nat)
    requires KeysNulFree(s) && CommonPrefix(s, p)
    requires 0 < i < |s| && At(s[i].key, p) < At(s[i - 1].key, p)
    ensures OutOfOrder(s)
  {
    LexLessByByte(s[i].key, s[i - 1].key, p);
  }

  /** Two records below a NUL arc have the same key. */
  lemma NulRunDuplicates(p: nat, s: seq<Record>, i: nat, j: nat)
    requires KeysNulFree(s) && CommonPrefix(s, p)
    requires i < j < |s| && At(s[i].key, p) == At(s[j].key, p) == 0
    ensures HasDuplicates(s)
  {
    assert s[i].key == s[i].key[..p] && s[j].key == s[j].key[..p];
  }

  /** What is wrong with a part is wrong with the whole. */
  lemma SliceFlaws(s: seq<Record>, lo: nat, hi: nat)
    requires lo <= hi <= |s|
    ensures OutOfOrder(s[lo..hi]) ==> OutOfOrder(s)
    ensures HasDuplicates(s[lo..hi]) ==> HasDuplicates(s)
  {
    var g := s[lo..hi];
    if i, j :| 0 <= i < j < |g| && LexLess(g[j].key, g[i].key) {
      assert LexLess(s[lo + j].key, s[lo + i].key);
    }
    if i, j :| 0 <= i < j < |g| && g[i].key == g[j].key {
      assert s[lo + i].key == s[lo + j].key;
    }
  }

  lemma PairSorted(p: nat, s: seq<Record>, table: Table, children: seq<Child>, i: nat, j: nat)
    requires KeysNulFree(s) && CommonPrefix(s, p) && Partition(p, s, table, children)
    requires forall k :: 0 <= k < |children| ==> ChildOk(p, s, table, children[k]) && Sorted(Slice(s, children[k]))
    requires i < j < |s|
    ensures LexLess(s[i].key, s[j].key)
  {
    var k := RunOf(p, s, table, children, |s|, i);
    var l := RunOf(p, s, table, children, |s|, j);
    if k == l {
      var g := Slice(s, children[k]);
      assert s[i] == g[i - children[k].first] && s[j] == g[j - children[k].first];
    } else {
      if l < k {
        RunsAscend(p, s, table, children, |s|, l, k);
      } else {
        RunsAscend(p, s, table, children, |s|, k, l);
      }
      LexLessByByte(s[i].key, s[j].key, p);
    }
  }

  /** The list is sorted when every run is. */
  lemma RunsSorted(p: nat, s: seq<Record>, table: Table, children: seq<Child>)
    requires KeysNulFree(s) && CommonPrefix(s, p) && Partition(p, s, table, children)
    requires forall k :: 0 <= k < |children| ==> ChildOk(p, s, table, children[k]) && Sorted(Slice(s, children[k]))
    ensures Sorted(s)
  {
    forall i, j | 0 <= i < j < |s| ensures LexLess(s[i].key, s[j].key) {
      PairSorted(p, s, table, children, i, j);
    }
  }

  // ----- the loop that collects the children

  datatype Split = Children(children: seq<Child>) | Descends

  /** The children with the end of the last run filled in. */
  function Closed(children: seq<Child>, n: nat): seq<Child>
    requires children != []
  {
    children[|children| - 1 := children[|children| - 1].(last := n)]
  }

  /** One more record with the byte of the last run. */
  lemma RunExtended(p: nat, s: seq<Record>, table: Table, children: seq<Child>, n: nat)
    requires n < |s| && children != [] && Runs(p, s, table, Closed(children, n), n)
    requires At(s[n].key, p) == children[|children| - 1].c
    ensures Runs(p, s, table, Closed(children, n + 1), n + 1)
  {
    var before, after := Closed(children, n), Closed(children, n + 1);
    forall k | 0 <= k < |after| ensures ChildOk(p, s, table, after[k]) {
      assert ChildOk(p, s, table, before[k]);
    }
    forall k | 0 < k < |after| ensures after[k - 1].last == after[k].first && after[k - 1].c < after[k].c {
      assert before[k - 1].last == before[k].first && before[k - 1].c < before[k].c;
    }
  }

  /** One more record with a higher byte starts a run. */
  lemma RunStarted(p: nat, s: seq<Record>, table: Table, children: seq<Child>, n: nat, ch: Child)
    requires n < |s|
    requires if n == 0 then children == [] else Runs(p, s, table, children, n) && children[|children| - 1].c < ch.c
    requires ch.c == At(s[n].key, p) && ch.offset == Offset(table, ch.c) && ch.first == n
    ensures Runs(p, s, table, Closed(children + [ch], n + 1), n + 1)
  {
    var after := Closed(children + [ch], n + 1);
    assert forall k :: 0 <= k < |children| ==> after[k] == children[k];
    forall k | 0 <= k < |after| ensures ChildOk(p, s, table, after[k]) {
      assert k < |children| ==> ChildOk(p, s, table, children[k]);
    }
    forall k | 0 < k < |after| ensures after[k - 1].last == after[k].first && after[k - 1].c < after[k].c {
      if k < |children| {
        assert children[k - 1].last == children[k].first && children[k - 1].c < children[k].c;
      }
    }
  }

  ghost predicate IsMaxOffset(children: seq<Child>, m: nat) {
    && (forall k :: 0 <= k < |children| ==> children[k].offset <= m)
    && (exists k :: 0 <= k < |children| && children[k].offset == m)
  }

  lemma MaxOffsetClosed(children: seq<Child>, m: nat, n: nat)
    requires children != [] && IsMaxOffset(children, m)
    ensures IsMaxOffset(Closed(children, n), m)
  {
    var k :| 0 <= k < |children| && children[k].offset == m;
    assert Closed(children, n)[k].offset == m;
  }

  lemma MaxOffsetMore(children: seq<Child>, m: nat, ch: Child)
    requires if children == [] then m == 0 else IsMaxOffset(children, m)
    requires 0 < ch.offset
    ensures IsMaxOffset(children + [ch], if m < ch.offset then ch.offset else m)
  {
    if m < ch.offset {
      assert (children + [ch])[|children|].offset == ch.offset;
    } else {
      var k :| 0 <= k < |children| && children[k].offset == m;
      assert (children + [ch])[k].offset == m;
    }
  }

  /** Fails exactly when some byte at depth `p` is below the one before it. */
  method CollectChildren(p: nat, s: seq<Record>, table: Table) returns (r: Split, maxOffset: nat)
    requires s != []
    ensures r.Children? ==> Partition(p, s, table, r.children) && |r.children| <= 256
    ensures r.Children? ==> IsMaxOffset(r.children, maxOffset)
    ensures r.Descends? <==> exists i :: 0 < i < |s| && At(s[i].key, p) < At(s[i - 1].key, p)
  {
    hide Runs, ChildOk, IsMaxOffset, Offset, At;
    var pc: int := -1;
    var children: seq<Child> := [];
    maxOffset := 0;
    for it := 0 to |s|
      invariant it == 0 ==> children == [] && pc == -1
      invariant children != [] ==> IsMaxOffset(children, maxOffset)
      invariant children == [] ==> maxOffset == 0
      invariant it > 0 ==> children != [] && pc == At(s[it - 1].key, p) == children[|children| - 1].c
      invariant it > 0 ==> Runs(p, s, table, Closed(children, it), it)
      invariant forall i :: 0 < i < it ==> At(s[i - 1].key, p) <= At(s[i].key, p)
    {
      var c: byte := At(s[it].key, p);
      if pc < c {
        var offset := Offset(table, c);
        if children != [] {
          MaxOffsetClosed(children, maxOffset, it);
          children := Closed(children, it);
        }
        MaxOffsetMore(children, maxOffset, Child(c, offset, it, 0));
        if maxOffset < offset {
          maxOffset := offset;
        }
        RunStarted(p, s, table, children, it, Child(c, offset, it, 0));
        children := children + [Child(c, offset, it, 0)];
      } else if c < pc {
        return Descends, maxOffset;
      } else {
        RunExtended(p, s, table, children, it);
      }
      pc := c;
    }
    MaxOffsetClosed(children, maxOffset, |s|);
    children := Closed(children, |s|);
    RunsBounded(p, s, table, children, |s|, |children| - 1);
    return Children(children), maxOffset;
  }
}
