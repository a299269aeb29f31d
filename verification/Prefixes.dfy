/** The sorted list an index stands for, as the reader's queries see it: the records
    below a prefix, in order, and one arc of a node as a longer prefix. */
module Prefixes {
  import opened Bytes
  import opened Records
  import opened Cells
  import opened TrieSpec

  /** The records whose key starts with `q`, in order. */
  ghost function WithPrefix(s: seq<Record>, q: bytes): (g: seq<Record>)
    ensures forall r :: r in g <==> r in s && q <= r.key
  {
    if s == [] then []
    else (if q <= s[0].key then [s[0]] else []) + WithPrefix(s[1..], q)
  }

  /** The records whose key is `q`. */
  ghost function WithKey(s: seq<Record>, q: bytes): (g: seq<Record>)
    ensures forall r :: r in g <==> r in s && r.key == q
  {
    if s == [] then []
    else (if s[0].key == q then [s[0]] else []) + WithKey(s[1..], q)
  }

  lemma {:induction false} WithPrefixAll(s: seq<Record>, q: bytes)
    requires forall r :: r in s ==> q <= r.key
    ensures WithPrefix(s, q) == s
  {
    if s == [] {
    } else {
      assert s[0] in s;
      WithPrefixAll(s[1..], q);
    }
  }

  lemma WithPrefixNone(s: seq<Record>, q: bytes)
    requires forall r :: r in s ==> !(q <= r.key)
    ensures WithPrefix(s, q) == []
  {
    if WithPrefix(s, q) != [] {
      assert WithPrefix(s, q)[0] in WithPrefix(s, q);
    }
  }

  /** What is left of the records after the first `p` bytes of the C string `q` led here. */
  ghost function Remaining(s: seq<Record>, q: bytes, p: nat): seq<Record>
    requires p <= |q| + 1
  {
    if p <= |q| then WithPrefix(s, q[..p]) else WithKey(s, q)
  }

  /** Taking the arc of the next byte is asking for one more byte of prefix. */
  lemma {:induction false} GroupRemaining(s: seq<Record>, q: bytes, p: nat)
    requires KeysNulFree(s) && NulFree(q) && p <= |q|
    ensures Group(Remaining(s, q, p), p, At(q, p)) == Remaining(s, q, p + 1)
  {
    if s == [] {
    } else {
      GroupRemaining(s[1..], q, p);
      var r, c := s[0], At(q, p);
      assert s[1..] == s[1..] && [r] + s[1..] == s;
      GroupOne(r, q, p);
      GroupAppend(if q[..p] <= r.key then [r] else [], WithPrefix(s[1..], q[..p]), p, c);
    }
  }

  lemma GroupOne(r: Record, q: bytes, p: nat)
    requires NulFree(r.key) && NulFree(q) && p <= |q|
    ensures var here := if q[..p] <= r.key then [r] else [];
            Group(here, p, At(q, p)) == if p < |q| then (if q[..p + 1] <= r.key then [r] else [])
                                        else (if r.key == q then [r] else [])
  {
    assert Group([r], p, At(q, p)) == if At(r.key, p) == At(q, p) then [r] else [] by {
      assert [r][1..] == [];
    }
    OneMoreByte(r.key, q, p);
  }

  lemma OneMoreByte(k: bytes, q: bytes, p: nat)
    requires NulFree(k) && NulFree(q) && p <= |q|
    ensures q[..p] <= k && At(k, p) == At(q, p) <==> if p < |q| then q[..p + 1] <= k else k == q
  {
    if p < |q| {
      assert q[..p + 1] == q[..p] + [q[p]];
      if p < |k| {
        assert k[..p + 1] == k[..p] + [k[p]];
      }
    } else {
      assert q[..p] == q;
    }
  }

  lemma RemainingShrinks(s: seq<Record>, q: bytes, p: nat)
    requires p <= |q|
    ensures forall r :: r in Remaining(s, q, p + 1) ==> r in Remaining(s, q, p)
  {
    forall r | r in Remaining(s, q, p + 1) ensures r in Remaining(s, q, p) {
      if p < |q| {
        assert q[..p] == q[..p + 1][..p];
      }
    }
  }

  /** Keys are distinct, so a key names one record. */
  lemma WithKeyUnique(s: seq<Record>, q: bytes, r: Record)
    requires Sorted(s) && r in s && r.key == q
    ensures WithKey(s, q) == [r]
  {
    var i :| 0 <= i < |s| && s[i] == r;
    WithKeySplit(s, q, i);
  }

  lemma {:induction false} WithKeySplit(s: seq<Record>, q: bytes, i: nat)
    requires Sorted(s) && i < |s| && s[i].key == q
    ensures WithKey(s, q) == [s[i]]
  {
    if i == 0 {
      if WithKey(s[1..], q) != [] {
        var x := WithKey(s[1..], q)[0];
        assert x in WithKey(s[1..], q);
        var j :| 0 <= j < |s[1..]| && s[1..][j] == x;
        SortedKeysDistinct(s, 0, j + 1);
      }
    } else {
      if s[0].key == q {
        SortedKeysDistinct(s, 0, i);
      }
      WithKeySplit(s[1..], q, i - 1);
    }
  }

  // ----- nodes

  /** A cell with BASE `v` reached at depth `p` by a walk that has `g` left: the node of
      `g`, or a vacant cell when nothing is left. */
  ghost predicate Reached(da: seq<Cell>, tail: bytes, table: Table, v: int, p: nat, g: seq<Record>) {
    if g == [] then v == 0 else IsTrie(da, tail, table, v, p, g)
  }

  /** `trie::descend`. */
  function Descend(da: seq<Cell>, table: Table, i: nat, c: byte): (next: nat)
    requires i < |da|
    ensures next < |da| || next == INVALID
  {
    var base := da[i].base;
    if base <= 0 then INVALID
    else
      var check := table[c];
      var next := base + check as int + 1;
      if |da| <= next then INVALID
      else if da[next].check != check then INVALID
      else next
  }

  lemma TrieArcOf(da: seq<Cell>, tail: bytes, table: Table, v: int, p: nat, s: seq<Record>, c: byte)
    requires IsTrie(da, tail, table, v, p, s) && |s| > 1
    ensures v > 0 && CommonPrefix(s, p) && IsTrieArc(da, tail, table, v, p, s, c)
  {
  }

  /** From the node of `g`, descending reaches the true child, or fails, or lands in a
      vacant cell; the last two exactly when there is no child. From a vacant cell or a
      leaf it fails. */
  lemma DescendReaches(da: seq<Cell>, tail: bytes, table: Table, i: nat, p: nat, g: seq<Record>, c: byte)
    requires i < |da| && Reached(da, tail, table, da[i].base, p, g)
    ensures var next := Descend(da, table, i, c);
            if |g| <= 1 then next == INVALID
            else
              var below := Group(g, p, c);
              (c == 0 ==> |below| <= 1) &&
              if next == INVALID then below == []
              else Reached(da, tail, table, da[next].base, Below(p, c), below)
  {
    SignOfBase(da, tail, table, da[i].base, p, g);
    if |g| > 1 {
      TrieArcOf(da, tail, table, da[i].base, p, g, c);
      hide IsTrie, Group, MaxLen;
      var j := da[i].base + Offset(table, c);
      assert Descend(da, table, i, c) == if j < |da| && da[j].check == table[c] then j else INVALID;
    }
  }

  lemma RootReached(da: seq<Cell>, tail: bytes, table: Table, v: int, s: seq<Record>)
    requires IsTrie(da, tail, table, v, 0, s)
    ensures Reached(da, tail, table, v, 0, WithPrefix(s, []))
  {
    WithPrefixAll(s, []);
  }

  /** A BASE below 0 is a leaf and above 0 an inner node. */
  lemma SignOfBase(da: seq<Cell>, tail: bytes, table: Table, v: int, p: nat, g: seq<Record>)
    requires Reached(da, tail, table, v, p, g)
    ensures v < 0 <==> |g| == 1
    ensures v == 0 <==> g == []
  {
  }
}
