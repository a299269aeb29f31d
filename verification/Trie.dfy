/** `dastrie::trie`: exact lookup, the prefix cursor, and the enumeration of the
    records below a prefix. */
module Tries {
  import opened Bytes
  import opened Records
  import opened Cells
  import opened TrieSpec
  import opened Prefixes
  import opened Tails
  import opened Listing
  import opened Image
  import opened Layouts

  // ----- leaves

  /** At the leaf that the walk along `q` reached at depth `d`, the tail decides
      between its key and `q`, and then has its value. */
  lemma LeafDecides(tail: bytes, v: int, d: nat, r: Record, q: bytes)
    requires IsLeaf(tail, v, d, r) && NulFree(r.key) && NulFree(q)
    requires d <= |q| && q[..d] <= r.key
    ensures HoldsAt(tail, -v, q[d..] + [0]) <==> r.key == q
    ensures r.key == q ==> HoldsAt(tail, -v + |q[d..]| + 1, EncodeValue(r.value))
    ensures 0 < -v < |tail|
  {
    LeafHolds(tail, v, d, r);
    SameString(tail, -v, r.key[d..], q[d..]);
    assert r.key == r.key[..d] + r.key[d..] && q == q[..d] + q[d..];
    assert r.key[..d] == q[..d];
  }

  lemma LeafHolds(tail: bytes, v: int, d: nat, r: Record)
    requires IsLeaf(tail, v, d, r)
    ensures HoldsAt(tail, -v, r.key[d..] + [0])
    ensures HoldsAt(tail, -v + |r.key[d..]| + 1, EncodeValue(r.value))
    ensures 0 < -v < |tail|
  {
    HoldsAtSplit(tail, -v, r.key[d..] + [0], EncodeValue(r.value));
  }

  lemma EndLeaf(tail: bytes, v: int, r: Record)
    requires IsLeaf(tail, v, |r.key|, r)
    ensures 0 < -v < |tail| && HoldsAt(tail, -v, [0]) && HoldsAt(tail, -v + 1, EncodeValue(r.value))
  {
    LeafHolds(tail, v, |r.key|, r);
    assert r.key[|r.key|..] == [] && [] + [0] == [0];
  }

  lemma SingleIsLeaf(da: seq<Cell>, tail: bytes, table: Table, v: int, p: nat, g: seq<Record>)
    requires Reached(da, tail, table, v, p, g) && |g| == 1
    ensures IsLeaf(tail, v, p, g[0]) && NulFree(g[0].key)
  {
  }

  lemma KeyRemains(s: seq<Record>, q: bytes, p: nat, r: Record)
    requires p <= |q| + 1 && r in s && r.key == q
    ensures r in Remaining(s, q, p)
  {
  }

  // ----- the prefix cursor

  datatype CursorStep = Moved | Ended | Broken

  class PrefixCursor {
    var query: bytes
    var length: nat
    var value: Value
    var cur: nat

    constructor (q: bytes)
      ensures query == q && length == 0 && cur == INITIAL
    {
      query, length, value, cur := q, 0, [], INITIAL;
    }
  }

  /** `k` is a prefix of `q` that a cursor at depth `from` has yet to report. A cursor that
      starts on a leaf has not reported the key that ends right there. */
  ghost predicate Ahead(k: bytes, q: bytes, from: nat, onLeaf: bool) {
    k <= q && (from < |k| || (onLeaf && from == |k|))
  }

  /** No such key is shorter than the depth `at`, and one of that length is in the leaf at hand. */
  ghost predicate NoneBefore(s: seq<Record>, q: bytes, from: nat, onLeaf: bool, at: nat, leaf: bool) {
    forall y :: y in s && Ahead(y.key, q, from, onLeaf) ==> at < |y.key| || (leaf && at == |y.key|)
  }

  /** `x` is the shortest of them. */
  ghost predicate Next(s: seq<Record>, q: bytes, from: nat, onLeaf: bool, x: Record) {
    && x in s && Ahead(x.key, q, from, onLeaf)
    && forall y :: y in s && Ahead(y.key, q, from, onLeaf) ==> |x.key| <= |y.key|
  }

  lemma PrefixRemains(s: seq<Record>, q: bytes, p: nat, y: Record)
    requires y in s && y.key <= q && p <= |y.key|
    ensures y in Remaining(s, q, p)
  {
    assert q[..|y.key|] == y.key;
    assert q[..p] == y.key[..p];
  }

  // ----- listing below a prefix

  /** The walk along `q` ends in the tail of a leaf whose key is not `q`. */
  ghost predicate Mismatch(s: seq<Record>, q: bytes) {
    exists p :: 0 <= p < |q| && LeavesTrack(s, q, p)
  }

  /** After `p` bytes of `q` a single record is left, and its key is another one. */
  ghost predicate LeavesTrack(s: seq<Record>, q: bytes, p: nat)
    requires p <= |q|
  {
    var g := WithPrefix(s, q[..p]);
    |g| == 1 && g[0].key != q
  }

  /** The records that `getChildren(q, ...)` lists: those below `q`, but after a mismatch all of them. */
  ghost function Target(s: seq<Record>, q: bytes): seq<Record> {
    if Mismatch(s, q) then s else WithPrefix(s, q)
  }

  /** The depth of the cell that it starts from, when there are several of them. */
  ghost function Depth(s: seq<Record>, q: bytes): nat {
    if Mismatch(s, q) then 0 else |q|
  }

  lemma TargetPrefix(s: seq<Record>, q: bytes)
    ensures CommonPrefix(Target(s, q), Depth(s, q))
    ensures forall r :: r in Target(s, q) ==> r in s
  {
    hide Mismatch;
    if !Mismatch(s, q) {
      var g := WithPrefix(s, q);
      forall i, j | 0 <= i < |g| && 0 <= j < |g|
        ensures |q| <= |g[i].key| && g[i].key[..|q|] == g[j].key[..|q|]
      {
        assert g[i] in g && g[j] in g;
      }
    } else {
      ZeroPrefix(s);
    }
  }

  lemma TargetSorted(s: seq<Record>, q: bytes)
    requires Sorted(s) && KeysNulFree(s)
    ensures Sorted(Target(s, q)) && KeysNulFree(Target(s, q))
  {
    hide Mismatch;
    WithPrefixSorted(s, q);
    var g := WithPrefix(s, q);
    forall i | 0 <= i < |g| ensures NulFree(g[i].key) {
      assert g[i] in g;
    }
  }

  /** The records of which it reports something, if there is no limit. */
  ghost function ListedRecords(s: seq<Record>, q: bytes): seq<Record> {
    Shown(Target(s, q), Target(s, q), Depth(s, q))
  }

  /** What it reports. The key of a single record is given as the query. After a mismatch the
      query stands in front of every key. */
  ghost function Answer(s: seq<Record>, q: bytes): seq<KeyValue> {
    var g := Target(s, q);
    if |g| == 1 then [KeyValue(q, g[0].value)] else Pairs(q, g, Depth(s, q), g)
  }

  /** The pairs as the recursion over the arcs produces them. */
  ghost function Listed(s: seq<Record>, q: bytes, p: nat): seq<KeyValue>
    requires CommonPrefix(s, p)
  {
    if s == [] then []
    else if |s| == 1 then [KeyValue(q, s[0].value)]
    else ListUpTo(q, s, p, 255)
  }

  lemma {:induction false} NestedPrefix(s: seq<Record>, a: bytes, b: bytes)
    requires a <= b
    ensures WithPrefix(WithPrefix(s, a), b) == WithPrefix(s, b)
  {
    hide WithPrefix;
    if s == [] {
      assert WithPrefix(s, a) == [] && WithPrefix(s, b) == [] by {
        WithPrefixNone(s, a);
        WithPrefixNone(s, b);
      }
    } else {
      var k, rest := s[0].key, WithPrefix(s[1..], a);
      NestedPrefix(s[1..], a, b);
      if a <= k {
        PrefixCons(s[0], rest, b);
        WithPrefixStep(s, a);
      } else {
        WithPrefixStep(s, a);
        assert !(b <= k) by {
          PrefixTransitive(a, b, k);
        }
      }
      WithPrefixStep(s, b);
    }
  }

  lemma PrefixTransitive(a: bytes, b: bytes, k: bytes)
    requires a <= b
    ensures b <= k ==> a <= k
  {
    if b <= k {
      assert a == b[..|a|] == k[..|b|][..|a|];
    }
  }

  lemma WithPrefixStep(s: seq<Record>, q: bytes)
    requires s != []
    ensures WithPrefix(s, q) == if q <= s[0].key then [s[0]] + WithPrefix(s[1..], q) else WithPrefix(s[1..], q)
  {
  }

  lemma PrefixCons(x: Record, rest: seq<Record>, b: bytes)
    ensures WithPrefix([x] + rest, b) == (if b <= x.key then [x] else []) + WithPrefix(rest, b)
  {
    assert ([x] + rest)[1..] == rest;
  }

  /** From a point where a single record is left, the rest of the query decides. */
  lemma SingleLeft(s: seq<Record>, q: bytes, p: nat)
    requires p <= |q| && |WithPrefix(s, q[..p])| == 1
    requires forall k :: 0 <= k < p ==> |WithPrefix(s, q[..k])| != 1
    ensures var r := WithPrefix(s, q[..p])[0];
            if r.key == q then !Mismatch(s, q) && WithPrefix(s, q) == [r]
            else p < |q| ==> Mismatch(s, q)
  {
    var g := WithPrefix(s, q[..p]);
    var r := g[0];
    if r.key == q {
      NestedPrefix(s, q[..p], q);
      assert WithPrefix([r], q) == [r] by {
        assert [r][1..] == [];
      }
      forall k | 0 <= k < |q| ensures !LeavesTrack(s, q, k) {
        if k >= p {
          assert q[..p] <= q[..k];
          NestedPrefix(s, q[..p], q[..k]);
          assert WithPrefix([r], q[..k]) == [r] by {
            assert [r][1..] == [];
          }
        }
      }
    } else if p < |q| {
      assert LeavesTrack(s, q, p);
    }
  }

  /** Once nothing is left, nothing is below the query, and it did not leave a leaf's track. */
  lemma NoneLeft(s: seq<Record>, q: bytes, p: nat)
    requires p <= |q| && WithPrefix(s, q[..p]) == []
    requires forall k :: 0 <= k < p ==> |WithPrefix(s, q[..k])| != 1
    ensures !Mismatch(s, q) && WithPrefix(s, q) == []
  {
    NestedPrefix(s, q[..p], q);
    forall k | 0 <= k < |q| ensures !LeavesTrack(s, q, k) {
      if k >= p {
        assert q[..p] <= q[..k];
        NestedPrefix(s, q[..p], q[..k]);
      }
    }
  }

  class Trie {
    const traits: Traits
    var n: nat
    var table: Table
    var da: seq<Cell>
    var tail: ITail
    var hasDa: bool
    var hasTail: bool
    ghost var records: seq<Record>

    /** An empty reader; the table is the identity. */
    constructor (traits: Traits)
      ensures this.traits == traits
      ensures da == [] && n == 0 && fresh(tail) && !hasDa && !hasTail
    {
      this.traits := traits;
      n := 0;
      table := seq(256, (i: nat) requires i < 256 => i);
      da := [];
      tail := new ITail([]);
      hasDa, hasTail := false, false;
      records := [];
    }

    /** The arrays hold `records`, sorted and readable. */
    ghost predicate Valid()
      reads this, tail
    {
      && Sorted(records) && KeysNulFree(records)
      && (forall r :: r in records ==> Encodable(r.value))
      && INITIAL < |da|
      && IsTrie(da, tail.cont, table, da[INITIAL].base, 0, records)
      && 0 < |tail.cont| && tail.cont[0] == 0
    }

    /** The walk along `key` has taken `p` steps and stands on `cur`. */
    ghost predicate At(key: bytes, p: nat, cur: nat)
      reads this, tail
    {
      && p <= |key| + 1 && cur < |da|
      && Reached(da, tail.cont, table, da[cur].base, if p <= |key| then p else |key|, Remaining(records, key, p))
    }

    /** One step of the walk, over the byte after the first `p`. */
    lemma StepAt(key: bytes, p: nat, cur: nat)
      requires Valid() && NulFree(key) && p <= |key| && At(key, p, cur)
      ensures var next := Descend(da, table, cur, Bytes.At(key, p));
              if next == INVALID then Remaining(records, key, p + 1) == [] || |Remaining(records, key, p)| == 1
              else |Remaining(records, key, p)| > 1 && At(key, p + 1, next)
    {
      var g, c := Remaining(records, key, p), Bytes.At(key, p);
      DescendReaches(da, tail.cont, table, cur, p, g, c);
      GroupRemaining(records, key, p);
      RemainingShrinks(records, key, p);
      if g == [] {
        assert Group(g, p, c) == [];
      }
    }

    // ----- reading the file

    ghost function AsFields(): Fields
      reads this, tail
    {
      Fields(table, da, tail.cont, hasDa, hasTail)
    }

    /** Takes the arrays from a memory image; 0 when it is not one. Behind a right header the
        chunks have to lie within the image. */
    method Assign(block: bytes) returns (size: nat)
      requires forall k: nat, total: nat :: Header(block, k, total) ==> Chunked(block, SDAT_CHUNKSIZE, total)
      modifies this, tail
      ensures tail == old(tail)
      ensures forall k: nat, total: nat :: Header(block, k, total) ==>
                && n == k && AsFields() == Parse(traits, block, SDAT_CHUNKSIZE, total, old(AsFields()))
                && size == if hasDa && hasTail then total else 0
      ensures |block| < 16 || block[..4] != [0x53, 0x44, 0x41, 0x54] || !WordAt(block, 8, 16) ==>
        size == 0 && n == old(n) && AsFields() == old(AsFields())
      ensures forall k: nat, table': Table, da': seq<Cell>, tail': bytes ::
                Layout(block, traits, k, table', da', tail') && Fitting(traits, da') ==>
                  && size == |block| && n == k % 0x1_0000_0000
                  && AsFields() == Fields(table', da', tail', true, true)
    {
      hide Layout, Fitting, WordAt, FromLE32, ReadChunk;
      LayoutsParse(block, traits, AsFields());
      HeaderSize(block);
      if |block| < SDAT_CHUNKSIZE {
        return 0;
      }
      var totalSize := FromLE32(block[4..8]);
      if block[..4] != SDAT {
        return 0;
      }
      if FromLE32(block[8..12]) != SDAT_CHUNKSIZE {
        return 0;
      }
      n := FromLE32(block[12..16]);
      assert Header(block, n, totalSize);
      var p := SDAT_CHUNKSIZE;
      while p < totalSize
        invariant tail == old(tail) && n == FromLE32(block[12..16])
        invariant Chunked(block, p, totalSize)
        invariant Parse(traits, block, p, totalSize, AsFields())
               == Parse(traits, block, SDAT_CHUNKSIZE, totalSize, old(AsFields()))
        decreases if p < totalSize then totalSize - p else 0
      {
        var chunkSize := SizeAt(block, p);
        ghost var before := AsFields();
        TakeChunk(block, p);
        assert AsFields() == ReadChunk(traits, block, p, before);
        p := p + chunkSize;
      }
      if !hasDa || !hasTail {
        return 0;
      }
      return totalSize;
    }

    method TakeChunk(block: bytes, p: nat)
      requires p + CHUNKSIZE <= |block| && CHUNKSIZE <= SizeAt(block, p) && p + SizeAt(block, p) <= |block|
      modifies this`table, this`da, this`hasDa, this`hasTail, tail`cont
      ensures AsFields() == ReadChunk(traits, block, p, old(AsFields()))
    {
      var chunk, data := block[p..p + 4], block[p + CHUNKSIZE..p + SizeAt(block, p)];
      if chunk == TBLU {
        if |data| == 256 {
          table := data;
        }
      } else if chunk == traits.ChunkId() {
        assert |data| / traits.Size() * traits.Size() <= |data|;
        da := Unpack(traits, data, |data| / traits.Size());
        hasDa := true;
      } else if chunk == TAIL {
        tail.cont := data;
        hasTail := true;
      }
    }

    /** The position in the key that a walk of `p` steps has reached. */
    static function Pos(key: bytes, p: nat): nat {
      if p <= |key| then p else |key|
    }

    /** A walk that can go no further has no record of that key. */
    lemma NothingLeft(key: bytes, p: nat)
      requires p <= |key| + 1 && Remaining(records, key, p) == []
      ensures forall r :: r in records ==> r.key != key
    {
      forall r | r in records ensures r.key != key {
        if r.key == key {
          KeyRemains(records, key, p, r);
        }
      }
    }

    /** An inner node or a vacant cell: no key ends here; past the NUL, none at all. */
    lemma InnerAnswer(key: bytes, p: nat, cur: nat)
      requires Valid() && NulFree(key) && At(key, p, cur) && da[cur].base >= 0
      ensures |key| < p ==> forall r :: r in records ==> r.key != key
      ensures p <= |key| ==>
                var next := Descend(da, table, cur, Bytes.At(key, p));
                if next == INVALID then forall r :: r in records ==> r.key != key else At(key, p + 1, next)
    {
      hide IsTrie, WithPrefix, WithKey, Reached, Sorted, Remaining;
      SignOfBase(da, tail.cont, table, da[cur].base, Pos(key, p), Remaining(records, key, p));
      if p <= |key| {
        StepAt(key, p, cur);
        if Descend(da, table, cur, Bytes.At(key, p)) == INVALID {
          NothingLeft(key, p + 1);
        }
      } else {
        AfterNul(key, cur);
        NothingLeft(key, p);
      }
    }

    /** A leaf: its tail holds the rest of the key exactly when its record has that key. */
    lemma LeafAnswer(key: bytes, p: nat, cur: nat)
      requires Valid() && NulFree(key) && At(key, p, cur) && da[cur].base < 0
      ensures var rest, offset := key[Pos(key, p)..], -da[cur].base;
              && 0 < offset < |tail.cont|
              && (HoldsAt(tail.cont, offset, rest + [0]) <==> exists r :: r in records && r.key == key)
              && (forall r :: r in records && r.key == key ==>
                    HoldsAt(tail.cont, offset + |rest| + 1, EncodeValue(r.value)))
    {
      hide IsTrie, WithPrefix, WithKey, HoldsAt, Sorted;
      var g := Remaining(records, key, p);
      SignOfBase(da, tail.cont, table, da[cur].base, Pos(key, p), g);
      SingleIsLeaf(da, tail.cont, table, da[cur].base, Pos(key, p), g);
      assert g[0] in g && g[0] in records;
      assert key[..Pos(key, p)] <= g[0].key by {
        assert key[..|key|] == key;
      }
      LeafDecides(tail.cont, da[cur].base, Pos(key, p), g[0], key);
      forall r | r in records && r.key == key ensures r == g[0] {
        KeyRemains(records, key, p, r);
      }
    }

    lemma Start(key: bytes)
      requires Valid()
      ensures At(key, 0, INITIAL)
    {
      RootReached(da, tail.cont, table, da[INITIAL].base, records);
      assert key[..0] == [];
    }

    /** The offset of the value stored under `key`, or 0. */
    method Locate(key: bytes) returns (offset: nat)
      requires Valid() && NulFree(key)
      modifies tail`offset
      ensures offset != 0 <==> exists r :: r in records && r.key == key
      ensures forall r :: r in records && r.key == key ==> HoldsAt(tail.cont, offset, EncodeValue(r.value))
    {
      hide IsTrie, Reached, Remaining, HoldsAt, EncodeValue, StrLen;
      var p, cur := 0, INITIAL;
      Start(key);
      while true
        invariant At(key, p, cur)
        decreases |key| + 1 - p
      {
        var base := da[cur].base;
        if base < 0 {
          offset := -base;
          break;
        }
        InnerAnswer(key, p, cur);
        if |key| < p {
          return 0;
        }
        cur := Descend(da, table, cur, Bytes.At(key, p));
        if cur == INVALID {
          return 0;
        }
        p := p + 1;
      }
      LeafAnswer(key, p, cur);
      if |key| < p {
        p := |key|;
      }
      tail.Seekg(offset);
      var match_ := tail.MatchString(key[p..]);
      if match_ {
        StrLenOf(tail.cont, offset, key[p..]);
        var length := tail.Strlen();
        return offset + length + 1;
      } else {
        return 0;
      }
    }

    /** After the NUL a walk stands on a leaf or in a vacant cell. */
    lemma AfterNul(key: bytes, cur: nat)
      requires Valid() && NulFree(key) && At(key, |key| + 1, cur)
      ensures |Remaining(records, key, |key| + 1)| <= 1
    {
      var g := WithKey(records, key);
      if g != [] {
        assert g[0] in g;
        WithKeyUnique(records, key, g[0]);
      }
    }

    /** Finds the record with this key, and its value. */
    method Find(key: bytes, value: Value) returns (found: bool, r: Value)
      requires Valid() && NulFree(key)
      modifies tail`offset
      ensures found <==> exists x :: x in records && x.key == key
      ensures forall x :: x in records && x.key == key ==> r == x.value
      ensures !found ==> r == value
    {
      var offset := Locate(key);
      if offset != 0 {
        ghost var x :| x in records && x.key == key;
        WithKeyUnique(records, key, x);
        forall y | y in records && y.key == key ensures y == x {
          assert y in WithKey(records, key);
        }
        tail.Seekg(offset);
        r := tail.ReadValue(x.value);
        return true, r;
      } else {
        return false, value;
      }
    }

    // ----- the prefix cursor

    /** A byte further down: either nothing lies that way, or the walk is there. */
    lemma CursorStepsDown(q: bytes, from: nat, onLeaf: bool, at: nat, cur: nat)
      requires Valid() && NulFree(q) && from < |q| && at <= |q|
      requires At(q, at, cur) && da[cur].base >= 0
      requires NoneBefore(records, q, from, onLeaf, at, false)
      ensures var next := Descend(da, table, cur, Bytes.At(q, at));
              if next == INVALID then forall y :: y in records ==> !Ahead(y.key, q, from, onLeaf)
              else At(q, at + 1, next)
      ensures forall y :: y in records && Ahead(y.key, q, from, onLeaf) ==> at + 1 <= |y.key| && y in Remaining(records, q, at + 1)
    {
      SignOfBase(da, tail.cont, table, da[cur].base, Pos(q, at), Remaining(records, q, at));
      StepAt(q, at, cur);
      forall y | y in records && Ahead(y.key, q, from, onLeaf)
        ensures at + 1 <= |y.key| && y in Remaining(records, q, at + 1)
      {
        PrefixRemains(records, q, at + 1, y);
      }
    }

    /** What the arc of NUL out of the node at depth `at` leads to. */
    lemma NulArc(q: bytes, at: nat, cur: nat)
      requires Valid() && NulFree(q) && at <= |q| && At(q, at, cur)
      ensures var next, below := Descend(da, table, cur, 0), WithKey(records, q[..at]);
              && (next == INVALID ==> below == [] || da[cur].base < 0)
              && (next != INVALID ==> da[cur].base > 0 && Reached(da, tail.cont, table, da[next].base, at, below))
    {
      hide IsTrie, Group;
      var next, g, k := Descend(da, table, cur, 0), Remaining(records, q, at), q[..at];
      SignOfBase(da, tail.cont, table, da[cur].base, at, g);
      DescendReaches(da, tail.cont, table, cur, at, g, 0);
      assert k[..at] == k;
      GroupRemaining(records, k, at);
      var below := WithKey(records, k);
      forall r | r in below ensures r in g {
        KeyRemains(records, k, at, r);
      }
      assert below != [] ==> below[0] in below;
    }

    /** A key that ends at a node is a leaf with an empty tail string below its NUL arc. */
    lemma NulLeaf(k: bytes, v: int)
      requires Valid() && NulFree(k) && v != 0 && Reached(da, tail.cont, table, v, |k|, WithKey(records, k))
      ensures v < 0 && -v < |tail.cont| && HoldsAt(tail.cont, -v, [0])
      ensures exists x :: x in records && x.key == k && HoldsAt(tail.cont, -v + 1, EncodeValue(x.value))
    {
      hide IsTrie, WithKey, Reached;
      var below := WithKey(records, k);
      SignOfBase(da, tail.cont, table, v, |k|, below);
      assert below[0] in below;
      WithKeyUnique(records, k, below[0]);
      SingleIsLeaf(da, tail.cont, table, v, |k|, below);
      EndLeaf(tail.cont, v, below[0]);
    }

    /** With no key ending right there, the keys ahead are longer still. */
    lemma NoneHere(q: bytes, from: nat, onLeaf: bool, at: nat)
      requires at < |q| && WithKey(records, q[..at + 1]) == []
      requires NoneBefore(records, q, from, onLeaf, at, false)
      ensures NoneBefore(records, q, from, onLeaf, at + 1, false)
    {
      forall y | y in records && Ahead(y.key, q, from, onLeaf) ensures at + 1 < |y.key| {
        assert y !in WithKey(records, q[..at + 1]);
      }
    }

    /** Past the end of the query the walk is in a vacant cell. */
    lemma CursorPastEnd(q: bytes, from: nat, onLeaf: bool, cur: nat)
      requires Valid() && NulFree(q) && from < |q| && At(q, |q| + 1, cur)
      requires NoneBefore(records, q, from, onLeaf, |q|, false)
      ensures da[cur].base == 0
      ensures forall y :: y in records ==> !Ahead(y.key, q, from, onLeaf)
    {
      var g := WithKey(records, q);
      if g != [] {
        assert g[0] in g;
        assert Ahead(g[0].key, q, from, onLeaf);
        assert false;
      }
    }

    /** At a leaf: the only key still ahead, if any, is the leaf's. */
    lemma CursorOnLeaf(q: bytes, from: nat, onLeaf: bool, at: nat, cur: nat) returns (x: Record)
      requires Valid() && NulFree(q) && from < |q| && from <= at <= |q| + 1
      requires At(q, at, cur) && da[cur].base < 0
      requires from == at ==> onLeaf
      requires NoneBefore(records, q, from, onLeaf, at, true)
      ensures at <= |q| && at <= |x.key| && x in records && NulFree(x.key)
      ensures 0 < -da[cur].base < |tail.cont|
      ensures HoldsAt(tail.cont, -da[cur].base, x.key[at..] + [0])
      ensures HoldsAt(tail.cont, -da[cur].base + |x.key[at..]| + 1, EncodeValue(x.value))
      ensures x.key[at..] <= q[at..] <==> x.key <= q
      ensures x.key <= q ==> Next(records, q, from, onLeaf, x)
      ensures !(x.key <= q) ==> forall y :: y in records ==> !Ahead(y.key, q, from, onLeaf)
    {
      hide IsTrie, WithPrefix, WithKey, HoldsAt, Sorted;
      var g := Remaining(records, q, at);
      SignOfBase(da, tail.cont, table, da[cur].base, Pos(q, at), g);
      SingleIsLeaf(da, tail.cont, table, da[cur].base, Pos(q, at), g);
      x := g[0];
      assert x in g;
      assert at <= |q|;
      LeafHolds(tail.cont, da[cur].base, at, x);
      assert x.key == q[..at] + x.key[at..] && q == q[..at] + q[at..];
      forall y | y in records && Ahead(y.key, q, from, onLeaf) ensures y == x {
        PrefixRemains(records, q, at, y);
      }
    }

    /** The cursor stands on the node that holds the records starting with its prefix. */
    ghost predicate Stands(pfx: PrefixCursor)
      reads this, tail, pfx
    {
      pfx.length <= |pfx.query| && At(pfx.query, pfx.length, pfx.cur)
    }

    /** A cursor for the query, standing on the root. */
    method Prefix(q: bytes) returns (pfx: PrefixCursor)
      requires Valid()
      ensures fresh(pfx) && pfx.query == q && pfx.length == 0 && Stands(pfx) && da[pfx.cur].base != 0
    {
      pfx := new PrefixCursor(q);
      Start(q);
    }

    /** The look-ahead over NUL after a step down to depth `pfx.length + 1`. */
    method LookAhead(pfx: PrefixCursor, ghost from: nat, ghost onLeaf: bool) returns (r: CursorStep)
      requires Valid() && NulFree(pfx.query) && from <= pfx.length < |pfx.query|
      requires At(pfx.query, pfx.length + 1, pfx.cur)
      requires NoneBefore(records, pfx.query, from, onLeaf, pfx.length, false)
      modifies pfx`length, pfx`value, tail`offset
      ensures !r.Broken?
      ensures r.Moved? ==>
        && pfx.length == old(pfx.length) + 1 && da[pfx.cur].base > 0
        && exists x :: Next(records, pfx.query, from, onLeaf, x) && pfx.length == |x.key| && pfx.value == x.value
      ensures r.Ended? ==>
        && pfx.length == old(pfx.length)
        && NoneBefore(records, pfx.query, from, onLeaf, pfx.length + 1, da[pfx.cur].base < 0)
    {
      hide IsTrie, Reached, Remaining, WithKey, HoldsAt, EncodeValue, StrLen, Sorted;
      ghost var q, k := pfx.query, pfx.query[..pfx.length + 1];
      NulArc(q, pfx.length + 1, pfx.cur);
      var cur := Descend(da, table, pfx.cur, 0);
      if cur != INVALID {
        var base := da[cur].base;
        if base != 0 {
          NulLeaf(k, base);
          if 0 <= base {
            return Broken;
          }
          ghost var x :| x in records && x.key == k && HoldsAt(tail.cont, -base + 1, EncodeValue(x.value));
          assert [] + [0] == [0];
          StrLenOf(tail.cont, -base, []);
          tail.Seekg(-base);
          var length := tail.Strlen();
          if length != 0 {
            return Broken;
          }
          pfx.length := pfx.length + 1;
          ValueInside(tail.cont, -base + 1, x.value);
          tail.Seekg(-base + 1);
          pfx.value := tail.ReadValue(x.value);
          assert Next(records, q, from, onLeaf, x);
          return Moved;
        }
        SignOfBase(da, tail.cont, table, base, |k|, WithKey(records, k));
      }
      if da[pfx.cur].base >= 0 {
        NoneHere(q, from, onLeaf, pfx.length);
      }
      return Ended;
    }

    /** The end of the walk at a leaf: its tail must be a prefix of the rest of the query. */
    method MatchLeaf(pfx: PrefixCursor, ghost from: nat, ghost onLeaf: bool) returns (r: CursorStep)
      requires Valid() && NulFree(pfx.query) && from < |pfx.query| && from <= pfx.length <= |pfx.query| + 1
      requires At(pfx.query, pfx.length, pfx.cur) && da[pfx.cur].base < 0
      requires from == pfx.length ==> onLeaf
      requires NoneBefore(records, pfx.query, from, onLeaf, pfx.length, true)
      modifies pfx`length, pfx`value, tail`offset
      ensures !r.Broken?
      ensures r.Moved? ==>
        exists x :: Next(records, pfx.query, from, onLeaf, x) && pfx.length == |x.key| && pfx.value == x.value
      ensures r.Ended? ==> forall y :: y in records ==> !Ahead(y.key, pfx.query, from, onLeaf)
    {
      hide IsTrie, Reached, Remaining, WithKey, HoldsAt, EncodeValue, StrLen, Next, Sorted;
      var q := pfx.query;
      var offset := -da[pfx.cur].base;
      ghost var at := pfx.length;
      if |q| < pfx.length {
        pfx.length := |q|;
      }
      ghost var x := CursorOnLeaf(q, from, onLeaf, at, pfx.cur);
      tail.Seekg(offset);
      ghost var rest := x.key[pfx.length..];
      var match_ := tail.MatchStringPartial(q[pfx.length..], rest);
      if match_ {
        StrLenOf(tail.cont, offset, rest);
        var postfixSize := tail.Strlen();
        pfx.length := pfx.length + postfixSize;
        ValueInside(tail.cont, offset + postfixSize + 1, x.value);
        tail.Seekg(offset + postfixSize + 1);
        pfx.value := tail.ReadValue(x.value);
        return Moved;
      }
      return Ended;
    }

    /** Moves on to the shortest stored key ahead of the cursor that is a prefix of the
        query, if there is one. The two exceptions of the source never happen. */
    method NextPrefix(pfx: PrefixCursor) returns (r: CursorStep)
      requires Valid() && NulFree(pfx.query) && Stands(pfx) && da[pfx.cur].base != 0
      modifies pfx`length, pfx`value, pfx`cur, tail`offset
      ensures !r.Broken?
      ensures r.Moved? ==>
        && old(pfx.length) < |pfx.query| && pfx.cur < |da| && (da[pfx.cur].base > 0 ==> Stands(pfx))
        && exists x :: Next(records, pfx.query, old(pfx.length), da[old(pfx.cur)].base < 0, x)
             && pfx.length == |x.key| && pfx.value == x.value
      ensures r.Ended? && old(pfx.length) < |pfx.query| ==>
        forall y :: y in records ==> !Ahead(y.key, pfx.query, old(pfx.length), da[old(pfx.cur)].base < 0)
    {
      hide IsTrie, Reached, Remaining, WithKey;
      var q := pfx.query;
      ghost var from, onLeaf := pfx.length, da[pfx.cur].base < 0;
      if |q| <= pfx.length {
        return Ended;
      }
      while true
        invariant from <= pfx.length <= |q| + 1 && At(q, pfx.length, pfx.cur)
        invariant from == pfx.length ==> (onLeaf <==> da[pfx.cur].base < 0)
        invariant NoneBefore(records, q, from, onLeaf, pfx.length, da[pfx.cur].base < 0)
        decreases |q| + 1 - pfx.length
      {
        var base := da[pfx.cur].base;
        if base < 0 {
          break;
        }
        if |q| < pfx.length {
          return Ended;
        }
        CursorStepsDown(q, from, onLeaf, pfx.length, pfx.cur);
        pfx.cur := Descend(da, table, pfx.cur, Bytes.At(q, pfx.length));
        if pfx.cur == INVALID {
          return Ended;
        }
        if pfx.length < |q| {
          r := LookAhead(pfx, from, onLeaf);
          if !r.Ended? {
            return;
          }
        } else {
          CursorPastEnd(q, from, onLeaf, pfx.cur);
          assert Descend(da, table, pfx.cur, 0) == INVALID;  // so the look-ahead finds nothing
        }
        pfx.length := pfx.length + 1;
      }
      r := MatchLeaf(pfx, from, onLeaf);
    }

    // ----- listing below a prefix

    /** Where `getChildren` starts: a cell that stands for the records to list, the root
        after a mismatch, or no cell or a vacant one when there are none. */
    ghost predicate StartsAt(key: bytes, cur: nat)
      reads this, tail
    {
      var g := Target(records, key);
      && (cur == INVALID ==> g == [])
      && cur < |da|
      && (cur != INVALID ==> exists p :: 0 <= p <= |key| && (|g| > 1 ==> p == if Mismatch(records, key) then 0 else |key|)
                               && Reached(da, tail.cont, table, da[cur].base, p, g))
    }

    lemma StartsAtRoot(key: bytes)
      requires Valid() && Mismatch(records, key)
      ensures StartsAt(key, INITIAL)
    {
      assert Reached(da, tail.cont, table, da[INITIAL].base, 0, Target(records, key));
    }

    lemma StartsHere(key: bytes, p: nat, cur: nat)
      requires Valid() && p <= |key| && At(key, p, cur) && cur != INVALID
      requires forall k :: 0 <= k < p ==> |Remaining(records, key, k)| != 1
      requires p == |key| || (da[cur].base < 0 && Remaining(records, key, p)[0].key == key)
      ensures StartsAt(key, cur)
    {
      hide IsTrie, WithPrefix, Sorted;
      var g := WithPrefix(records, key[..p]);
      assert forall k :: 0 <= k < p ==> Remaining(records, key, k) == WithPrefix(records, key[..k]);
      SignOfBase(da, tail.cont, table, da[cur].base, p, g);
      if p < |key| {
        SingleLeft(records, key, p);
        assert Target(records, key) == g;
      } else {
        assert key[..p] == key;
        forall k | 0 <= k < |key| ensures !LeavesTrack(records, key, k) {
        }
        assert Target(records, key) == g;
      }
    }

    lemma StartsNowhere(key: bytes, p: nat)
      requires Valid() && p < |key| && Remaining(records, key, p + 1) == []
      requires forall k :: 0 <= k <= p ==> |Remaining(records, key, k)| != 1
      ensures StartsAt(key, INVALID)
    {
      forall k | 0 <= k < p + 1 ensures |WithPrefix(records, key[..k])| != 1 {
        assert Remaining(records, key, k) == WithPrefix(records, key[..k]);
      }
      NoneLeft(records, key, p + 1);
    }

    lemma LeafOffTrack(key: bytes, p: nat, cur: nat)
      requires Valid() && NulFree(key) && p < |key| && At(key, p, cur) && da[cur].base < 0
      requires forall k :: 0 <= k < p ==> |Remaining(records, key, k)| != 1
      ensures 0 < -da[cur].base < |tail.cont|
      ensures |Remaining(records, key, p)| == 1
      ensures HoldsAt(tail.cont, -da[cur].base, key[p..] + [0]) <==> Remaining(records, key, p)[0].key == key
      ensures Remaining(records, key, p)[0].key != key ==> Mismatch(records, key)
    {
      hide IsTrie, WithPrefix, Mismatch;
      var g := Remaining(records, key, p);
      SignOfBase(da, tail.cont, table, da[cur].base, p, g);
      SingleIsLeaf(da, tail.cont, table, da[cur].base, p, g);
      assert g[0] in g;
      LeafDecides(tail.cont, da[cur].base, p, g[0], key);
      assert forall k :: 0 <= k < p ==> Remaining(records, key, k) == WithPrefix(records, key[..k]);
      SingleLeft(records, key, p);
    }

    method LocateEx(key: bytes) returns (cur: nat)
      requires Valid() && NulFree(key)
      ensures StartsAt(key, cur)
      ensures INITIAL < |da| && (cur == INVALID <==> Walk(INITIAL, key, 0) == INVALID)
    {
      hide IsTrie, Reached, Remaining, StartsAt, Target, WithPrefix, Mismatch;
      var p, offset: nat := 0, 0;
      cur := INITIAL;
      Start(key);
      var tmp := new ITail.Copy(tail);
      while p < |key|
        invariant p <= |key| && At(key, p, cur) && cur != INVALID
        invariant forall k :: 0 <= k < p ==> |Remaining(records, key, k)| != 1
        invariant Walk(INITIAL, key, 0) == Walk(cur, key, p)
        invariant tmp.cont == tail.cont && fresh(tmp)
      {
        var base := da[cur].base;
        SignOfBase(da, tail.cont, table, base, p, Remaining(records, key, p));
        if base < 0 {
          offset := -base;
          break;
        }
        StepAt(key, p, cur);
        cur := Descend(da, table, cur, Bytes.At(key, p));
        if cur == INVALID {
          StartsNowhere(key, p);
          return cur;
        }
        p := p + 1;
      }
      tmp.Seekg(offset);
      ghost var atLeaf := p < |key|;
      if p < |key| {
        LeafOffTrack(key, p, cur);
      } else {
        SentinelMatches(key[p..]);
      }
      var match_ := tmp.MatchString(key[p..]);
      if match_ {
        StartsHere(key, p, cur);
        return cur;
      } else {
        StartsAtRoot(key);
        return INITIAL;
      }
    }

    /** A query used up on its way matches the NUL that the tail begins with. */
    lemma SentinelMatches(rest: bytes)
      requires Valid() && rest == []
      ensures HoldsAt(tail.cont, 0, rest + [0]) && 0 < |tail.cont|
    {
      assert tail.cont[0..1] == [0];
    }

    /** A cell that stands for `g` at depth `p`, or no cell when `g` is empty. */
    ghost predicate Holds(cur: nat, p: nat, g: seq<Record>)
      reads this, tail
    {
      && cur < |da| && CommonPrefix(g, p) && (forall r :: r in g ==> r in records)
      && if cur == INVALID then g == [] else Reached(da, tail.cont, table, da[cur].base, p, g)
    }

    /** The child over the arc of byte `c`. */
    lemma HoldsBelow(cur: nat, p: nat, g: seq<Record>, c: byte)
      requires Valid() && Holds(cur, p, g) && cur != INVALID
      ensures var next := Descend(da, table, cur, c);
              if |g| <= 1 then next == INVALID
              else
                var below := Group(g, p, c);
                && (c == 0 ==> |below| <= 1) && (next == INVALID ==> below == [])
                && Holds(next, Below(p, c), below)
                && (below != [] ==> MaxLen(below) - Below(p, c) <= MaxLen(g) - p && |below| <= |g|
                                    && p <= MaxLen(g) && (c != 0 ==> MaxLen(below) - Below(p, c) < MaxLen(g) - p))
    {
      DescendReaches(da, tail.cont, table, cur, p, g, c);
      if |g| > 1 {
        var below := Group(g, p, c);
        GroupPrefix(g, p, c);
        if below != [] {
          assert below[0] in below && below[0] in g;
        }
        assert g[0] in g;
      }
    }

    /** The leaf of a single record, ready to be read. */
    lemma HoldsLeaf(cur: nat, p: nat, g: seq<Record>)
      requires Valid() && Holds(cur, p, g) && cur != INVALID
      ensures da[cur].base < 0 <==> |g| == 1
      ensures |g| == 1 ==>
                && 0 < -da[cur].base < |tail.cont| && p <= |g[0].key| && NulFree(g[0].key[p..]) && Encodable(g[0].value)
                && HoldsAt(tail.cont, -da[cur].base, g[0].key[p..] + [0])
                && HoldsAt(tail.cont, -da[cur].base + |g[0].key[p..]| + 1, EncodeValue(g[0].value))
    {
      SignOfBase(da, tail.cont, table, da[cur].base, p, g);
      if |g| == 1 {
        SingleIsLeaf(da, tail.cont, table, da[cur].base, p, g);
        LeafHolds(tail.cont, da[cur].base, p, g[0]);
        assert g[0] in g;
      }
    }

    /** What the tail holds for the leaf of `r` at depth `p`: the rest of the key, and the value. */
    method ReadLeaf(base: int, ghost p: nat, ghost r: Record) returns (strTail: bytes, value: Value)
      requires 0 < -base < |tail.cont| && p <= |r.key| && NulFree(r.key[p..]) && Encodable(r.value)
      requires HoldsAt(tail.cont, -base, r.key[p..] + [0])
      requires HoldsAt(tail.cont, -base + |r.key[p..]| + 1, EncodeValue(r.value))
      ensures strTail == r.key[p..] && value == r.value
    {
      hide HoldsAt, EncodeValue, Encodable, NulFree;
      var tmp := new ITail.Copy(tail);
      tmp.Seekg(-base);
      strTail := tmp.ReadString(r.key[p..]);
      value := tmp.ReadValue(r.value);
    }

    /** Lists what hangs below `cur`, at most `n` pairs; `pre` is the key collected so far. */
    method GetChildrenRecursive(cur: nat, out: seq<KeyValue>, n: int, pre: bytes, ghost p: nat, ghost g: seq<Record>)
      returns (out': seq<KeyValue>, n': int, pre': bytes)
      requires Valid() && Holds(cur, p, g)
      ensures var e := if |g| > 1 then Take(ListUpTo(pre, g, p, 255), n) else [];
              out' == out + e && n' == n - |e|
      ensures |pre'| >= |pre| && (n' > 0 ==> pre' == pre)
      decreases if g == [] then 0 else MaxLen(g) - p + 1, |g|, 1
    {
      hide Valid, Holds, ListUpTo, ListArc, Take, MaxLen;
      out', n', pre' := out, n, pre;
      if cur == INVALID || n <= 0 {
        InvalidHolds(cur, p, g);
        TakeNone(if |g| > 1 then ListUpTo(pre, g, p, 255) else [], n);
        return;
      }
      HoldsPrefix(cur, p, g);
      var c := 0;
      ListUpToNone(pre, g, p, n);
      while c < 255 && n' > 0
        invariant 0 <= c <= 255
        invariant |pre'| >= |pre| && (n' > 0 ==> pre' == pre)
        invariant var e := if |g| > 1 then Take(ListUpTo(pre, g, p, c), n) else [];
                  out' == out + e && n' == n - |e|
      {
        ghost var before := n';
        out', n', pre' := ListOneArc(cur, c, out', n', pre', p, g);
        if |g| > 1 {
          ListUpToStep(pre, g, p, c);
          TakeStep(ListUpTo(pre, g, p, c), ListArc(pre, g, p, c), n);
        }
        c := c + 1;
      }
      if |g| > 1 && c < 255 {
        ListUpToExtends(pre, g, p, c);
        TakeFull(ListUpTo(pre, g, p, c), ListUpTo(pre, g, p, 255), n);
      }
    }

    lemma InvalidHolds(cur: nat, p: nat, g: seq<Record>)
      requires Holds(cur, p, g)
      ensures CommonPrefix(g, p) && (cur == INVALID ==> g == [])
    {
    }

    lemma HoldsPrefix(cur: nat, p: nat, g: seq<Record>)
      requires Holds(cur, p, g)
      ensures CommonPrefix(g, p) && cur < |da|
    {
    }

    /** One turn of the loop over the bytes. */
    method ListOneArc(cur: nat, c: byte, out: seq<KeyValue>, n: int, pre: bytes, ghost p: nat, ghost g: seq<Record>)
      returns (out': seq<KeyValue>, n': int, pre': bytes)
      requires Valid() && Holds(cur, p, g) && cur != INVALID && n > 0 && cur < |da| && CommonPrefix(g, p)
      ensures var e := if |g| > 1 then Take(ListArc(pre, g, p, c), n) else [];
              out' == out + e && n' == n - |e|
      ensures |pre'| >= |pre| && (n' > 0 ==> pre' == pre)
      decreases if g == [] then 0 else MaxLen(g) - p + 1, |g|, 0
    {
      hide Valid, Holds, ListUpTo, ListArc, Take, MaxLen;
      out', n', pre' := out, n, pre;
      HoldsBelow(cur, p, g, c);
      var next := Descend(da, table, cur, c);
      if next == INVALID {
        if |g| > 1 {
          ListArcCases(pre, g, p, c, n);
        }
        return;
      }
      ghost var below, q := Group(g, p, c), Below(p, c);
      ListArcCases(pre, g, p, c, n);
      pre' := pre' + [c];
      HoldsLeaf(next, q, below);
      var base := da[next].base;
      if base < 0 {
        var strTail, value := ReadLeaf(base, q, below[0]);
        out' := out' + [KeyValue(pre' + strTail, value)];
        n' := n' - 1;
      }
      if n' <= 0 {
        return;
      }
      out', n', pre' := GetChildrenRecursive(next, out', n', pre', q, below);
      pre' := pre'[..|pre'| - 1];
    }

    lemma StartHolds(key: bytes, cur: nat) returns (p: nat)
      requires Valid() && StartsAt(key, cur)
      ensures Holds(cur, p, Target(records, key))
      ensures |Target(records, key)| > 1 ==> p == Depth(records, key)
    {
      TargetPrefix(records, key);
      var g := Target(records, key);
      if cur == INVALID {
        p := 0;
        ZeroPrefix(g);
      } else {
        p :| 0 <= p <= |key| && (|g| > 1 ==> p == if Mismatch(records, key) then 0 else |key|)
             && Reached(da, tail.cont, table, da[cur].base, p, g);
      }
    }

    /** The cell at the end of the walk from `cur` along the rest of `key`: where the key is used
        up, a leaf, or none. */
    ghost function Walk(cur: nat, key: bytes, p: nat): (end: nat)
      requires cur < |da| && p <= |key|
      reads this
      ensures end < |da|
      decreases |key| - p
    {
      if p == |key| || da[cur].base < 0 then cur
      else
        var next := Descend(da, table, cur, key[p]);
        if next == INVALID then INVALID else Walk(next, key, p + 1)
    }

    /** Cell `j` is the child of cell `i` over the arc of byte `c`. */
    ghost predicate ChildOf(i: nat, c: byte, j: nat)
      reads this
    {
      && i < |da| && j < |da| && da[i].base > 0
      && j == da[i].base + table[c] as int + 1 && da[j].check == table[c]
    }

    /** Cells along the rest of `key` from position `p` on, each the child of the one before it; the
        last is no leaf and has no child over the byte that follows. */
    ghost predicate DeadEnd(key: bytes, p: nat, t: seq<nat>)
      reads this
      decreases |t|
    {
      && t != [] && t[0] < |da| && p < |key|
      && if |t| == 1 then da[t[0]].base >= 0 && forall j :: !ChildOf(t[0], key[p], j)
         else ChildOf(t[0], key[p], t[1]) && DeadEnd(key, p + 1, t[1..])
    }

    /** There are such cells from the root on, along a part of the key. */
    ghost predicate FallsOff(key: bytes)
      reads this
    {
      exists t :: DeadEnd(key, 0, t) && t[0] == 1
    }

    lemma DescendsTo(cur: nat, c: byte)
      requires cur < |da|
      ensures var next := Descend(da, table, cur, c);
              if next == INVALID then forall j :: !ChildOf(cur, c, j) else forall j :: ChildOf(cur, c, j) <==> j == next
    {
    }

    lemma {:induction false} WalkStops(cur: nat, key: bytes, p: nat) returns (t: seq<nat>)
      requires cur < |da| && cur != INVALID && p <= |key| && Walk(cur, key, p) == INVALID
      ensures DeadEnd(key, p, t) && t[0] == cur
      decreases |key| - p
    {
      hide Descend, ChildOf;
      DescendsTo(cur, key[p]);
      var next := Descend(da, table, cur, key[p]);
      if next == INVALID {
        t := [cur];
      } else {
        var rest := WalkStops(next, key, p + 1);
        t := [cur] + rest;
        assert t[1..] == rest;
      }
    }

    lemma {:induction false} StopsWalk(key: bytes, p: nat, t: seq<nat>)
      requires DeadEnd(key, p, t)
      ensures p < |key| && t[0] < |da| && Walk(t[0], key, p) == INVALID
      decreases |t|
    {
      hide Descend;
      DescendsTo(t[0], key[p]);
      assert ChildOf(t[0], key[p], Descend(da, table, t[0], key[p])) <==> |t| > 1;
      if |t| > 1 {
        StopsWalk(key, p + 1, t[1..]);
      }
    }

    /** The walk ends nowhere exactly when the cells along the query come to a dead end. */
    lemma WalkFails(key: bytes)
      requires INITIAL < |da|
      ensures Walk(INITIAL, key, 0) == INVALID <==> FallsOff(key)
    {
      hide Walk;
      if Walk(INITIAL, key, 0) == INVALID {
        var t := WalkStops(INITIAL, key, 0);
      }
      if FallsOff(key) {
        var t :| DeadEnd(key, 0, t) && t[0] == 1;
        StopsWalk(key, 0, t);
      }
    }

    lemma ValidSorted()
      requires Valid()
      ensures Sorted(records) && KeysNulFree(records) && INITIAL < |da|
    {
    }

    /** Appends what is listed below `key`, at most `n` pairs. The answer is false exactly when
        the walk along `key` falls off the trie. */
    method GetChildren(key: bytes, out: seq<KeyValue>, n: int) returns (ok: bool, out': seq<KeyValue>)
      requires Valid() && NulFree(key)
      ensures out' == out + Take(Answer(records, key), n)
      ensures !ok <==> n > 0 && FallsOff(key)
      ensures !ok ==> Answer(records, key) == [] && out' == out
    {
      hide Valid, StartsAt, Holds, Target, ListUpTo, Depth, Take, CommonPrefix, IsTrie, Answer, Walk, Mismatch,
           FallsOff;
      TargetPrefix(records, key);
      ValidSorted();
      WalkFails(key);
      ListedIs(records, key);
      ghost var g, d := Target(records, key), Depth(records, key);
      if n <= 0 {
        TakeNone(Listed(g, key, d), n);
        return true, out;
      }
      var cur := LocateEx(key);
      ghost var p := StartHolds(key, cur);
      HoldsPrefix(cur, p, g);
      if cur != INVALID {
        out' := out;
        var count := n;
        HoldsLeaf(cur, p, g);
        ListedCases(g, key, d, n);
        var base := da[cur].base;
        if base < 0 {
          var strTail, value := ReadLeaf(base, p, g[0]);
          out' := out' + [KeyValue(key, value)];
          count := count - 1;
        }
        var strCurrentKey := key;
        out', count, strCurrentKey := GetChildrenRecursive(cur, out', count, strCurrentKey, p, g);
        return true, out';
      } else {
        InvalidHolds(cur, p, g);
        TakeNone(Listed(g, key, d), n);
        NoneListed(records, key);
        return false, out;
      }
    }
  }

  lemma NoneListed(s: seq<Record>, q: bytes)
    requires Target(s, q) == []
    ensures Answer(s, q) == []
  {
    hide Target;
  }

  lemma ListedCases(g: seq<Record>, q: bytes, d: nat, n: int)
    requires CommonPrefix(g, d) && n > 0
    ensures Take(Listed(g, q, d), n) ==
            if g == [] then [] else if |g| == 1 then [KeyValue(q, g[0].value)] else Take(ListUpTo(q, g, d, 255), n)
  {
  }

  /** The recursion over the arcs produces the answer. */
  lemma ListedIs(s: seq<Record>, q: bytes)
    requires Sorted(s) && KeysNulFree(s)
    ensures CommonPrefix(Target(s, q), Depth(s, q))
    ensures Listed(Target(s, q), q, Depth(s, q)) == Answer(s, q)
  {
    hide Target, Depth, ListUpTo, Mismatch;
    TargetPrefix(s, q);
    TargetSorted(s, q);
    var g := Target(s, q);
    if |g| > 1 {
      ListsPairs(q, g, Depth(s, q));
    } else if g == [] {
      PairsNone(q, g, Depth(s, q), g);
    }
  }

  lemma ShownAlone(r: Record, p: nat)
    ensures !Hidden(r, [r], p) && Shown([r], [r], p) == [r]
  {
    ShownAll([r], [r], p);
  }

  /** The values in an answer are those of the records listed, in dictionary order. */
  lemma AnswerValues(s: seq<Record>, q: bytes, n: int)
    ensures |Answer(s, q)| == |ListedRecords(s, q)|
    ensures Values(Take(Answer(s, q), n)) == Take(RecordValues(ListedRecords(s, q)), n)
  {
    hide Target, Depth, Hidden, Shown, Report;
    var g, d := Target(s, q), Depth(s, q);
    if |g| == 1 {
      assert g == [g[0]];
      ShownAlone(g[0], d);
    } else {
      ReportValues(q, g, d, Shown(g, g, d));
    }
    TakeValues(Answer(s, q), n);
  }

  /** A record is reported under its own key just when it is the only one and its key is the
      query, or there are others, the walk stays on the track, and no other key goes on where
      this one ends. */
  lemma KeyReported(s: seq<Record>, q: bytes, i: nat)
    requires i < |ListedRecords(s, q)|
    ensures |Answer(s, q)| == |ListedRecords(s, q)|
    ensures var r, g := ListedRecords(s, q)[i], Target(s, q);
            Answer(s, q)[i].key == r.key <==>
            if |g| == 1 then r.key == q else !Mismatch(s, q) && !EndsInside(r, g)
  {
    AnswerValues(s, q, 0);
    hide Hidden, EndsInside, Target, Mismatch;
    var g, d, r := Target(s, q), Depth(s, q), ListedRecords(s, q)[i];
    if |g| == 1 {
      assert g == [g[0]];
      ShownAlone(g[0], d);
    } else {
      assert r in ListedRecords(s, q) && r in g;
      assert Answer(s, q)[i] == Report(q, g, d, r);
      hide Report;
      if Mismatch(s, q) {
        MismatchLength(s, q);
        KeyBehind(q, g, r);
      } else {
        TargetBelow(s, q, r);
        KeyBelow(q, g, r);
      }
    }
  }

  lemma KeyBelow(q: bytes, g: seq<Record>, r: Record)
    requires q <= r.key
    ensures Report(q, g, |q|, r).key == r.key <==> !EndsInside(r, g)
  {
    hide EndsInside;
    assert q + r.key[|q|..] == r.key;
  }

  lemma KeyBehind(q: bytes, g: seq<Record>, r: Record)
    requires q != []
    ensures Report(q, g, 0, r).key != r.key
  {
    hide EndsInside;
    assert |Report(q, g, 0, r).key| > |r.key|;
  }

  lemma MismatchLength(s: seq<Record>, q: bytes)
    requires Mismatch(s, q)
    ensures q != []
  {
  }

  lemma TargetBelow(s: seq<Record>, q: bytes, r: Record)
    requires r in Target(s, q) && !Mismatch(s, q)
    ensures q <= r.key
  {
    hide Mismatch;
  }

  lemma TakeValues(e: seq<KeyValue>, n: int)
    ensures Values(Take(e, n)) == Take(Values(e), n)
  {
  }

  lemma TakeNone<T>(e: seq<T>, n: int)
    requires n <= 0 || e == []
    ensures Take(e, n) == []
  {
  }

  lemma ListUpToNone(pre: bytes, g: seq<Record>, p: nat, n: int)
    requires CommonPrefix(g, p)
    ensures Take(ListUpTo(pre, g, p, 0), n) == []
  {
  }

  /** Taking goes on while there is room. */
  lemma TakeStep<T>(a: seq<T>, b: seq<T>, n: int)
    requires n - |Take(a, n)| > 0
    ensures Take(a + b, n) == Take(a, n) + Take(b, n - |Take(a, n)|)
  {
    TakeConcat(a, b, n);
  }

  lemma TakeFull<T>(a: seq<T>, b: seq<T>, n: int)
    requires a <= b && n - |Take(a, n)| <= 0
    ensures Take(a, n) == Take(b, n)
  {
  }

  /** What one arc contributes, with room for at least one pair. */
  lemma ListArcCases(pre: bytes, g: seq<Record>, p: nat, c: byte, n: int)
    requires CommonPrefix(g, p) && n > 0
    ensures var below := Group(g, p, c);
            CommonPrefix(below, Below(p, c)) &&
            Take(ListArc(pre, g, p, c), n) ==
            if below == [] then []
            else if |below| == 1 then [KeyValue(pre + [c] + below[0].key[Below(p, c)..], below[0].value)]
            else if c == 0 then []
            else Take(ListUpTo(pre + [c], below, Below(p, c), 255), n)
  {
    GroupPrefix(g, p, c);
  }

  // ----- when the records listed are those below the query

  /** What the keys have to be like for `getChildren(q, ...)` to list exactly the records below
      `q`: if the walk stays on the track, no key below `q` runs through an arc of byte 255 past
      `q`; if it leaves the track, just the keys that do not start with `q` run through such an
      arc somewhere. */
  ghost predicate ListsBelow(s: seq<Record>, q: bytes) {
    if Mismatch(s, q) then forall r :: r in s ==> (q <= r.key <==> !Hidden(r, s, 0))
    else forall r :: r in s && q <= r.key ==> !Hidden(r, s, |q|)
  }

  lemma ListsExactly(s: seq<Record>, q: bytes)
    ensures ListedRecords(s, q) == WithPrefix(s, q) <==> ListsBelow(s, q)
  {
    hide Mismatch, Hidden;
    if Mismatch(s, q) {
      if ListsBelow(s, q) {
        ShownBelow(s, s, q);
      } else {
        var r :| r in s && !(q <= r.key <==> !Hidden(r, s, 0));
        assert r in Shown(s, s, 0) <==> r !in WithPrefix(s, q);
      }
    } else {
      var g := WithPrefix(s, q);
      ShownAll(g, g, |q|);
      forall r | r in g ensures Hidden(r, g, |q|) <==> Hidden(r, s, |q|) {
        HiddenPast(r, s, q);
      }
    }
  }

  lemma {:induction false} ShownBelow(t: seq<Record>, s: seq<Record>, q: bytes)
    requires forall r :: r in t ==> (q <= r.key <==> !Hidden(r, s, 0))
    ensures Shown(t, s, 0) == WithPrefix(t, q)
  {
    hide Hidden;
    if t == [] {
    } else {
      assert t[0] in t;
      ShownBelow(t[1..], s, q);
    }
  }

  /** A key from which another one splits past `q` splits from one that starts with `q`. */
  lemma HiddenPast(r: Record, s: seq<Record>, q: bytes)
    requires r in s && q <= r.key
    ensures Hidden(r, s, |q|) <==> Hidden(r, WithPrefix(s, q), |q|)
  {
    hide WithPrefix;
    if Hidden(r, s, |q|) {
      var b, d: nat :| b in s && SplitsAt255(r, b, |q|, d);
      assert q == r.key[..d][..|q|] == b.key[..d][..|q|];
      assert b in WithPrefix(s, q);
    }
  }

  /** No key has byte 255. */
  ghost predicate Plain(s: seq<Record>) {
    forall r, i :: r in s && 0 <= i < |r.key| ==> r.key[i] != 255
  }

  lemma PlainShown(s: seq<Record>, q: bytes)
    requires Plain(s)
    ensures ListedRecords(s, q) == Target(s, q)
  {
    hide Shown, Mismatch;
    TargetPrefix(s, q);
    var g, d := Target(s, q), Depth(s, q);
    ShownAll(g, g, d);
  }

  /** Over keys without byte 255 the tail mismatch is all there is to it. */
  lemma PlainExactly(s: seq<Record>, q: bytes)
    requires Plain(s)
    ensures ListsBelow(s, q) <==> !Mismatch(s, q) || forall r :: r in s ==> q <= r.key
    ensures ListedRecords(s, q) == WithPrefix(s, q) <==> ListsBelow(s, q)
  {
    hide Mismatch, Shown, WithPrefix;
    ListsExactly(s, q);
    assert forall r, p: nat :: r in s ==> !Hidden(r, s, p);
  }

  // ----- three indexes of two records

  lemma TwoSorted(a: Record, b: Record, p: nat)
    requires NulFree(a.key) && NulFree(b.key) && p <= |a.key| && p <= |b.key| && a.key[..p] == b.key[..p]
    requires At(a.key, p) < At(b.key, p)
    ensures Sorted([a, b]) && KeysNulFree([a, b])
  {
    LexLessByByte(a.key, b.key, p);
  }

  /** A query that shares a first byte with one of two keys, and leaves the track of that key. */
  lemma TwoMismatch(a: Record, b: Record, q: bytes)
    requires |q| > 1 && a.key != [] && b.key != [] && a.key[0] == q[0] != b.key[0] && a.key != q
    ensures Mismatch([a, b], q) && Target([a, b], q) == [a, b] && Depth([a, b], q) == 0
    ensures WithPrefix([a, b], q) == if q <= a.key then [a] else []
  {
    var s := [a, b];
    TwoBelow(a, b, q);
    TwoBelow(a, b, q[..1]);
    assert q[..1] == [q[0]] && a.key[..1] == [a.key[0]];
    assert LeavesTrack(s, q, 1);
  }

  lemma TwoBelow(a: Record, b: Record, q: bytes)
    requires q != [] && b.key != [] && q[0] != b.key[0]
    ensures WithPrefix([a, b], q) == if q <= a.key then [a] else []
  {
    var s := [a, b];
    assert s[1..] == [b] && [b][1..] == [];
    WithPrefixStep(s, q);
    WithPrefixStep([b], q);
  }

  lemma TwoReported(a: Record, b: Record, q: bytes)
    requires a.key != [] && b.key != [] && a.key[0] != b.key[0]
    requires var s := [a, b]; ListedRecords(s, q) == Target(s, q) == s && Depth(s, q) == 0
    ensures Answer([a, b], q) == [KeyValue(q + a.key, a.value), KeyValue(q + b.key, b.value)]
  {
    hide Shown, Target, Depth;
    var s := [a, b];
    forall r | r == a || r == b ensures Report(q, s, 0, r) == KeyValue(q + r.key, r.value) {
      assert !EndsInside(r, s);
      assert q + From(r.key, 0) + [] == q + r.key;
    }
  }

  lemma TwoPlain(a: Record, b: Record, q: bytes)
    requires 255 !in a.key && 255 !in b.key
    ensures ListedRecords([a, b], q) == Target([a, b], q)
  {
    hide Mismatch;
    PlainShown([a, b], q);
  }

  /** Of two records the second is hidden by the first. */
  lemma TwoShown(a: Record, b: Record, p: nat)
    requires SplitsAt255(b, a, p, p) && a.key != b.key && 255 !in a.key
    ensures Hidden(b, [a, b], p) && !Hidden(a, [a, b], p) && Shown([a, b], [a, b], p) == [a]
  {
    var s := [a, b];
    assert a in s;
    assert [a] + [b] == s;
    ShownConcat([a], [b], s, p);
    ShownOne(a, s, p);
    ShownOne(b, s, p);
  }

  lemma ShownOne(r: Record, s: seq<Record>, p: nat)
    ensures Shown([r], s, p) == if Hidden(r, s, p) then [] else [r]
  {
    hide Hidden;
    assert [r][1..] == [];
  }

  /** The query "ab" over the keys "abc" and "b" lists both records: its walk stops inside
      the tail of the leaf below "a". The keys are reported as "ababc" and "abb". */
  lemma MismatchExample(v: Value, w: Value)
    ensures var s, q := [Record([97, 98, 99], v), Record([98], w)], [97, 98];
            && Sorted(s) && KeysNulFree(s) && Mismatch(s, q) && !ListsBelow(s, q)
            && WithPrefix(s, q) == [s[0]]
            && Answer(s, q) == [KeyValue([97, 98, 97, 98, 99], v), KeyValue([97, 98, 98], w)]
  {
    hide *;
    var a, b, q := Record([97, 98, 99], v), Record([98], w), [97, 98];
    TwoFacts([97, 98, 99], [98], 0);
    TwoSorted(a, b, 0);
    TwoMismatch(a, b, q);
    assert q <= a.key;
    TwoPlain(a, b, q);
    TwoReported(a, b, q);
    ListsExactly([a, b], q);
    assert q + a.key == [97, 98, 97, 98, 99] && q + b.key == [97, 98, 98];
  }

  lemma TwoFacts(j: bytes, k: bytes, p: nat)
    requires p < |j| && p < |k| && 0 !in j && 0 !in k
    ensures NulFree(j) && NulFree(k) && At(j, p) == j[p] && At(k, p) == k[p]
  {
  }

  /** The query "ab" over the keys "abc" and "\xff" leaves the track, and still just the
      record below it is listed: byte 255 hides the other one. */
  lemma HiddenMismatchExample(v: Value, w: Value)
    ensures var s, q := [Record([97, 98, 99], v), Record([255], w)], [97, 98];
            && Sorted(s) && KeysNulFree(s) && Mismatch(s, q) && ListsBelow(s, q)
            && ListedRecords(s, q) == WithPrefix(s, q) == [s[0]]
  {
    hide Sorted, KeysNulFree, NulFree, At, Mismatch, WithPrefix, Shown, Hidden, Target, Depth, ListsBelow, LexLess;
    var a, b, q := Record([97, 98, 99], v), Record([255], w), [97, 98];
    TwoFacts([97, 98, 99], [255], 0);
    TwoSorted(a, b, 0);
    TwoMismatch(a, b, q);
    assert q <= a.key && b.key[..0] == a.key[..0];
    TwoShown(a, b, 0);
    ListsExactly([a, b], q);
  }

  /** The query "a" over the keys "ab" and "a\xff" does not leave the track, and still the
      second key, which starts with it, is not listed. */
  lemma Byte255Example(v: Value, w: Value)
    ensures var s, q := [Record([97, 98], v), Record([97, 255], w)], [97];
            && Sorted(s) && KeysNulFree(s) && !Mismatch(s, q) && !ListsBelow(s, q)
            && WithPrefix(s, q) == s && ListedRecords(s, q) == [s[0]]
  {
    hide Sorted, KeysNulFree, NulFree, At, Mismatch, WithPrefix, Shown, Hidden, ListsBelow, LexLess;
    var a, b, q := Record([97, 98], v), Record([97, 255], w), [97];
    TwoFacts([97, 98], [97, 255], 1);
    assert b.key[..1] == [97] == a.key[..1];
    TwoSorted(a, b, 1);
    OneByteBelow([a, b], q);
    TwoShown(a, b, 1);
    ListsExactly([a, b], q);
  }

  /** A query of one byte that all of several keys start with. */
  lemma OneByteBelow(s: seq<Record>, q: bytes)
    requires |q| == 1 && |s| > 1 && forall r :: r in s ==> q <= r.key
    ensures !Mismatch(s, q) && WithPrefix(s, q) == s
  {
    WithPrefixAll(s, q);
    WithPrefixAll(s, q[..0]);
    forall p | 0 <= p < |q| ensures !LeavesTrack(s, q, p) {
      assert p == 0;
    }
  }

  lemma {:induction false} WithPrefixSorted(s: seq<Record>, q: bytes)
    requires Sorted(s)
    ensures Sorted(WithPrefix(s, q))
  {
    if s == [] {
    } else {
      SortedTail(s, s[0]);
      WithPrefixSorted(s[1..], q);
      forall y | y in WithPrefix(s[1..], q) ensures LexLess(s[0].key, y.key) {
        SortedTail(s, y);
      }
      SortedCons(s[0], WithPrefix(s[1..], q));
    }
  }
}
