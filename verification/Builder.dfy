/** `dastrie::builder`: the double array, the tail, the vacancy list and the
    depth-first first-fit construction. */
module Builders {
  import opened Bytes
  import opened Records
  import opened Cells
  import opened TrieSpec
  import opened Children
  import opened Vacancy
  import opened BuildState
  import opened CharTable
  import opened Image
  import opened Layouts
  import opened Space

  datatype Outcome = Ok(base: int) | Unsorted | Duplicated | NoSpaceForLeaf | NoSpaceForNode

  ghost function Interval(lo: nat, hi: nat): (s: set<nat>)
    ensures forall i :: i in s <==> lo <= i < hi
    decreases hi - lo
  {
    if lo < hi then {lo} + Interval(lo + 1, hi) else {}
  }

  /** BASE `b` is not marked used and every child cell is free; cells past the end are. */
  ghost predicate Fits(da: seq<Cell>, used: set<nat>, children: seq<Child>, b: nat) {
    b !in used && forall k :: 0 <= k < |children| ==> !InUse(da, b + children[k].offset)
  }

  lemma FitsFree(da: seq<Cell>, used: set<nat>, children: seq<Child>, b: nat, da': seq<Cell>)
    requires Fits(da, used, children, b) && Enlarges(da, da')
    ensures b !in used
    ensures forall k :: 0 <= k < |children| ==> !InUse(da', b + children[k].offset)
  {
    assert forall j: nat :: InUse(da', j) <==> InUse(da, j);
  }

  /** The indices from 1 up to `n` that have no BASE. */
  ghost function VacantIn(da: seq<Cell>, n: nat): set<nat> {
    set i: nat | 1 <= i < n && !InUse(da, i)
  }

  lemma VacantTaken(da: seq<Cell>, j: nat, cell: Cell, n: nat, n': nat)
    requires 1 <= j < |da| <= n && cell.base != 0
    requires n' == if j == n - 1 then n + 1 else n
    ensures VacantIn(da[j := cell], n') == VacantIn(da, n) - {j} + if j == n - 1 then {n} else {}
  {
    forall k: nat ensures InUse(da[j := cell], k) <==> InUse(da, k) || k == j {
      assert k < |da| ==> da[j := cell][k] == if k == j then cell else da[k];
    }
  }

  /** First fit: `base` fits and no lower BASE does. */
  ghost predicate FirstFit(da: seq<Cell>, used: set<nat>, children: seq<Child>, base: nat) {
    && 1 <= base && Fits(da, used, children, base)
    && forall b :: 1 <= b < base ==> !Fits(da, used, children, b)
  }

  /** No BASE fits for which the cells of all children stay below `top`. */
  ghost predicate NoRoom(da: seq<Cell>, used: set<nat>, children: seq<Child>, top: int) {
    forall b, m: nat :: 1 <= b && IsMaxOffset(children, m) && b + m < top ==> !Fits(da, used, children, b)
  }

  lemma FirstFitRoom(da: seq<Cell>, used: set<nat>, children: seq<Child>, base: nat, m: nat, top: int)
    requires FirstFit(da, used, children, base) && IsMaxOffset(children, m)
    ensures NoRoom(da, used, children, top) <==> top <= base + m
  {
    hide Fits;
    forall m2: nat | IsMaxOffset(children, m2) ensures m2 == m {
    }
  }

  /** Behind the array and the marks every BASE fits. */
  lemma FitsBehind(da: seq<Cell>, used: set<nat>, children: seq<Child>, base: nat, b: nat)
    requires FirstFit(da, used, children, base) && |da| <= b && b !in used && 1 <= b
    ensures base <= b
  {
    assert Fits(da, used, children, b);
  }

  /** How a build of `s` may end when `marked` BASE values were marked or skipped before. Each
      failure is a fact about the records. */
  ghost predicate BuildOutcome(r: Outcome, traits: Traits, s: seq<Record>, marked: nat) {
    match r
    case Ok(_) => Sorted(s)
    case Unsorted => OutOfOrder(s)
    case Duplicated => HasDuplicates(s)
    case NoSpaceForLeaf => traits.MaxBase() < 1 + StoredBytes(s)
    case NoSpaceForNode => traits.MaxBase() < CellBound(s, 0, if marked < 2 then 2 else marked)
  }

  /** A size under which no build can run out of space. */
  predicate Roomy(traits: Traits, s: seq<Record>, marked: nat) {
    && 1 + StoredBytes(s) <= traits.MaxBase()
    && CellBound(s, 0, if marked < 2 then 2 else marked) <= traits.MaxBase()
  }

  /** So within that size a build succeeds exactly on sorted lists. */
  lemma RoomyOutcome(r: Outcome, traits: Traits, s: seq<Record>, marked: nat)
    requires BuildOutcome(r, traits, s, marked) && Roomy(traits, s, marked)
    ensures r.Ok? <==> Sorted(s)
    ensures !Sorted(s) ==> (r.Unsorted? && OutOfOrder(s)) || (r.Duplicated? && HasDuplicates(s))
  {
    hide StoredBytes, CellBound, OutOfOrder, HasDuplicates;
    SortedExactly(s);
  }

  lemma OutcomeSorted(r: Outcome, traits: Traits, s: seq<Record>, marked: nat)
    requires BuildOutcome(r, traits, s, marked)
    ensures r.Ok? ==> Sorted(s)
  {
  }

  class Builder {
    const traits: Traits
    var n: nat
    var da: seq<Cell>
    var tail: bytes
    var table: Table
    var usedBases: seq<bool>
    var elink: seq<Link>
    var numLeaves: nat
    var numNodes: nat
    var numTotal: nat
    var numUsed: nat
    ghost var own: map<nat, nat>
    ghost var pending: set<nat>

    constructor (traits: Traits)
      ensures this.traits == traits && usedBases == []
    {
      this.traits := traits;
      n := 0;
      da, tail, usedBases, elink := [], [], [], [];
      table := seq(256, (i: nat) requires i < 256 => i);
      numLeaves, numNodes, numTotal, numUsed := 0, 0, 0, 0;
      own, pending := map[], {};
    }

    ghost function UsedSet(): set<nat>
      reads this`usedBases
    {
      set b: nat | b < |usedBases| && usedBases[b]
    }

    ghost function Now(): (st: State)
      reads this`da, this`tail, this`usedBases, this`own, this`pending
      ensures st.da == da && st.tail == tail && st.used == UsedSet() && st.own == own && st.pending == pending
    {
      State(da, tail, UsedSet(), own, pending)
    }

    /** How far the array or the marks reach. */
    ghost function Extent(): (n: nat)
      reads this`da, this`usedBases
      ensures |da| <= n && |usedBases| <= n && (n == |da| || n == |usedBases|)
    {
      if |da| < |usedBases| then |usedBases| else |da|
    }

    ghost function VacantSet(): set<nat>
      reads this`da, this`elink
    {
      VacantIn(da, |elink|)
    }

    /** The vacancy list holds exactly the indices from 1 on that have no BASE. */
    ghost predicate Linked()
      reads this`da, this`elink
    {
      |da| <= |elink| && Chained(elink, VacantSet())
    }

    // ----- the vacancy list

    method VlistInit()
      modifies this`elink
      ensures elink == [Link(0, 1)] && Chained(elink, {})
    {
      elink := [Link(0, 1)];
      assert NextOk(elink, {}, 0);
    }

    function VlistNext(i: nat): nat
      reads this`elink
    {
      if i < |elink| then elink[i].next else i + 1
    }

    method VlistExpand(size: nat, ghost vac: set<nat>)
      requires Chained(elink, vac)
      modifies this`elink
      ensures |elink| == if old(|elink|) < size then size else old(|elink|)
      ensures Chained(elink, vac + Interval(old(|elink|), |elink|))
    {
      ghost var e := elink;
      ghost var more: set<nat> := {};
      if |elink| < size {
        var first := |elink|;
        elink := elink + seq(size - first, _ => Link(0, 0));
        var back := elink[0].prev;
        for i := first to |elink|
          invariant |elink| == size && back == i - 1
          invariant elink[..first] == e
          invariant forall k :: first <= k < i ==> elink[k] == Link(k - 1, k + 1)
        {
          assert elink[..first] == elink[i := Link(back, i + 1)][..first];
          elink := elink[i := Link(back, i + 1)];
          back := i;
        }
        elink := elink[0 := elink[0].(prev := |elink| - 1)];
        more := Interval(first, size);
        assert elink[0].next == e[0].next && forall k :: 0 < k < first ==> elink[k] == e[k];
        ExpandKeeps(e, elink, vac, more);
      }
      assert vac + {} == vac;
    }

    method VlistUse(i: nat, ghost vac: set<nat>)
      requires Chained(elink, vac) && i in vac
      modifies this`elink
      ensures |elink| == if i == old(|elink|) - 1 then old(|elink|) + 1 else old(|elink|)
      ensures Chained(elink, vac - {i} + if i == old(|elink|) - 1 then {old(|elink|)} else {})
    {
      ghost var e := elink;
      assert NextOk(e, vac, i) && PrevOk(e, vac, i);
      var prev := elink[i].prev;
      var next := elink[i].next;
      if |elink| <= next {
        elink := elink + [Link(0, 0)];
        elink := elink[next := elink[next].(next := next + 1)];
        elink := elink[0 := elink[0].(prev := next)];
      }
      elink := elink[prev := elink[prev].(next := next)];
      elink := elink[next := elink[next].(prev := prev)];
      UseKeeps(e, elink, vac, i);
    }

    // ----- the cells

    method DaExpand(size: nat)
      modifies this`da
      ensures |da| == if old(|da|) < size then size else old(|da|)
      ensures old(da) <= da && forall j :: old(|da|) <= j < |da| ==> da[j] == VACANT
    {
      if |da| < size {
        da := da + seq(size - |da|, _ => VACANT);
      }
    }

    /** Both arrays grow to at least `size`; no cell is used or freed. */
    method Expand(size: nat)
      requires Linked()
      modifies this`da, this`elink
      ensures Linked() && size <= |da| && (|da| == |old(da)| || |da| == size)
      ensures Enlarges(old(da), da)
    {
      ghost var vac := VacantSet();
      var before := |elink|;
      DaExpand(size);
      VlistExpand(size, vac);
      assert VacantSet() == vac + Interval(before, |elink|);
    }

    /** First fit by way of the vacancy list: the least BASE that fits. */
    method FindBase(children: seq<Child>, maxOffset: nat) returns (base: nat)
      requires Linked()
      requires children != [] && forall k :: 0 <= k < |children| ==> 1 <= children[k].offset <= maxOffset
      modifies this`da, this`elink
      ensures Linked() && Enlarges(old(da), da)
      ensures base + maxOffset < |da| && (|da| == |old(da)| || |da| <= base + maxOffset + 1)
      ensures FirstFit(old(da), UsedSet(), children, base)
    {
      hide Chained;
      var index := 0;
      ghost var start := children[0].offset;
      ghost var bound := start + |da| + |usedBases|;
      base := 0;
      while true
        invariant Linked() && Enlarges(old(da), da)
        invariant index == 0 || !InUse(da, index)
        invariant index <= bound
        invariant |da| == |old(da)| || (start <= index && |da| <= index - start + maxOffset + 1)
        invariant forall b :: 1 <= b && b + start <= index ==> !Fits(old(da), UsedSet(), children, b)
        decreases bound - index
      {
        ghost var last := index;
        index := VlistNext(index);
        NextVacant(da, elink, VacantSet(), last);
        forall b | 1 <= b && last < b + start < index
          ensures !Fits(old(da), UsedSet(), children, b)
        {
          assert InUse(da, b + children[0].offset);
        }
        if index < INITIAL + children[0].offset {
          continue;
        }
        base := index - children[0].offset;
        if base < |usedBases| && usedBases[base] {
          assert base in UsedSet();
          continue;
        }
        Expand(base + maxOffset + 1);
        var i := 1;
        while i < |children|
          invariant 1 <= i <= |children|
          invariant forall k :: 0 <= k < i ==> !InUse(da, base + children[k].offset)
        {
          if InUse(da, base + children[i].offset) {
            break;
          }
          i := i + 1;
        }
        if i == |children| {
          break;
        }
      }
    }

    // ----- the tail

    method WriteString(str: bytes, offset: nat)
      requires offset <= |str|
      modifies this`tail
      ensures tail == old(tail) + (str[offset..] + [0])
    {
      tail := tail + (str[offset..] + [0]);
    }

    method WriteValue(v: Value)
      modifies this`tail
      ensures tail == old(tail) + EncodeValue(v) && IsStored(tail[|old(tail)|..], v)
    {
      tail := tail + LE32(|v| % TWO32);
      ghost var start := tail;
      for i := 0 to |v|
        invariant tail == start + EncodeItems(v[..i])
      {
        WriteString(v[i].name, 0);
        tail := tail + v[i].rank;
        assert v[..i + 1] == v[..i] + [v[i]] && v[i].name[0..] == v[i].name;
        EncodeItemsAppend(v[..i], v[i]);
      }
      assert v[..|v|] == v;
      StoredForm(EncodeValue(v), v);
      assert tail[|old(tail)|..] == EncodeValue(v);
    }

    // ----- building

    method TakeCell(j: nat, ghost base: nat)
      requires Linked() && Coherent(Now(), traits) && 1 <= base < j && base in UsedSet()
      requires j < |da| && !InUse(da, j)
      modifies this`da, this`elink, this`own, this`pending
      ensures Linked() && Coherent(Now(), traits)
      ensures Takes(old(Now()), Now(), j, base) && |da| == |old(da)|
    {
      hide Coherent, Chained;
      ghost var st, vac, len := Now(), VacantSet(), |elink|;
      assert j in vac;
      VacantTaken(da, j, Cell(1, da[j].check), |elink|, if j == |elink| - 1 then |elink| + 1 else |elink|);
      NotOwned(st, traits, j);
      da := da[j := Cell(1, da[j].check)];
      own := own[j := base];
      pending := pending + {j};
      ReserveKeeps(st, Now(), traits, j, base);
      VlistUse(j, vac);
    }

    /** Marks the cells of the children with BASE 1 so that nested calls keep off them. */
    method Reserve(children: seq<Child>, base: nat)
      requires Linked() && Coherent(Now(), traits) && 1 <= base && base in UsedSet()
      requires DistinctOffsets(children)
      requires forall k :: 0 <= k < |children| ==>
        1 <= children[k].offset && base + children[k].offset < |da| && !InUse(da, base + children[k].offset)
      modifies this`da, this`elink, this`own, this`pending
      ensures Linked() && Coherent(Now(), traits)
      ensures Reserved(old(Now()), Now(), base, children, |children|)
      ensures |own| == |old(own)| + |children| && |da| == |old(da)|
    {
      hide *;
      ghost var a := Now();
      ReserveStart(a, base, children);
      for i := 0 to |children|
        invariant Linked() && Coherent(Now(), traits)
        invariant Reserved(a, Now(), base, children, i)
        invariant |own| == |old(own)| + i && |da| == |old(da)|
      {
        ghost var st := Now();
        StillFree(a, st, base, children, i);
        TakeCell(base + children[i].offset, base);
        TakesOne(st, Now(), base + children[i].offset, base);
        ReservedOneMore(a, st, Now(), base, children, i);
      }
    }

    /** Arranges the records `s`, which agree before depth `p`, below a cell that the
        caller owns, and returns the BASE to store there. Records out of order are
        refused, and only those, unless the tail or the array outgrows the BASE values. */
    method Arrange(p: nat, s: seq<Record>) returns (r: Outcome)
      requires Linked() && Coherent(Now(), traits) && Injective(table)
      requires s != [] && KeysNulFree(s) && CommonPrefix(s, p)
      modifies this
      ensures table == old(table) && n == old(n) && numUsed == old(numUsed)
      ensures r.Ok? ==> Linked() && Arranged(old(Now()), Now(), traits, table, r.base, p, s)
      ensures r.Ok? ==> Counted(old(Now()), Now(), old(numNodes), numNodes, old(numLeaves), numLeaves, |s|)
      ensures r.Ok? ==> Sorted(s)
      ensures (r.Unsorted? ==> OutOfOrder(s)) && (r.Duplicated? ==> HasDuplicates(s))
      ensures r.NoSpaceForLeaf? ==> traits.MaxBase() < |tail|
      ensures r.NoSpaceForNode? ==> traits.MaxBase() < |da|
      ensures |tail| <= |old(tail)| + StoredBytes(s)
      ensures Extent() <= old(Extent()) + 257 * NodeBound(s, p)
      decreases MaxLen(s) - p, |s|, 2
    {
      hide *;
      if |s| == 1 {
        r := ArrangeLeaf(p, s);
        return;
      }
      ghost var a, nodes, leaves := Now(), numNodes, numLeaves;
      var children;
      r, children := BeginNode(p, s);
      ManyNodes(s, p);
      if !r.Ok? {
        return;
      }
      var base := r.base;
      RunsStart(s, p, children);
      for i := 0 to |children|
        invariant table == old(table) && n == old(n) && numUsed == old(numUsed)
        invariant Linked() && Between(a, Now(), traits, table, base, p, s, children, i)
        invariant CountedSoFar(a, Now(), nodes, numNodes, leaves, numLeaves, children, i)
        invariant |tail| <= |old(tail)| + StoredUpto(s, children, i)
        invariant Extent() <= old(Extent()) + 257 + 257 * KeysUpto(s, p, children, i)
      {
        RunBounds(a, Now(), traits, table, base, p, s, children, i);
        r := ArrangeChild(p, s, children, i, base, a, nodes, leaves);
        if !r.Ok? {
          return;
        }
      }
      numNodes := numNodes + 1;
      RunsEnd(a, Now(), traits, table, base, p, s, children);
      BetweenDone(a, Now(), traits, table, base, p, s, children);
      CountedDone(a, Now(), traits, table, base, p, s, children, nodes, numNodes - 1, leaves, numLeaves);
      return Ok(base);
    }

    method ArrangeLeaf(p: nat, s: seq<Record>) returns (r: Outcome)
      requires Linked() && Coherent(Now(), traits)
      requires |s| == 1 && KeysNulFree(s) && CommonPrefix(s, p)
      modifies this`tail, this`numLeaves
      ensures (r.Ok? || r.NoSpaceForLeaf?) && (r.Ok? ==> Sorted(s))
      ensures r.NoSpaceForLeaf? <==> traits.MaxBase() < |old(tail)|
      ensures r.NoSpaceForLeaf? ==> tail == old(tail)
      ensures |tail| <= |old(tail)| + StoredBytes(s)
      ensures r.Ok? ==> Arranged(old(Now()), Now(), traits, table, r.base, p, s)
      ensures r.Ok? ==> Counted(old(Now()), Now(), numNodes, numNodes, old(numLeaves), numLeaves, |s|)
    {
      ghost var a := Now();
      var offset := |tail|;
      if traits.MaxBase() < offset {
        return NoSpaceForLeaf;
      }
      WriteString(s[0].key, p);
      WriteValue(s[0].value);
      numLeaves := numLeaves + 1;
      assert s == [s[0]];
      StoredOne(s[0], p);
      LeafArranged(a, Now(), traits, table, p, s);
      assert Now().used - a.used == {};
      return Ok(-offset);
    }

    /** Up to the recursion: split the records, find a BASE, reserve the children's cells. */
    method BeginNode(p: nat, s: seq<Record>) returns (r: Outcome, children: seq<Child>)
      requires Linked() && Coherent(Now(), traits) && Injective(table)
      requires |s| > 1 && KeysNulFree(s) && CommonPrefix(s, p)
      modifies this`da, this`elink, this`usedBases, this`own, this`pending
      ensures r.Ok? ==> Linked() && r.base > 0 && Between(old(Now()), Now(), traits, table, r.base, p, s, children, 0)
      ensures r.Ok? ==> CountedSoFar(old(Now()), Now(), numNodes, numNodes, numLeaves, numLeaves, children, 0)
      ensures (r.Unsorted? ==> OutOfOrder(s)) && (r.Duplicated? ==> HasDuplicates(s))
      ensures !r.NoSpaceForLeaf? && !r.Duplicated?
      ensures r.Ok? ==> FirstFit(old(da), old(UsedSet()), children, r.base)
      ensures r.NoSpaceForNode? ==> Partition(p, s, table, children)
      ensures r.Ok? || r.NoSpaceForNode? ==>
        (r.NoSpaceForNode? <==> NoRoom(old(da), old(UsedSet()), children, traits.MaxBase()))
      ensures r.NoSpaceForNode? ==> traits.MaxBase() < |da|
      ensures Extent() <= old(Extent()) + 257
    {
      hide *;
      ghost var a := Now();
      children := [];
      var split, maxOffset := CollectChildren(p, s, table);
      if split.Descends? {
        ghost var i :| 0 < i < |s| && At(s[i].key, p) < At(s[i - 1].key, p);
        DescentOutOfOrder(p, s, i);
        return Unsorted, children;
      }
      children := split.children;
      PartitionDistinct(p, s, table, children);
      ChildOffsets(p, s, table, children, maxOffset);
      CoherentSize(a, traits);
      ghost var behind := Extent();
      BehindMarks();
      var base := FindBase(children, maxOffset);
      FitsBehind(a.da, UsedSet(), children, base, behind);
      FirstFitRoom(a.da, UsedSet(), children, base, maxOffset, traits.MaxBase());
      FirstFitFits(a.da, UsedSet(), children, base);
      if traits.MaxBase() <= base + maxOffset {
        return NoSpaceForNode, children;
      }
      FitsFree(a.da, UsedSet(), children, base, da);
      MarkBase(base);
      ghost var x := Now();
      MarksIt(a, x, base);
      MarkKeeps(a, x, traits, base);
      Reserve(children, base);
      BetweenStart(a, x, Now(), traits, table, base, p, s, children, numNodes, numLeaves);
      return Ok(base), children;
    }

    lemma BehindMarks()
      ensures Extent() !in UsedSet()
    {
    }

    method MarkBase(base: nat)
      modifies this`usedBases
      ensures UsedSet() == old(UsedSet()) + {base}
      ensures |usedBases| == if |old(usedBases)| <= base then base + 1 else |old(usedBases)|
    {
      if |usedBases| <= base {
        usedBases := usedBases + seq(base + 1 - |usedBases|, _ => false);
      }
      usedBases := usedBases[base := true];
    }

    /** One turn of the loop over the children: arrange the records of child `i` and
        store the result in its cell. */
    method ArrangeChild(p: nat, s: seq<Record>, children: seq<Child>, i: nat, base: nat,
                        ghost a: State, ghost nodes: nat, ghost leaves: nat)
      returns (r: Outcome)
      requires Linked() && i < |children| && children[i].first <= children[i].last <= |s|
      requires Between(a, Now(), traits, table, base, p, s, children, i)
      requires CountedSoFar(a, Now(), nodes, numNodes, leaves, numLeaves, children, i)
      modifies this
      ensures table == old(table) && n == old(n) && numUsed == old(numUsed)
      ensures r.Ok? ==> Linked() && Between(a, Now(), traits, table, base, p, s, children, i + 1)
      ensures r.Ok? ==> CountedSoFar(a, Now(), nodes, numNodes, leaves, numLeaves, children, i + 1)
      ensures (r.Unsorted? ==> OutOfOrder(s)) && (r.Duplicated? ==> HasDuplicates(s))
      ensures r.NoSpaceForLeaf? ==> traits.MaxBase() < |tail|
      ensures r.NoSpaceForNode? ==> traits.MaxBase() < |da|
      ensures |tail| <= |old(tail)| + StoredBytes(Slice(s, children[i]))
      ensures Extent() <= old(Extent()) + 257 * KeyBytes(Slice(s, children[i]), p)
      decreases MaxLen(s) - p, |s|, 1
    {
      hide *;
      ghost var st, n0, l0 := Now(), numNodes, numLeaves;
      var child := children[i];
      ChildRecords(a, st, traits, table, base, p, s, children, i);
      r := ArrangeRun(p, s, child);
      if !r.Ok? {
        return;
      }
      ghost var d := Now();
      ChildCellReady(a, st, d, traits, table, base, p, s, children, i, r.base, Slice(s, child));
      SetCell(base + child.offset, r.base, child.offset - 1);
      BetweenNext(a, st, d, Now(), traits, table, base, p, s, children, i, r.base, nodes, n0, numNodes, leaves, l0, numLeaves);
    }

    /** The nested call for one run of records; several records that end here are duplicates. */
    method ArrangeRun(p: nat, s: seq<Record>, child: Child) returns (r: Outcome)
      requires Linked() && Coherent(Now(), traits) && Injective(table)
      requires KeysNulFree(s) && CommonPrefix(s, p) && child.first < child.last <= |s|
      requires forall k :: child.first <= k < child.last ==> At(s[k].key, p) == child.c
      requires var g := s[child.first..child.last];
               && KeysNulFree(g) && CommonPrefix(g, Below(p, child.c))
               && MaxLen(g) <= MaxLen(s) && (|g| == 1 ==> |g| < |s|)
      requires p <= MaxLen(s) && (child.c != 0 ==> p < MaxLen(s))
      requires Below(p, child.c) == if child.c == 0 then p else p + 1
      modifies this
      ensures table == old(table) && n == old(n) && numUsed == old(numUsed)
      ensures r.Ok? ==> Linked()
      ensures r.Ok? ==> Arranged(old(Now()), Now(), traits, table, r.base, Below(p, child.c), Slice(s, child))
      ensures r.Ok? ==>
        Counted(old(Now()), Now(), old(numNodes), numNodes, old(numLeaves), numLeaves, |Slice(s, child)|)
      ensures r.Ok? ==> Sorted(Slice(s, child)) && (child.c == 0 ==> child.last == child.first + 1)
      ensures (r.Unsorted? ==> OutOfOrder(s)) && (r.Duplicated? ==> HasDuplicates(s))
      ensures r.NoSpaceForLeaf? ==> traits.MaxBase() < |tail|
      ensures r.NoSpaceForNode? ==> traits.MaxBase() < |da|
      ensures |tail| <= |old(tail)| + StoredBytes(Slice(s, child))
      ensures Extent() <= old(Extent()) + 257 * KeyBytes(Slice(s, child), p)
      decreases MaxLen(s) - p, |s|, 0
    {
      hide *;
      var g := s[child.first..child.last];
      assert g == Slice(s, child) by { SliceIs(s, child); }
      if child.c != 0 {
        RunNodes(g, p, child.c);
        r := Arrange(p + 1, g);
      } else {
        if child.first + 1 != child.last {
          NulRunDuplicates(p, s, child.first, child.first + 1);
          return Duplicated;
        }
        RunNodes(g, p, child.c);
        r := Arrange(p, g);
      }
      SliceFlaws(s, child.first, child.last);
    }

    /** set_base and set_check on a cell that keeps being used. */
    method SetCell(j: nat, v: int, check: byte)
      requires Linked() && InUse(da, j) && v != 0
      modifies this`da, this`pending
      ensures Linked()
      ensures Now() == old(Now()).(da := old(da)[j := Cell(v, check)], pending := old(pending) - {j})
      ensures |da| == |old(da)|
    {
      ghost var vac := VacantSet();
      da := da[j := da[j].(base := v)];
      da := da[j := da[j].(check := check)];
      pending := pending - {j};
      assert VacantSet() == vac;
    }

    // ----- the entry points

    /** Everything but the set of used BASEs starts over. */
    method Clear()
      modifies this
      ensures tail == [0] && da == [VACANT] && elink == [Link(0, 1)] && Chained(elink, {})
      ensures usedBases == old(usedBases) && n == old(n)
      ensures numLeaves == numNodes == numTotal == numUsed == 0
    {
      table := seq(256, (i: nat) requires i < 256 => i);
      da := [];
      DaExpand(1);
      tail := [0];
      VlistInit();
      numLeaves, numNodes, numTotal, numUsed := 0, 0, 0, 0;
    }

    /** Builds the double array for `s`; refuses exactly the lists that are not strictly
        ascending, unless the tail or the array outgrows the BASE values first. */
    method Build(s: seq<Record>) returns (r: Outcome)
      requires s != [] && KeysNulFree(s)
      modifies this
      ensures r.Ok? ==> Sorted(s) && n == |s| && Ranked(table, s)
      ensures r.Ok? ==> Built(Now(), traits, table, s)
      ensures r.Ok? ==> |tail| <= 1 + StoredBytes(s)
      ensures r.Ok? ==> |da| <= CellBound(s, 0, if |old(usedBases)| < 2 then 2 else |old(usedBases)|)
      ensures r.Ok? ==> numNodes == |NodeCells(da)| == |UsedSet() - old(UsedSet())|
      ensures r.Ok? ==> numLeaves == |LeafCells(da)| == |s|
      ensures r.Ok? ==> numUsed == |UsedCells(da, |da|)| == numNodes + numLeaves && numTotal == |da|
      ensures (r.Unsorted? ==> OutOfOrder(s)) && (r.Duplicated? ==> HasDuplicates(s))
      ensures BuildOutcome(r, traits, s, |old(usedBases)|)
      ensures Roomy(traits, s, |old(usedBases)|) ==> (r.Ok? <==> Sorted(s))
    {
      hide *;
      Clear();
      n := |s|;
      table := BuildTable(s);
      BeginRoot();
      ghost var a := Now();
      BlankCoherent(a, traits);
      ZeroPrefix(s);
      ghost var marked, extent := |usedBases|, Extent();
      r := Arrange(0, s);
      OutcomeOf(r, traits, s, marked, extent, |tail|, Extent());
      if r.Ok? {
        ghost var d := Now();
        RootInUse(a, d, traits, table, r.base, s);
        da := da[INITIAL := da[INITIAL].(base := r.base)];
        pending := {};
        RootBuilt(a, d, Now(), traits, table, r.base, s);
        UsedCellsConserved(a, d, Now(), traits, table, r.base, s, numNodes, numLeaves);
        ComputeStat();
      }
      if Roomy(traits, s, marked) {
        RoomyOutcome(r, traits, s, marked);
      }
    }

    /** The initial node, reserved with BASE 1. */
    method BeginRoot()
      requires tail == [0] && da == [VACANT] && elink == [Link(0, 1)] && Chained(elink, {})
      modifies this`da, this`elink, this`own, this`pending
      ensures Blank(Now()) && Linked() && |da| == 2 && |tail| == 1
    {
      DaExpand(INITIAL + 1);
      VlistExpand(INITIAL + 1, {});
      assert Chained(elink, {INITIAL}) by {
        assert {} + Interval(1, 2) == {INITIAL};
      }
      da := da[INITIAL := da[INITIAL].(base := 1)];
      VlistUse(INITIAL, {INITIAL});
      own := map[];
      pending := {INITIAL};
      assert VacantSet() == {INITIAL} - {INITIAL} + {2};
    }

    method ComputeStat()
      requires numUsed == 0
      modifies this`numTotal, this`numUsed
      ensures numTotal == |da| && numUsed == |UsedCells(da, |da|)|
    {
      numTotal := |da|;
      for i := 0 to |da|
        invariant numUsed == |UsedCells(da, i)|
        invariant numTotal == |da|
      {
        UsedCellsStep(da, i);
        if InUse(da, i) {
          numUsed := numUsed + 1;
        }
      }
    }

    // ----- writing the file

    /** The elements of the array, as they lie in memory. */
    method Elements() returns (r: bytes)
      ensures r == PackAll(traits, da)
    {
      r := [];
      for i := 0 to |da|
        invariant r == PackAll(traits, da[..i])
      {
        assert da[..i + 1] == da[..i] + [da[i]];
        PackStep(traits, da[..i], da[i]);
        r := r + traits.Pack(da[i]);
      }
      assert da[..|da|] == da;
    }

    /** A chunk header and its data. */
    method WriteChunk(os: bytes, id: bytes, size: nat, data: bytes) returns (os': bytes)
      requires |id| == 4 && size == CHUNKSIZE + |data|
      ensures os' == os + Chunk(id, data)
    {
      os' := os + id;
      os' := os' + LE32(size % TWO32);
      os' := os' + data;
    }

    method Write(os: bytes) returns (os': bytes)
      ensures os' == os + File(traits, n, table, da, tail)
      ensures |os'| < |os| + 0x1_0000_0000 ==> Layout(os'[|os|..], traits, n, table, da, tail)
    {
      hide PackAll, LE32, Chunk, File, Layout;
      var sdaSize := CHUNKSIZE + traits.Size() * |da|;
      var tbluSize := CHUNKSIZE + 256;
      var tailSize := CHUNKSIZE + |tail|;
      var totalSize := SDAT_CHUNKSIZE + tbluSize + sdaSize + tailSize;
      os' := os + SDAT;
      os' := os' + LE32(totalSize % TWO32);
      os' := os' + LE32(SDAT_CHUNKSIZE);
      os' := os' + LE32(n % TWO32);
      os' := WriteChunk(os', TBLU, tbluSize, table);
      var elements := Elements();
      os' := WriteChunk(os', traits.ChunkId(), sdaSize, elements);
      os' := WriteChunk(os', TAIL, tailSize, tail);
      FileFlat(os, traits, n, table, da, tail,
               Chunk(TBLU, table), Chunk(traits.ChunkId(), PackAll(traits, da)), Chunk(TAIL, tail));
      FileIs(os'[|os|..], traits, n, table, da, tail);
    }
  }

  lemma FirstFitFits(da: seq<Cell>, used: set<nat>, children: seq<Child>, base: nat)
    requires FirstFit(da, used, children, base)
    ensures Fits(da, used, children, base) && 1 <= base
  {
  }

  lemma OutcomeOf(r: Outcome, traits: Traits, s: seq<Record>, marked: nat, before: nat, tailSize: nat, after: nat)
    requires r.Ok? ==> Sorted(s)
    requires (r.Unsorted? ==> OutOfOrder(s)) && (r.Duplicated? ==> HasDuplicates(s))
    requires before == if marked < 2 then 2 else marked
    requires tailSize <= 1 + StoredBytes(s) && after <= before + 257 * NodeBound(s, 0)
    requires r.NoSpaceForLeaf? ==> traits.MaxBase() < tailSize
    requires r.NoSpaceForNode? ==> traits.MaxBase() < after
    ensures BuildOutcome(r, traits, s, marked)
    ensures after <= CellBound(s, 0, if marked < 2 then 2 else marked)
  {
    hide StoredBytes, NodeBound, Sorted, OutOfOrder, HasDuplicates;
  }

  // ----- space, run by run

  /** The records of the first `i` children. */
  ghost function Upto(children: seq<Child>, i: nat): nat {
    if 0 < i <= |children| then children[i - 1].last else 0
  }

  ghost function StoredUpto(s: seq<Record>, children: seq<Child>, i: nat): nat {
    StoredBytes(if Upto(children, i) <= |s| then s[..Upto(children, i)] else s)
  }

  ghost function KeysUpto(s: seq<Record>, p: nat, children: seq<Child>, i: nat): nat {
    KeyBytes(if Upto(children, i) <= |s| then s[..Upto(children, i)] else s, p)
  }

  lemma RunsStart(s: seq<Record>, p: nat, children: seq<Child>)
    ensures StoredUpto(s, children, 0) == 0 && KeysUpto(s, p, children, 0) == 0
  {
    BoundsStart(s, p);
  }

  lemma RunBounds(a: State, st: State, traits: Traits, table: Table, base: nat, p: nat, s: seq<Record>,
                  children: seq<Child>, i: nat)
    requires Between(a, st, traits, table, base, p, s, children, i) && i < |children|
    ensures children[i].first <= children[i].last <= |s|
    ensures StoredUpto(s, children, i + 1) == StoredUpto(s, children, i) + StoredBytes(Slice(s, children[i]))
    ensures KeysUpto(s, p, children, i + 1) == KeysUpto(s, p, children, i) + KeyBytes(Slice(s, children[i]), p)
    ensures StoredUpto(s, children, i + 1) <= StoredBytes(s) && KeysUpto(s, p, children, i + 1) <= KeyBytes(s, p)
  {
    hide Coherent, Begun, Progress, RunsChecked, StoredBytes, KeyBytes, DistinctOffsets, Injective;
    RunStart(p, s, table, children, i);
    assert ChildOk(p, s, table, children[i]);
    BoundsStep(s, p, children[i].first, children[i].last);
  }

  lemma RunsEnd(a: State, st: State, traits: Traits, table: Table, base: nat, p: nat, s: seq<Record>,
                children: seq<Child>)
    requires Between(a, st, traits, table, base, p, s, children, |children|)
    ensures StoredUpto(s, children, |children|) == StoredBytes(s)
    ensures KeysUpto(s, p, children, |children|) == KeyBytes(s, p)
  {
    hide Coherent, Begun, Progress, RunsChecked, StoredBytes, KeyBytes, DistinctOffsets, Injective;
    assert s[..|s|] == s;
  }

  lemma ManyNodes(s: seq<Record>, p: nat)
    requires |s| > 1
    ensures NodeBound(s, p) == 1 + KeyBytes(s, p)
  {
  }

  lemma RunNodes(g: seq<Record>, p: nat, c: byte)
    requires CommonPrefix(g, Below(p, c)) && (c == 0 ==> |g| == 1)
    ensures NodeBound(g, Below(p, c)) <= KeyBytes(g, p)
  {
    NodesBelow(g, p, c);
  }

  lemma CoherentSize(a: State, traits: Traits)
    requires Coherent(a, traits)
    ensures 2 <= |a.da|
  {
    assert InUse(a.da, INITIAL);
  }

  lemma RootInUse(a: State, d: State, traits: Traits, table: Table, v: int, s: seq<Record>)
    requires Blank(a) && Arranged(a, d, traits, table, v, 0, s)
    ensures InUse(d.da, INITIAL) && INITIAL < |d.da|
  {
    assert InUse(a.da, INITIAL);
  }

  lemma ExpandKeeps(e: seq<Link>, e': seq<Link>, vac: set<nat>, more: set<nat>)
    requires Chained(e, vac) && |e| < |e'| && more == Interval(|e|, |e'|)
    requires forall k :: 0 < k < |e| ==> e'[k] == e[k]
    requires forall k :: |e| <= k < |e'| ==> e'[k] == Link(k - 1, k + 1)
    requires e'[0] == Link(|e'| - 1, e[0].next)
    ensures Chained(e', vac + more)
  {
    var vac' := vac + more;
    var last := |e| - 1;
    assert NextOk(e, vac, last) && e[last].next == |e|;
    forall i: nat | i < |e'| && (i == 0 || i in vac') ensures NextOk(e', vac', i) {
      if i < |e| {
        assert NextOk(e, vac, i);
        ExpandKeepsNext(e, e', vac, vac', i);
      }
    }
    forall i: nat | i in vac' ensures PrevOk(e', vac', i) {
      if i < |e| {
        assert PrevOk(e, vac, i);
      }
    }
  }

  lemma ExpandKeepsNext(e: seq<Link>, e': seq<Link>, vac: set<nat>, vac': set<nat>, i: nat)
    requires i < |e| < |e'| && (i == 0 || i in vac) && NextOk(e, vac, i)
    requires |e| > 1 ==> |e| - 1 in vac
    requires forall k :: k in vac' <==> k in vac || |e| <= k < |e'|
    requires forall k :: 0 < k < |e| ==> e'[k] == e[k]
    requires forall k :: |e| <= k < |e'| ==> e'[k] == Link(k - 1, k + 1)
    requires e'[0].next == e[0].next
    ensures NextOk(e', vac', i)
  {
  }

  /** `e'` is `e` with index `i` taken out of the list, and one more index linked in at
      the end when `i` was the last. */
  ghost predicate Unlinks(e: seq<Link>, e': seq<Link>, i: nat)
    requires i < |e|
  {
    && |e'| == (if e[i].next == |e| then |e| + 1 else |e|)
    && e[i].prev < |e'| && e[i].next < |e'|
    && e'[e[i].prev].next == e[i].next && e'[e[i].next].prev == e[i].prev
    && (forall k :: 0 <= k < |e| && k != e[i].prev ==> e'[k].next == e[k].next)
    && (forall k :: 0 < k < |e| && k != e[i].next ==> e'[k].prev == e[k].prev)
    && e'[0].prev == |e'| - 1 && (e[i].next == |e| ==> e'[|e|].next == |e| + 1)
  }

  lemma UseKeepsNext(e: seq<Link>, e': seq<Link>, vac: set<nat>, i: nat, vac': set<nat>, k: nat)
    requires i < |e| && Unlinks(e, e', i) && i in vac && NextOk(e, vac, i) && PrevOk(e, vac, i)
    requires k < |e| && k != i && (k == 0 || k in vac) && NextOk(e, vac, k) && (k != e[i].prev ==> e[k].next != i)
    requires forall x :: x in vac ==> 1 <= x < |e|
    requires vac' == vac - {i} + if e[i].next == |e| then {|e|} else {}
    ensures NextOk(e', vac', k)
  {
  }

  lemma UseKeepsPrev(e: seq<Link>, e': seq<Link>, vac: set<nat>, i: nat, vac': set<nat>, k: nat)
    requires i < |e| && Unlinks(e, e', i) && i in vac && NextOk(e, vac, i) && PrevOk(e, vac, i)
    requires k < |e| && k != i && k in vac && PrevOk(e, vac, k)
    requires vac' == vac - {i} + if e[i].next == |e| then {|e|} else {}
    ensures PrevOk(e', vac', k)
  {
  }

  lemma UseKeepsNexts(e: seq<Link>, e': seq<Link>, vac: set<nat>, i: nat, vac': set<nat>)
    requires Chained(e, vac) && i in vac && Unlinks(e, e', i)
    requires vac' == vac - {i} + if e[i].next == |e| then {|e|} else {}
    ensures forall k: nat {:trigger NextOk(e', vac', k)} :: k < |e'| && (k == 0 || k in vac') ==> NextOk(e', vac', k)
  {
    NextOfOthers(e, vac, i, i);
    assert PrevOk(e, vac, i);
    forall k: nat | k < |e'| && (k == 0 || k in vac') ensures NextOk(e', vac', k) {
      if k < |e| {
        NextOfOthers(e, vac, i, k);
        hide *;
        UseKeepsNext(e, e', vac, i, vac', k);
      } else {
        UseKeepsLast(e, e', vac, i, vac');
      }
    }
  }

  lemma UseKeepsPrevs(e: seq<Link>, e': seq<Link>, vac: set<nat>, i: nat, vac': set<nat>)
    requires Chained(e, vac) && i in vac && Unlinks(e, e', i)
    requires vac' == vac - {i} + if e[i].next == |e| then {|e|} else {}
    ensures forall k: nat {:trigger PrevOk(e', vac', k)} :: k in vac' ==> PrevOk(e', vac', k)
  {
    NextOfOthers(e, vac, i, i);
    assert PrevOk(e, vac, i);
    forall k: nat | k in vac' ensures PrevOk(e', vac', k) {
      if k < |e| {
        assert PrevOk(e, vac, k);
        hide *;
        UseKeepsPrev(e, e', vac, i, vac', k);
      } else {
        UseKeepsLast(e, e', vac, i, vac');
      }
    }
  }

  lemma UseKeeps(e: seq<Link>, e': seq<Link>, vac: set<nat>, i: nat)
    requires Chained(e, vac) && i in vac && Unlinks(e, e', i)
    ensures Chained(e', vac - {i} + if i == |e| - 1 then {|e|} else {})
  {
    hide NextOk, PrevOk;
    NextOfOthers(e, vac, i, i);
    LastLinksOut(e, vac, i);
    var vac': set<nat> := vac - {i} + if e[i].next == |e| then {|e|} else {};
    UseKeepsNexts(e, e', vac, i, vac');
    UseKeepsPrevs(e, e', vac, i, vac');
  }

  lemma UseKeepsLast(e: seq<Link>, e': seq<Link>, vac: set<nat>, i: nat, vac': set<nat>)
    requires i < |e| && Unlinks(e, e', i) && e[i].next == |e| && PrevOk(e, vac, i)
    requires vac' == vac - {i} + {|e|}
    ensures NextOk(e', vac', |e|) && PrevOk(e', vac', |e|)
  {
  }

  lemma LastLinksOut(e: seq<Link>, vac: set<nat>, i: nat)
    requires Chained(e, vac) && i in vac && NextOk(e, vac, i)
    ensures e[i].next == |e| <==> i == |e| - 1
  {
  }

  /** Only the index that `prev` names links to `i`. */
  lemma NextOfOthers(e: seq<Link>, vac: set<nat>, i: nat, k: nat)
    requires Chained(e, vac) && i in vac && k < |e| && (k == 0 || k in vac)
    ensures NextOk(e, vac, k) && (k != e[i].prev ==> e[k].next != i)
  {
    assert NextOk(e, vac, k);
  }

  /** Following the list skips no vacant index, and leaves the array for a free one. */
  lemma NextVacant(da: seq<Cell>, e: seq<Link>, vac: set<nat>, i: nat)
    requires |da| <= |e| && Chained(e, vac) && vac == VacantIn(da, |e|)
    requires i == 0 || !InUse(da, i)
    ensures var j := if i < |e| then e[i].next else i + 1;
            i < j && !InUse(da, j) && forall k :: i < k < j ==> InUse(da, k)
  {
    if i < |e| {
      assert NextOk(e, vac, i);
      assert forall k: nat :: i < k < e[i].next ==> (k in vac <==> !InUse(da, k));
    }
  }
}
