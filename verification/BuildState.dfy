/** The state of a build as a value: which cells are owned by which BASE, what
    every nested call of `arrange` keeps, and when a subtree is complete. */
module BuildState {
  import opened Bytes
  import opened Records
  import opened Cells
  import opened TrieSpec
  import opened Children

  /** `own` maps each used cell except the root to the BASE it is addressed from;
      `pending` holds the cells reserved with a tentative BASE of 1. */
  datatype State = State(da: seq<Cell>, tail: bytes, used: set<nat>, own: map<nat, nat>, pending: set<nat>)

  /** A used cell whose BASE is final. */
  ghost predicate Done(st: State, j: nat) {
    InUse(st.da, j) && j !in st.pending
  }

  /** What holds between any two steps of a build:
      - the used cells are the root and the owned cells;
      - an owned cell lies within reach of a used BASE, and a final one names it by CHECK;
      - final nodes have pairwise distinct, used BASEs. */
  ghost predicate Coherent(st: State, traits: Traits) {
    && 0 < |st.tail| && st.tail[0] == 0
    && (forall j: nat :: InUse(st.da, j) <==> j == INITIAL || j in st.own)
    && (forall j :: j in st.own ==> st.own[j] in st.used && st.own[j] < j && j != INITIAL)
    && (forall j :: j in st.own && j !in st.pending ==> j == st.own[j] + st.da[j].check as int + 1)
    && (forall j: nat :: Done(st, j) && st.da[j].base > 0 ==> st.da[j].base in st.used)
    && (forall i: nat, j: nat :: Done(st, i) && Done(st, j) && st.da[i].base == st.da[j].base > 0 ==> i == j)
    && (forall j :: 0 <= j < |st.da| ==> traits.InRange(st.da[j].base))
    && (forall j :: j in st.pending ==> InUse(st.da, j))
  }

  /** No final cell holds BASE `v`. */
  ghost predicate Unstored(st: State, v: int) {
    forall j: nat :: Done(st, j) ==> st.da[j].base != v
  }

  ghost predicate Stored(st: State, v: int) {
    exists j: nat :: Done(st, j) && st.da[j].base == v
  }

  /** From `a` to `b` cells in use stay as they are, and whatever is new hangs
      from BASEs that were free in `a`. */
  ghost predicate Grows(a: State, b: State) {
    && a.tail <= b.tail && |a.da| <= |b.da| && a.used <= b.used
    && (forall j: nat :: InUse(a.da, j) ==> InUse(b.da, j) && b.da[j] == a.da[j])
    && (forall j :: j in a.own ==> j in b.own && b.own[j] == a.own[j])
    && (forall j :: j in b.own && j !in a.own ==> b.own[j] !in a.used)
    && (forall j: nat :: InUse(b.da, j) && !InUse(a.da, j) && j !in b.pending ==> b.da[j].base !in a.used)
  }

  /** A node at depth `p` with BASE `v` is complete and holds exactly `s`, all its
      BASEs being from `bases`; no other cell is owned by one of its BASEs. */
  ghost predicate Subtree(st: State, table: Table, bases: set<nat>, v: int, p: nat, s: seq<Record>)
    decreases MaxLen(s) - p, |s|
  {
    && s != []
    && KeysNulFree(s)
    && CommonPrefix(s, p)
    && if |s| == 1 then IsLeaf(st.tail, v, p, s[0])
       else
         && v > 0 && v in bases
         && forall c: byte :: Arc(st, table, bases, v, p, s, c)
  }

  /** The arc of byte `c` out of that node. */
  ghost predicate Arc(st: State, table: Table, bases: set<nat>, v: nat, p: nat, s: seq<Record>, c: byte)
    requires |s| >= 2 && CommonPrefix(s, p)
    decreases MaxLen(s) - p, |s|, 0
  {
    var g := Group(s, p, c);
    var j := v + Offset(table, c);
    if g == [] then
      j in st.own ==> st.own[j] != v
    else
      && j in st.own && st.own[j] == v
      && j < |st.da| && st.da[j].check == table[c]
      && (c == 0 ==> |g| == 1)
      && assert forall r :: r in g ==> r in s;
         assert g[0] in g;
         Subtree(st, table, bases, st.da[j].base, Below(p, c), g)
  }

  /** The cells owned by BASEs of `bases` are the same in `a` and in `b`. */
  ghost predicate Keeps(a: State, b: State, bases: set<nat>) {
    && a.tail <= b.tail
    && (forall j :: j in a.own && a.own[j] in bases ==>
          j in b.own && b.own[j] == a.own[j] && j < |b.da| && j < |a.da| && b.da[j] == a.da[j])
    && (forall j :: j in b.own && b.own[j] in bases ==> j in a.own && a.own[j] == b.own[j])
  }

  lemma {:induction false} SubtreeFrame(a: State, b: State, table: Table, bases: set<nat>, bases2: set<nat>, v: int,
                                        p: nat, s: seq<Record>)
    requires Subtree(a, table, bases, v, p, s)
    requires Keeps(a, b, bases) && bases <= bases2
    ensures Subtree(b, table, bases2, v, p, s)
    decreases MaxLen(s) - p, |s|
  {
    if |s| == 1 {
      HoldsAtExtends(a.tail, b.tail, -v, s[0].key[p..] + [0] + EncodeValue(s[0].value));
    } else {
      forall c: byte ensures Arc(b, table, bases2, v, p, s, c) {
        assert Arc(a, table, bases, v, p, s, c);
        var g := Group(s, p, c);
        if g != [] {
          assert g[0] in g && g[0] in s;
          SubtreeFrame(a, b, table, bases, bases2, a.da[v + Offset(table, c)].base, Below(p, c), g);
        }
      }
    }
  }

  /** In a finished array a complete node is what the reader walks on: a cell that
      answers to an arc it does not have is vacant. */
  lemma {:induction false} SubtreeIsTrie(st: State, traits: Traits, table: Table, bases: set<nat>, v: int, p: nat,
                                        s: seq<Record>)
    requires Coherent(st, traits) && st.pending == {}
    requires Subtree(st, table, bases, v, p, s)
    ensures IsTrie(st.da, st.tail, table, v, p, s)
    decreases MaxLen(s) - p, |s|
  {
    hide Group, KeysNulFree, IsLeaf;
    if |s| == 1 {
    } else {
      forall c: byte ensures IsTrieArc(st.da, st.tail, table, v, p, s, c) {
        assert Arc(st, table, bases, v, p, s, c);
        var g := Group(s, p, c);
        var j: nat := v + Offset(table, c);
        if g != [] {
          assert g[0] in g && g[0] in s;
          SubtreeIsTrie(st, traits, table, bases, st.da[j].base, Below(p, c), g);
        } else if j < |st.da| && st.da[j].check == table[c] && st.da[j].base != 0 {
          assert false;
        }
      }
    }
  }

  // ----- reserving the cells of the children, and finishing them one by one

  /** The cells of the children numbered from `lo` up to `hi`. */
  ghost function ChildCells(children: seq<Child>, base: nat, lo: nat, hi: nat): set<nat> {
    set k | lo <= k < hi && k < |children| :: base + children[k].offset
  }

  /** `da'` is `da` with vacant cells appended. */
  ghost predicate Enlarges(da: seq<Cell>, da': seq<Cell>) {
    da <= da' && forall j :: |da| <= j < |da'| ==> da'[j] == VACANT
  }

  /** From `a` to `x` the array grew and the free BASE `base` was marked. */
  ghost predicate Marks(a: State, x: State, base: nat) {
    base !in a.used && Enlarges(a.da, x.da) && x == a.(da := x.da, used := a.used + {base})
  }

  lemma MarksIt(a: State, x: State, base: nat)
    requires base !in a.used && Enlarges(a.da, x.da) && x.used == a.used + {base}
    requires x.tail == a.tail && x.own == a.own && x.pending == a.pending
    ensures Marks(a, x, base)
  {
  }

  lemma MarkKeeps(a: State, x: State, traits: Traits, base: nat)
    requires Coherent(a, traits) && Marks(a, x, base)
    ensures Marks(a, x, base) && Coherent(x, traits) && Grows(a, x)
    ensures forall j: nat :: InUse(x.da, j) <==> InUse(a.da, j)
  {
    MarkCells(a, x, base);
    hide InUse, Done, Traits.InRange;
    assert traits.InRange(0) by {
      ZeroInRange(traits);
    }
  }

  lemma ZeroInRange(traits: Traits)
    ensures traits.InRange(0)
  {
  }

  lemma MarkCells(a: State, x: State, base: nat)
    requires Marks(a, x, base)
    ensures forall j: nat :: InUse(x.da, j) <==> InUse(a.da, j)
    ensures forall j: nat :: Done(x, j) <==> Done(a, j)
    ensures forall j: nat :: InUse(x.da, j) ==> j < |a.da|
  {
  }

  /** From `a` to `b` the free cell `j` was reserved under `base`. */
  ghost predicate Takes(a: State, b: State, j: nat, base: nat) {
    && j < |a.da| && !InUse(a.da, j) && j !in a.own
    && b == a.(da := a.da[j := Cell(1, a.da[j].check)], own := a.own[j := base], pending := a.pending + {j})
  }

  /** From `a` to `b` exactly the cells of the first `n` children were taken, for `base`. */
  ghost predicate Reserved(a: State, b: State, base: nat, children: seq<Child>, n: nat) {
    var kids := ChildCells(children, base, 0, n);
    && b.used == a.used && b.tail == a.tail && |b.da| == |a.da|
    && b.pending == a.pending + kids
    && (forall j: nat :: InUse(b.da, j) <==> InUse(a.da, j) || j in kids)
    && (forall j: nat :: InUse(a.da, j) ==> b.da[j] == a.da[j])
    && (forall j :: j in b.own <==> j in a.own || j in kids)
    && (forall j :: j in a.own ==> b.own[j] == a.own[j])
    && (forall j :: j in kids ==> b.own[j] == base)
  }

  lemma ReservedOneMore(a: State, st: State, b: State, base: nat, children: seq<Child>, i: nat)
    requires Reserved(a, st, base, children, i) && i < |children|
    requires Takes(st, b, base + children[i].offset, base)
    ensures Reserved(a, b, base, children, i + 1)
  {
    var j := base + children[i].offset;
    assert ChildCells(children, base, 0, i + 1) == ChildCells(children, base, 0, i) + {j};
    assert forall k: nat :: InUse(b.da, k) <==> InUse(st.da, k) || k == j;
  }

  lemma ReserveStart(a: State, base: nat, children: seq<Child>)
    ensures Reserved(a, a, base, children, 0)
  {
    assert ChildCells(children, base, 0, 0) == {};
  }

  lemma TakesOne(a: State, b: State, j: nat, base: nat)
    requires Takes(a, b, j, base)
    ensures |b.own| == |a.own| + 1
  {
  }

  lemma StillFree(a: State, st: State, base: nat, children: seq<Child>, i: nat)
    requires i < |children| && DistinctOffsets(children)
    requires Reserved(a, st, base, children, i) && !InUse(a.da, base + children[i].offset)
    requires base + children[i].offset < |a.da|
    ensures !InUse(st.da, base + children[i].offset) && base + children[i].offset < |st.da| && st.used == a.used
  {
    assert base + children[i].offset !in ChildCells(children, base, 0, i);
  }

  lemma NotOwned(a: State, traits: Traits, j: nat)
    requires Coherent(a, traits) && !InUse(a.da, j)
    ensures j !in a.own
  {
  }

  lemma ReserveKeeps(a: State, b: State, traits: Traits, j: nat, base: nat)
    requires Coherent(a, traits) && Takes(a, b, j, base)
    requires base in a.used && 1 <= base < j
    ensures Coherent(b, traits)
  {
    TakesCells(a, b, j, base);
    hide InUse, Done, Traits.InRange;
    assert forall k: nat :: k < |a.da| && k != j ==> b.da[k] == a.da[k];
    assert traits.InRange(1) by {
      OneInRange(traits);
    }
  }

  lemma OneInRange(traits: Traits)
    ensures traits.InRange(1)
  {
  }

  lemma TakesCells(a: State, b: State, j: nat, base: nat)
    requires Takes(a, b, j, base)
    ensures forall k: nat :: InUse(b.da, k) <==> InUse(a.da, k) || k == j
    ensures forall k: nat :: Done(b, k) <==> Done(a, k)
    ensures forall k: nat :: InUse(b.da, k) ==> k < |b.da|
  {
  }

  /** What a call of `arrange` that returns `v` does to the array as a whole. */
  ghost predicate Settled(a: State, b: State, traits: Traits, v: int) {
    && Coherent(b, traits) && Grows(a, b) && b.pending == a.pending
    && v != 0 && traits.InRange(v)
    && (v > 0 ==> v in b.used && v !in a.used && Unstored(b, v))
    && (forall u :: u in b.used && u !in a.used && u != v ==> Stored(b, u))
  }

  /** ... and what it built. */
  ghost predicate Arranged(a: State, b: State, traits: Traits, table: Table, v: int, p: nat, s: seq<Record>) {
    Settled(a, b, traits, v) && Subtree(b, table, b.used - a.used, v, p, s)
  }

  /** A child is complete, and its cell answers to its arc. */
  ghost predicate Finished(st: State, table: Table, bases: set<nat>, base: nat, p: nat, s: seq<Record>, ch: Child) {
    && ChildOk(p, s, table, ch)
    && InUse(st.da, base + ch.offset)
    && st.da[base + ch.offset].check == table[ch.c]
    && Subtree(st, table, bases, st.da[base + ch.offset].base, Below(p, ch.c), Slice(s, ch))
  }

  /** The node begun in state `a` has BASE `base`; its children from number `i` on are reserved. */
  ghost predicate Begun(a: State, st: State, traits: Traits, base: nat, children: seq<Child>, i: nat) {
    && Coherent(st, traits) && Grows(a, st)
    && base in st.used && base !in a.used && Unstored(st, base)
    && st.pending == a.pending + ChildCells(children, base, i, |children|)
    && (forall j :: j in ChildCells(children, base, 0, |children|) <==> j in st.own && st.own[j] == base)
    && (forall u :: u in st.used && u !in a.used && u != base ==> Stored(st, u))
  }

  /** The first `i` children are complete. */
  ghost predicate Progress(st: State, table: Table, bases: set<nat>, base: nat, p: nat, s: seq<Record>,
                           children: seq<Child>, i: nat) {
    forall k :: 0 <= k < i && k < |children| ==> Finished(st, table, bases, base, p, s, children[k])
  }

  ghost predicate DistinctOffsets(children: seq<Child>) {
    forall k, l :: 0 <= k < l < |children| ==> children[k].offset != children[l].offset
  }

  lemma PartitionDistinct(p: nat, s: seq<Record>, table: Table, children: seq<Child>)
    requires Partition(p, s, table, children) && Injective(table)
    ensures DistinctOffsets(children)
  {
    forall k, l | 0 <= k < l < |children| ensures children[k].offset != children[l].offset {
      RunsAscend(p, s, table, children, |s|, k, l);
      assert ChildOk(p, s, table, children[k]) && ChildOk(p, s, table, children[l]);
    }
  }

  /** Storing the final BASE and CHECK of one reserved cell. */
  lemma FinishKeeps(d: State, e: State, traits: Traits, j: nat, v: int, check: byte)
    requires Coherent(d, traits) && j in d.pending && j in d.own && j == d.own[j] + check as int + 1
    requires v != 0 && traits.InRange(v) && (v > 0 ==> v in d.used && Unstored(d, v))
    requires e == d.(da := d.da[j := Cell(v, check)], pending := d.pending - {j})
    ensures Coherent(e, traits)
    ensures forall k: nat :: Done(e, k) <==> Done(d, k) || k == j
  {
    assert forall k: nat :: InUse(e.da, k) <==> InUse(d.da, k);
    assert forall k: nat :: Done(e, k) <==> Done(d, k) || k == j;
  }

  lemma GrowsTransitive(a: State, b: State, c: State)
    requires Grows(a, b) && Grows(b, c) && c.pending == b.pending
    ensures Grows(a, c)
  {
    forall j: nat | InUse(c.da, j) && !InUse(a.da, j) && j !in c.pending
      ensures c.da[j].base !in a.used
    {
      if InUse(b.da, j) {
        assert c.da[j] == b.da[j];
      }
    }
  }

  lemma ChildCellsSplit(children: seq<Child>, base: nat, i: nat)
    requires DistinctOffsets(children) && i < |children|
    ensures var j := base + children[i].offset;
            && ChildCells(children, base, i, |children|) == {j} + ChildCells(children, base, i + 1, |children|)
            && j !in ChildCells(children, base, i + 1, |children|)
            && j in ChildCells(children, base, 0, |children|)
  {
  }

  lemma SetMinus(x: set<nat>, y: set<nat>, j: nat)
    requires j !in x && j !in y
    ensures x + ({j} + y) - {j} == x + y
  {
  }

  /** A cell owned by a new BASE was free before. */
  lemma NewCell(a: State, st: State, traits: Traits, j: nat)
    requires Coherent(a, traits) && Coherent(st, traits) && Grows(a, st)
    requires j in st.own && st.own[j] !in a.used
    ensures !InUse(a.da, j) && j !in a.pending
  {
    assert j !in a.own;
  }

  /** The cell of a reserved child. */
  lemma ReservedCell(a: State, st: State, traits: Traits, base: nat, children: seq<Child>, i: nat)
    requires Coherent(a, traits) && Begun(a, st, traits, base, children, i) && i < |children|
    requires DistinctOffsets(children)
    ensures var j := base + children[i].offset;
            && j in st.pending && j in st.own && st.own[j] == base && InUse(st.da, j)
            && !InUse(a.da, j)
            && st.pending - {j} == a.pending + ChildCells(children, base, i + 1, |children|)
  {
    var j := base + children[i].offset;
    ChildCellsSplit(children, base, i);
    assert j in st.own && st.own[j] == base;
    NewCell(a, st, traits, j);
    assert j in st.pending;
    SetMinus(a.pending, ChildCells(children, base, i + 1, |children|), j);
  }

  lemma FinishGrows(a: State, d: State, e: State, j: nat, v: int, check: byte)
    requires Grows(a, d) && !InUse(a.da, j) && j < |d.da| && v != 0 && v !in a.used
    requires e == d.(da := d.da[j := Cell(v, check)], pending := d.pending - {j})
    requires InUse(d.da, j)
    ensures Grows(a, e)
  {
    assert forall k: nat :: InUse(e.da, k) <==> InUse(d.da, k);
  }

  lemma FinishStored(a: State, st: State, d: State, e: State, base: nat, j: nat, v: int, check: byte, u: nat)
    requires Grows(st, d) && j in st.pending && d.pending == st.pending && InUse(d.da, j)
    requires e == d.(da := d.da[j := Cell(v, check)], pending := d.pending - {j}) && v != 0
    requires forall w :: w in st.used && w !in a.used && w != base ==> Stored(st, w)
    requires forall w :: w in d.used && w !in st.used && w != v ==> Stored(d, w)
    requires u in d.used && u !in a.used && u != base
    ensures Stored(e, u)
  {
    if u == v {
      assert Done(e, j) && e.da[j].base == u;
    } else if u in st.used {
      assert Stored(st, u);
      var k: nat :| Done(st, k) && st.da[k].base == u;
      assert Done(e, k) && e.da[k].base == u;
    } else {
      assert Stored(d, u);
      var k: nat :| Done(d, k) && d.da[k].base == u;
      assert Done(e, k) && e.da[k].base == u;
    }
  }

  lemma GrowsCell(a: State, b: State, j: nat)
    requires Grows(a, b) && j in a.own && InUse(a.da, j)
    ensures a.used <= b.used && j in b.own && b.own[j] == a.own[j] && InUse(b.da, j)
  {
  }

  lemma GrowsUsed(a: State, b: State)
    requires Grows(a, b)
    ensures a.used <= b.used
  {
  }

  lemma ChildCellsKept(st: State, d: State, base: nat, kids: set<nat>)
    requires Grows(st, d) && base in st.used
    requires forall j :: j in kids <==> j in st.own && st.own[j] == base
    ensures forall j :: j in kids <==> j in d.own && d.own[j] == base
  {
  }

  /** The next child: `st` before the nested call, `d` after it, `e` with its result stored. */
  lemma BegunStep(a: State, st: State, d: State, e: State, traits: Traits, table: Table, base: nat,
                  children: seq<Child>,
                  i: nat, v: int)
    requires Coherent(a, traits) && Begun(a, st, traits, base, children, i) && i < |children|
    requires DistinctOffsets(children) && children[i].offset == Offset(table, children[i].c)
    requires Settled(st, d, traits, v) && base + children[i].offset < |d.da|
    requires var j := base + children[i].offset;
             e == d.(da := d.da[j := Cell(v, table[children[i].c])], pending := d.pending - {j})
    ensures Begun(a, e, traits, base, children, i + 1)
  {
    hide Coherent, Grows, Unstored, Stored, DistinctOffsets, InUse, ChildCells;
    var j := base + children[i].offset;
    var check := table[children[i].c];
    ReservedCell(a, st, traits, base, children, i);
    GrowsCell(st, d, j);
    ChildCellsKept(st, d, base, ChildCells(children, base, 0, |children|));
    FinishKeeps(d, e, traits, j, v, check);
    GrowsUsed(a, st);
    GrowsTransitive(a, st, d);
    FinishGrows(a, d, e, j, v, check);
    forall u | u in e.used && u !in a.used && u != base ensures Stored(e, u) {
      FinishStored(a, st, d, e, base, j, v, check, u);
    }
    assert Unstored(e, base) by {
      BaseStaysUnstored(st, d, e, j, v, base, check);
    }
  }

  lemma BaseStaysUnstored(st: State, d: State, e: State, j: nat, v: int, base: nat, check: byte)
    requires Grows(st, d) && d.pending == st.pending && base in st.used && v != base && j < |d.da|
    requires Unstored(st, base) && v != 0 && InUse(d.da, j)
    requires e == d.(da := d.da[j := Cell(v, check)], pending := d.pending - {j})
    ensures Unstored(e, base)
  {
    forall k: nat | Done(e, k) ensures e.da[k].base != base {
      if k != j {
        assert Done(d, k);
        if InUse(st.da, k) {
          assert Done(st, k);
        }
      }
    }
  }

  /** Storing child `j`'s result disturbs nothing that hangs from `bases`. */
  lemma StepKeepsOlder(st: State, d: State, e: State, traits: Traits, bases: set<nat>, j: nat, cell: Cell)
    requires Coherent(st, traits) && Grows(st, d) && bases <= st.used
    requires j in st.own && st.own[j] !in bases && j < |d.da|
    requires e == d.(da := d.da[j := cell], pending := d.pending - {j})
    ensures Keeps(st, e, bases)
  {
    assert forall x :: x in st.own ==> InUse(st.da, x);
  }

  lemma StepKeepsNewer(st: State, d: State, e: State, traits: Traits, j: nat, cell: Cell)
    requires Coherent(d, traits) && Grows(st, d)
    requires j in st.own && st.own[j] in st.used && j < |d.da|
    requires e == d.(da := d.da[j := cell], pending := d.pending - {j})
    ensures Keeps(d, e, d.used - st.used)
  {
    assert forall x :: x in d.own ==> InUse(d.da, x);
  }

  lemma FinishedFrame(a: State, b: State, table: Table, bases: set<nat>, bases2: set<nat>, base: nat, p: nat,
                      s: seq<Record>, ch: Child)
    requires Finished(a, table, bases, base, p, s, ch)
    requires Keeps(a, b, bases) && bases <= bases2
    requires InUse(b.da, base + ch.offset) && b.da[base + ch.offset] == a.da[base + ch.offset]
    ensures Finished(b, table, bases2, base, p, s, ch)
  {
    SubtreeFrame(a, b, table, bases, bases2, a.da[base + ch.offset].base, Below(p, ch.c), Slice(s, ch));
  }

  lemma FinishedKept(st: State, d: State, e: State, table: Table, bases: set<nat>, bases2: set<nat>, base: nat, p: nat,
                     s: seq<Record>, ch: Child, j: nat, cell: Cell)
    requires Finished(st, table, bases, base, p, s, ch) && Keeps(st, e, bases) && bases <= bases2
    requires Grows(st, d) && j < |d.da| && base + ch.offset != j
    requires e == d.(da := d.da[j := cell], pending := d.pending - {j})
    ensures Finished(e, table, bases2, base, p, s, ch)
  {
    assert e.da[base + ch.offset] == st.da[base + ch.offset];
    FinishedFrame(st, e, table, bases, bases2, base, p, s, ch);
  }

  lemma ProgressStep(a: State, st: State, d: State, e: State, traits: Traits, table: Table, base: nat, p: nat,
                     s: seq<Record>,
                     children: seq<Child>, i: nat, v: int)
    requires Coherent(a, traits) && Begun(a, st, traits, base, children, i) && i < |children|
    requires DistinctOffsets(children) && ChildOk(p, s, table, children[i])
    requires Arranged(st, d, traits, table, v, Below(p, children[i].c), Slice(s, children[i]))
    requires base + children[i].offset < |d.da|
    requires var j := base + children[i].offset;
             e == d.(da := d.da[j := Cell(v, table[children[i].c])], pending := d.pending - {j})
    requires Progress(st, table, st.used - a.used - {base}, base, p, s, children, i)
    ensures Progress(e, table, e.used - a.used - {base}, base, p, s, children, i + 1)
  {
    hide Coherent, Grows, Unstored, Stored, ChildCells, Subtree, Keeps, Slice;
    var j := base + children[i].offset;
    var cell := Cell(v, table[children[i].c]);
    var before, after := st.used - a.used - {base}, e.used - a.used - {base};
    ReservedCell(a, st, traits, base, children, i);
    GrowsCell(st, d, j);
    GrowsUsed(a, st);
    StepKeepsOlder(st, d, e, traits, before, j, cell);
    StepKeepsNewer(st, d, e, traits, j, cell);
    SubtreeFrame(d, e, table, d.used - st.used, after, v, Below(p, children[i].c), Slice(s, children[i]));
    assert Finished(e, table, after, base, p, s, children[i]);
    forall k | 0 <= k < i ensures Finished(e, table, after, base, p, s, children[k]) {
      assert Finished(st, table, before, base, p, s, children[k]);
      FinishedKept(st, d, e, table, before, after, base, p, s, children[k], j, cell);
    }
  }

  /** With every child complete, so is each arc of the node. */
  lemma ProgressArc(st: State, table: Table, bases: set<nat>, base: nat, p: nat, s: seq<Record>, children: seq<Child>,
                    c: byte)
    requires Progress(st, table, bases, base, p, s, children, |children|)
    requires forall j :: j in ChildCells(children, base, 0, |children|) <==> j in st.own && st.own[j] == base
    requires Partition(p, s, table, children) && Injective(table)
    requires |s| > 1 && CommonPrefix(s, p)
    requires children[0].c == 0 ==> children[0].last == 1
    ensures Arc(st, table, bases, base, p, s, c)
  {
    if Group(s, p, c) != [] {
      hide *;
      var k := GroupHasChild(p, s, table, children, c);
      PartitionGroup(p, s, table, children, k);
      NulChildAlone(p, s, table, children, k);
      ProgressAt(st, table, bases, base, p, s, children, k);
      FinishedArc(st, table, bases, base, p, s, children, k);
    } else {
      AbsentArc(st, table, base, p, s, children, c);
    }
  }

  lemma ProgressAt(st: State, table: Table, bases: set<nat>, base: nat, p: nat, s: seq<Record>, children: seq<Child>,
                   k: nat)
    requires Progress(st, table, bases, base, p, s, children, |children|) && k < |children|
    ensures Finished(st, table, bases, base, p, s, children[k])
  {
  }

  lemma NulChildAlone(p: nat, s: seq<Record>, table: Table, children: seq<Child>, k: nat)
    requires Partition(p, s, table, children) && k < |children|
    requires children[0].c == 0 ==> children[0].last == 1
    ensures ChildOk(p, s, table, children[k])
    ensures children[k].c == 0 ==> |Slice(s, children[k])| == 1
  {
    if children[k].c == 0 && k > 0 {
      RunsAscend(p, s, table, children, |s|, 0, k);
    }
  }

  lemma FinishedArc(st: State, table: Table, bases: set<nat>, base: nat, p: nat, s: seq<Record>, children: seq<Child>,
                    k: nat)
    requires k < |children| && Finished(st, table, bases, base, p, s, children[k])
    requires forall j :: j in ChildCells(children, base, 0, |children|) <==> j in st.own && st.own[j] == base
    requires |s| > 1 && CommonPrefix(s, p)
    requires Group(s, p, children[k].c) == Slice(s, children[k])
    requires children[k].c == 0 ==> |Slice(s, children[k])| == 1
    ensures Arc(st, table, bases, base, p, s, children[k].c)
  {
    assert base + children[k].offset in ChildCells(children, base, 0, |children|);
  }

  lemma PresentGroup(p: nat, s: seq<Record>, table: Table, children: seq<Child>, c: byte, k: nat)
    requires Partition(p, s, table, children) && Injective(table)
    requires k < |children| && children[k].offset == Offset(table, c)
    ensures Group(s, p, c) != []
  {
    hide Partition, Group;
    PartitionGroup(p, s, table, children, k);
    assert table[children[k].c] == table[c];
  }

  lemma AbsentArc(st: State, table: Table, base: nat, p: nat, s: seq<Record>, children: seq<Child>, c: byte)
    requires forall j :: j in ChildCells(children, base, 0, |children|) <==> j in st.own && st.own[j] == base
    requires Partition(p, s, table, children) && Injective(table)
    requires Group(s, p, c) == []
    ensures var j := base + Offset(table, c); j in st.own ==> st.own[j] != base
  {
    hide Partition, Group, Injective, Offset;
    var j := base + Offset(table, c);
    if j in st.own && st.own[j] == base {
      assert j in ChildCells(children, base, 0, |children|);
      var k :| 0 <= k < |children| && j == base + children[k].offset;
      PresentGroup(p, s, table, children, c, k);
      assert false;
    }
  }

  lemma ProgressDone(a: State, st: State, traits: Traits, table: Table, base: nat, p: nat, s: seq<Record>,
                     children: seq<Child>)
    requires Begun(a, st, traits, base, children, |children|)
    requires Progress(st, table, st.used - a.used - {base}, base, p, s, children, |children|)
    requires Partition(p, s, table, children) && Injective(table)
    requires |s| > 1 && KeysNulFree(s) && CommonPrefix(s, p) && 0 < base && traits.InRange(base)
    requires children[0].c == 0 ==> children[0].last == 1
    ensures Arranged(a, st, traits, table, base, p, s)
  {
    hide Coherent, Grows, Unstored, Stored, Partition, Progress, Keeps;
    var bases := st.used - a.used;
    assert ChildCells(children, base, |children|, |children|) == {};
    assert st.pending == a.pending;
    KeepsItself(st, traits, bases - {base});
    ProgressWidened(st, table, bases - {base}, bases, base, p, s, children);
    forall c: byte ensures Arc(st, table, bases, base, p, s, c) {
      ProgressArc(st, table, bases, base, p, s, children, c);
    }
    assert base in bases;
    assert Settled(a, st, traits, base);
    assert Subtree(st, table, bases, base, p, s);
  }

  lemma KeepsItself(st: State, traits: Traits, bases: set<nat>)
    requires Coherent(st, traits)
    ensures Keeps(st, st, bases)
  {
    assert forall j :: j in st.own ==> InUse(st.da, j);
  }

  lemma ProgressWidened(st: State, table: Table, bases: set<nat>, bases2: set<nat>, base: nat, p: nat, s: seq<Record>,
                        children: seq<Child>)
    requires Progress(st, table, bases, base, p, s, children, |children|)
    requires Keeps(st, st, bases) && bases <= bases2
    ensures Progress(st, table, bases2, base, p, s, children, |children|)
  {
    forall k | 0 <= k < |children| ensures Finished(st, table, bases2, base, p, s, children[k]) {
      assert Finished(st, table, bases, base, p, s, children[k]);
      FinishedFrame(st, st, table, bases, bases2, base, p, s, children[k]);
    }
  }

  lemma BegunStart(a: State, x: State, st: State, traits: Traits, base: nat, children: seq<Child>)
    requires Coherent(a, traits) && Marks(a, x, base) && Coherent(x, traits)
    requires Reserved(x, st, base, children, |children|) && Coherent(st, traits)
    requires forall j: nat :: InUse(x.da, j) <==> InUse(a.da, j)
    ensures Begun(a, st, traits, base, children, 0)
    ensures |st.used - a.used| == 1
  {
    assert st.used - a.used == {base};
    var kids := ChildCells(children, base, 0, |children|);
    forall j: nat | Done(st, j) ensures st.da[j].base != base {
      assert j !in kids;
      assert Done(a, j) && st.da[j] == a.da[j];
    }
    forall j ensures j in kids <==> j in st.own && st.own[j] == base {
      if j in a.own {
        assert a.own[j] in a.used;
      }
    }
    forall j: nat | InUse(a.da, j) ensures InUse(st.da, j) && st.da[j] == a.da[j] {
      assert InUse(x.da, j);
    }
  }

  /** A single record becomes a leaf: the rest of its key and its value go to the tail. */
  lemma LeafArranged(a: State, b: State, traits: Traits, table: Table, p: nat, s: seq<Record>)
    requires Coherent(a, traits) && |s| == 1 && KeysNulFree(s) && CommonPrefix(s, p)
    requires |a.tail| <= traits.MaxBase()
    requires b == a.(tail := a.tail + (s[0].key[p..] + [0]) + EncodeValue(s[0].value))
    ensures Arranged(a, b, traits, table, -|a.tail|, p, s)
  {
    var stored := s[0].key[p..] + [0] + EncodeValue(s[0].value);
    assert b.tail == a.tail + stored;
    assert HoldsAt(b.tail, |a.tail|, stored);
    assert forall j: nat :: Done(b, j) <==> Done(a, j);
  }

  // ----- conservation

  /** The node count went from `n0` to `n1` and the leaf count from `l0` to `l1`: every cell
      newly used is a node or a leaf, up to the cell of the subtree's root, which the caller
      owns; every node took one BASE; every record is a leaf. */
  ghost predicate Counted(a: State, b: State, n0: int, n1: int, l0: int, l1: int, records: nat) {
    && n1 - n0 == |b.used - a.used| && l1 - l0 == records
    && |b.own| + 1 == |a.own| + (n1 - n0) + (l1 - l0)
  }

  ghost predicate CountedSoFar(a: State, st: State, n0: int, n1: int, l0: int, l1: int, children: seq<Child>, i: nat)
    requires i <= |children|
  {
    && n1 - n0 + 1 == |st.used - a.used|
    && l1 - l0 == (if i == 0 then 0 else children[i - 1].last)
    && |st.own| + i == |a.own| + |children| + (n1 - n0) + (l1 - l0)
  }

  lemma CountedStep(a: State, st: State, d: State, e: State, n0: int, n1: int, n2: int, l0: int, l1: int, l2: int,
                    children: seq<Child>, i: nat)
    requires i < |children| && children[i].first <= children[i].last
    requires children[i].first == if i == 0 then 0 else children[i - 1].last
    requires CountedSoFar(a, st, n0, n1, l0, l1, children, i)
    requires Counted(st, d, n1, n2, l1, l2, children[i].last - children[i].first)
    requires a.used <= st.used <= d.used && e.used == d.used && e.own == d.own
    ensures CountedSoFar(a, e, n0, n2, l0, l2, children, i + 1)
  {
    assert e.used - a.used == (st.used - a.used) + (d.used - st.used);
  }

  // ----- the loop over the children

  /** The first `i` runs are sorted, and the NUL run, which would come first, is a single record. */
  ghost predicate RunsChecked(s: seq<Record>, children: seq<Child>, i: nat) {
    && (forall k :: 0 <= k < i && k < |children| ==>
          children[k].first <= children[k].last <= |s| && Sorted(Slice(s, children[k])))
    && (0 < i && 0 < |children| && children[0].c == 0 ==> children[0].last == 1)
  }

  /** The node for `s` begun in state `a`, with its first `i` children complete. */
  ghost predicate Between(a: State, st: State, traits: Traits, table: Table, base: nat, p: nat, s: seq<Record>,
                          children: seq<Child>, i: nat) {
    && Coherent(a, traits) && Injective(table) && 0 < base < traits.MaxBase()
    && |s| > 1 && KeysNulFree(s) && CommonPrefix(s, p)
    && Partition(p, s, table, children) && DistinctOffsets(children)
    && Begun(a, st, traits, base, children, i)
    && Progress(st, table, st.used - a.used - {base}, base, p, s, children, i)
    && RunsChecked(s, children, i)
  }

  lemma ChildOffsets(p: nat, s: seq<Record>, table: Table, children: seq<Child>, maxOffset: nat)
    requires Partition(p, s, table, children) && IsMaxOffset(children, maxOffset)
    ensures children != [] && forall k :: 0 <= k < |children| ==> 1 <= children[k].offset <= maxOffset
    ensures maxOffset <= 256
  {
    var last :| 0 <= last < |children| && children[last].offset == maxOffset;
    assert ChildOk(p, s, table, children[last]);
    forall k | 0 <= k < |children| ensures 1 <= children[k].offset <= maxOffset {
      assert ChildOk(p, s, table, children[k]);
    }
  }

  lemma BetweenStart(a: State, x: State, st: State, traits: Traits, table: Table, base: nat, p: nat, s: seq<Record>,
                     children: seq<Child>, nodes: int, leaves: int)
    requires Coherent(a, traits) && Marks(a, x, base) && Coherent(x, traits)
    requires Reserved(x, st, base, children, |children|) && Coherent(st, traits)
    requires forall j: nat :: InUse(x.da, j) <==> InUse(a.da, j)
    requires Injective(table) && 0 < base < traits.MaxBase()
    requires |s| > 1 && KeysNulFree(s) && CommonPrefix(s, p)
    requires Partition(p, s, table, children) && DistinctOffsets(children)
    requires |st.own| == |a.own| + |children|
    ensures Between(a, st, traits, table, base, p, s, children, 0)
    ensures CountedSoFar(a, st, nodes, nodes, leaves, leaves, children, 0)
  {
    hide Coherent, Begun, Partition, Reserved;
    BegunStart(a, x, st, traits, base, children);
  }

  lemma BetweenDone(a: State, st: State, traits: Traits, table: Table, base: nat, p: nat, s: seq<Record>,
                    children: seq<Child>)
    requires Between(a, st, traits, table, base, p, s, children, |children|)
    ensures Arranged(a, st, traits, table, base, p, s) && Sorted(s)
  {
    forall k | 0 <= k < |children| ensures ChildOk(p, s, table, children[k]) && Sorted(Slice(s, children[k])) {
    }
    RunsSorted(p, s, table, children);
    ProgressDone(a, st, traits, table, base, p, s, children);
  }

  lemma CountedDone(a: State, st: State, traits: Traits, table: Table, base: nat, p: nat, s: seq<Record>,
                    children: seq<Child>,
                    n0: int, n1: int, l0: int, l1: int)
    requires Between(a, st, traits, table, base, p, s, children, |children|)
    requires CountedSoFar(a, st, n0, n1, l0, l1, children, |children|)
    ensures Counted(a, st, n0, n1 + 1, l0, l1, |s|)
  {
  }

  /** After the nested call the child's cell is still there to be written. */
  lemma ChildCellReady(a: State, st: State, d: State, traits: Traits, table: Table, base: nat, p: nat, s: seq<Record>,
                       children: seq<Child>, i: nat, v: int, g: seq<Record>)
    requires Between(a, st, traits, table, base, p, s, children, i) && i < |children|
    requires Arranged(st, d, traits, table, v, Below(p, children[i].c), g)
    ensures v != 0 && InUse(d.da, base + children[i].offset)
    ensures children[i].offset == table[children[i].c] as int + 1
  {
    ReservedCell(a, st, traits, base, children, i);
    assert ChildOk(p, s, table, children[i]);
  }

  lemma BetweenStep(a: State, st: State, d: State, e: State, traits: Traits, table: Table, base: nat, p: nat,
                    s: seq<Record>,
                    children: seq<Child>, i: nat, v: int)
    requires Between(a, st, traits, table, base, p, s, children, i) && i < |children|
    requires ChildOk(p, s, table, children[i]) && Sorted(Slice(s, children[i]))
    requires children[i].c == 0 ==> children[i].last == children[i].first + 1
    requires Arranged(st, d, traits, table, v, Below(p, children[i].c), Slice(s, children[i]))
    requires InUse(d.da, base + children[i].offset)
    requires var j := base + children[i].offset;
             e == d.(da := d.da[j := Cell(v, table[children[i].c])], pending := d.pending - {j})
    ensures Between(a, e, traits, table, base, p, s, children, i + 1)
  {
    BegunStep(a, st, d, e, traits, table, base, children, i, v);
    ProgressStep(a, st, d, e, traits, table, base, p, s, children, i, v);
  }

  lemma BetweenCounted(a: State, st: State, d: State, e: State, traits: Traits, table: Table, base: nat, p: nat,
                       s: seq<Record>,
                       children: seq<Child>, i: nat, v: int, n0: int, n1: int, n2: int, l0: int, l1: int, l2: int)
    requires Between(a, st, traits, table, base, p, s, children, i) && i < |children|
    requires ChildOk(p, s, table, children[i])
    requires Arranged(st, d, traits, table, v, Below(p, children[i].c), Slice(s, children[i]))
    requires CountedSoFar(a, st, n0, n1, l0, l1, children, i)
    requires Counted(st, d, n1, n2, l1, l2, |Slice(s, children[i])|)
    requires e.used == d.used && e.own == d.own
    ensures CountedSoFar(a, e, n0, n2, l0, l2, children, i + 1)
  {
    hide Coherent, Partition, Subtree, Begun, Progress, RunsChecked, Stored, Unstored, DistinctOffsets;
    RunStart(p, s, table, children, i);
    GrowsUsed(st, d);
    BegunUsed(a, st, traits, base, children, i);
    CountedStep(a, st, d, e, n0, n1, n2, l0, l1, l2, children, i);
  }

  lemma BegunUsed(a: State, st: State, traits: Traits, base: nat, children: seq<Child>, i: nat)
    requires Begun(a, st, traits, base, children, i)
    ensures a.used <= st.used
  {
  }

  lemma RunStart(p: nat, s: seq<Record>, table: Table, children: seq<Child>, i: nat)
    requires Partition(p, s, table, children) && i < |children|
    ensures children[i].first == if i == 0 then 0 else children[i - 1].last
  {
  }

  lemma BetweenNext(a: State, st: State, d: State, e: State, traits: Traits, table: Table, base: nat, p: nat,
                    s: seq<Record>,
                    children: seq<Child>, i: nat, v: int, n0: int, n1: int, n2: int, l0: int, l1: int, l2: int)
    requires i < |children| && children[i].first <= children[i].last <= |s|
    requires children[i].offset == table[children[i].c] as int + 1
    requires var j := base + children[i].offset;
             j < |d.da| && e == d.(da := d.da[j := Cell(v, children[i].offset - 1)], pending := d.pending - {j})
    requires CountedSoFar(a, st, n0, n1, l0, l1, children, i)
    requires Counted(st, d, n1, n2, l1, l2, |Slice(s, children[i])|)
    requires Between(a, st, traits, table, base, p, s, children, i)
    requires ChildOk(p, s, table, children[i]) && Sorted(Slice(s, children[i]))
    requires children[i].c == 0 ==> children[i].last == children[i].first + 1
    requires Arranged(st, d, traits, table, v, Below(p, children[i].c), Slice(s, children[i]))
    requires InUse(d.da, base + children[i].offset)
    ensures Between(a, e, traits, table, base, p, s, children, i + 1)
    ensures CountedSoFar(a, e, n0, n2, l0, l2, children, i + 1)
  {
    hide *;
    BetweenStep(a, st, d, e, traits, table, base, p, s, children, i, v);
    BetweenCounted(a, st, d, e, traits, table, base, p, s, children, i, v, n0, n1, n2, l0, l1, l2);
  }

  lemma RunRecords(p: nat, s: seq<Record>, table: Table, children: seq<Child>, i: nat)
    requires |s| > 1 && KeysNulFree(s) && CommonPrefix(s, p) && Partition(p, s, table, children) && i < |children|
    ensures ChildOk(p, s, table, children[i])
    ensures var g := Slice(s, children[i]);
            && g != [] && KeysNulFree(g) && CommonPrefix(g, Below(p, children[i].c))
            && MaxLen(g) <= MaxLen(s) && |g| <= |s|
            && p <= MaxLen(s) && (children[i].c != 0 ==> p < MaxLen(s))
  {
    hide Partition, Group, CommonPrefix, MaxLen;
    PartitionGroup(p, s, table, children, i);
    GroupPrefix(s, p, children[i].c);
    RunReaches(p, s, children[i].first, children[i].c);
    assert At(s[children[i].first].key, p) == children[i].c;
  }

  lemma RunReaches(p: nat, s: seq<Record>, k: nat, c: byte)
    requires CommonPrefix(s, p) && k < |s| && At(s[k].key, p) == c
    ensures p <= MaxLen(s) && (c != 0 ==> p < MaxLen(s))
  {
    assert |s[k].key| <= MaxLen(s);
  }

  /** What the nested call on the records of child `i` relies on. */
  lemma ChildRecords(a: State, st: State, traits: Traits, table: Table, base: nat, p: nat, s: seq<Record>,
                     children: seq<Child>, i: nat)
    requires Between(a, st, traits, table, base, p, s, children, i) && i < |children|
    ensures Coherent(st, traits) && Injective(table) && KeysNulFree(s) && CommonPrefix(s, p)
    ensures ChildOk(p, s, table, children[i]) && children[i].first < children[i].last <= |s|
    ensures var g := Slice(s, children[i]);
            && g == s[children[i].first..children[i].last]
            && g != [] && KeysNulFree(g) && CommonPrefix(g, Below(p, children[i].c))
            && MaxLen(g) <= MaxLen(s) && |g| <= |s| && (|g| == 1 ==> |g| < |s|)
            && p <= MaxLen(s) && (children[i].c != 0 ==> p < MaxLen(s))
    ensures Below(p, children[i].c) == if children[i].c == 0 then p else p + 1
    ensures forall k :: children[i].first <= k < children[i].last ==> At(s[k].key, p) == children[i].c
  {
    RunRecords(p, s, table, children, i);
  }

  // ----- the whole build

  /** A finished build of `s`: every cell is final, every owner is a node's BASE, and the
      root holds `s`. */
  ghost predicate Built(st: State, traits: Traits, table: Table, s: seq<Record>) {
    && Coherent(st, traits) && st.pending == {} && InUse(st.da, INITIAL)
    && (forall j :: j in st.own ==> Stored(st, st.own[j]))
    && IsTrie(st.da, st.tail, table, st.da[INITIAL].base, 0, s)
  }

  /** The array before the root is arranged: one reserved cell. */
  ghost predicate Blank(st: State) {
    && st.tail == [0] && st.da == [VACANT, Cell(1, 0)]
    && st.own == map[] && st.pending == {INITIAL}
  }

  lemma BlankCoherent(a: State, traits: Traits)
    requires Blank(a)
    ensures Coherent(a, traits)
  {
  }

  lemma RootKeeps(d: State, e: State, traits: Traits, v: int)
    requires Coherent(d, traits) && d.pending == {INITIAL}
    requires v != 0 && traits.InRange(v) && (v > 0 ==> v in d.used && Unstored(d, v))
    requires InUse(d.da, INITIAL)
    requires e == d.(da := d.da[INITIAL := d.da[INITIAL].(base := v)], pending := {})
    ensures Coherent(e, traits)
    ensures forall k: nat :: Done(e, k) <==> Done(d, k) || k == INITIAL
  {
    assert forall k: nat :: InUse(e.da, k) <==> InUse(d.da, k);
    assert forall k: nat :: Done(e, k) <==> Done(d, k) || k == INITIAL;
  }

  lemma RootStored(a: State, d: State, e: State, v: int, u: nat)
    requires forall w :: w in d.used && w !in a.used && w != v ==> Stored(d, w)
    requires INITIAL < |d.da| && INITIAL in d.pending && v != 0
    requires e == d.(da := d.da[INITIAL := d.da[INITIAL].(base := v)], pending := {})
    requires u in d.used && u !in a.used
    ensures Stored(e, u)
  {
    if u == v {
      assert Done(e, INITIAL);
    } else {
      assert Stored(d, u);
      var k: nat :| Done(d, k) && d.da[k].base == u;
      assert Done(e, k) && e.da[k].base == u;
    }
  }

  lemma OwnerUsed(e: State, traits: Traits, j: nat)
    requires Coherent(e, traits) && j in e.own
    ensures e.own[j] in e.used
  {
  }

  lemma OwnerNew(a: State, d: State, j: nat)
    requires Grows(a, d) && a.own == map[] && j in d.own
    ensures d.own[j] !in a.used
  {
  }

  lemma RootKept(d: State, e: State, traits: Traits, v: int, bases: set<nat>)
    requires Coherent(d, traits) && INITIAL < |d.da|
    requires e == d.(da := d.da[INITIAL := d.da[INITIAL].(base := v)], pending := {})
    ensures Keeps(d, e, bases)
  {
    assert forall j :: j in d.own ==> InUse(d.da, j);
  }

  lemma RootBuilt(a: State, d: State, e: State, traits: Traits, table: Table, v: int, s: seq<Record>)
    requires Blank(a) && Arranged(a, d, traits, table, v, 0, s)
    requires InUse(d.da, INITIAL)
    requires e == d.(da := d.da[INITIAL := d.da[INITIAL].(base := v)], pending := {})
    ensures Built(e, traits, table, s)
  {
    hide Coherent, Subtree, Keeps, IsTrie, Stored, Grows, Unstored;
    RootKeeps(d, e, traits, v);
    forall j | j in e.own ensures Stored(e, e.own[j]) {
      OwnerUsed(e, traits, j);
      OwnerNew(a, d, j);
      RootStored(a, d, e, v, e.own[j]);
    }
    RootKept(d, e, traits, v, d.used - a.used);
    SubtreeFrame(d, e, table, d.used - a.used, d.used - a.used, v, 0, s);
    SubtreeIsTrie(e, traits, table, d.used - a.used, v, 0, s);
  }

  /** Every used cell but the root hangs from exactly one node: one used cell `i` with
      BASE[i] + CHECK[j] + 1 == j. */
  lemma ExactlyOneParent(st: State, traits: Traits, table: Table, s: seq<Record>, j: nat) returns (i: nat)
    requires Built(st, traits, table, s) && InUse(st.da, j) && j != INITIAL
    ensures InUse(st.da, i) && st.da[i].base > 0 && st.da[i].base + st.da[j].check + 1 == j
    ensures forall k: nat :: InUse(st.da, k) && st.da[k].base > 0 && st.da[k].base + st.da[j].check + 1 == j ==> k == i
  {
    assert Stored(st, st.own[j]);
    i :| Done(st, i) && st.da[i].base == st.own[j];
    forall k: nat | InUse(st.da, k) && st.da[k].base > 0 && st.da[k].base + st.da[j].check + 1 == j
      ensures k == i
    {
      assert Done(st, k) && Done(st, i);
    }
  }

  // ----- counting the used cells

  ghost function UsedCells(da: seq<Cell>, n: nat): set<nat> {
    set i: nat | i < n && i < |da| && InUse(da, i)
  }

  lemma UsedCellsStep(da: seq<Cell>, n: nat)
    requires n < |da|
    ensures |UsedCells(da, n + 1)| == |UsedCells(da, n)| + if InUse(da, n) then 1 else 0
  {
    assert UsedCells(da, n + 1) == UsedCells(da, n) + if InUse(da, n) then {n} else {};
  }

  ghost function NodeCells(da: seq<Cell>): set<nat> {
    set i: nat | i < |da| && da[i].base > 0
  }

  ghost function LeafCells(da: seq<Cell>): set<nat> {
    set i: nat | i < |da| && da[i].base < 0
  }

  /** Cells with distinct BASEs are as many as the BASEs. */
  lemma {:induction false} AsManyAsBases(da: seq<Cell>, cells: set<nat>, bases: set<nat>)
    requires forall i :: i in cells ==> i < |da| && da[i].base > 0 && da[i].base in bases
    requires forall i, j :: i in cells && j in cells && da[i].base == da[j].base ==> i == j
    requires forall b :: b in bases ==> exists i :: i in cells && da[i].base == b
    ensures |cells| == |bases|
  {
    if cells == {} {
      if b :| b in bases {
        assert false;
      }
      assert bases == {};
    } else {
      var i :| i in cells;
      var b: nat := da[i].base;
      forall u | u in bases - {b} ensures exists j :: j in cells - {i} && da[j].base == u {
        var j :| j in cells && da[j].base == u;
        assert j in cells - {i};
      }
      AsManyAsBases(da, cells - {i}, bases - {b});
      assert |cells| == |cells - {i}| + 1 && |bases| == |bases - {b}| + 1;
    }
  }

  /** In a finished array the inner nodes are as many as the BASEs newly marked. */
  lemma NodesAreBases(a: State, d: State, e: State, traits: Traits, table: Table, v: int, s: seq<Record>)
    requires Blank(a) && Arranged(a, d, traits, table, v, 0, s) && Built(e, traits, table, s)
    requires INITIAL < |d.da|
    requires e == d.(da := d.da[INITIAL := d.da[INITIAL].(base := v)], pending := {})
    ensures forall i :: i in NodeCells(e.da) ==> e.da[i].base in d.used - a.used
    ensures forall i, j :: i in NodeCells(e.da) && j in NodeCells(e.da) && e.da[i].base == e.da[j].base ==> i == j
    ensures forall u :: u in d.used - a.used ==> exists i :: i in NodeCells(e.da) && e.da[i].base == u
    ensures |NodeCells(e.da)| == |d.used - a.used|
  {
    hide IsTrie, Subtree;
    var cells, bases := NodeCells(e.da), d.used - a.used;
    forall i | i in cells ensures e.da[i].base in bases {
      assert Done(e, i);
      if i != INITIAL {
        assert InUse(d.da, i) && !InUse(a.da, i);
      }
    }
    forall i, j | i in cells && j in cells && e.da[i].base == e.da[j].base ensures i == j {
      assert Done(e, i) && Done(e, j);
    }
    forall u | u in bases ensures exists i :: i in cells && e.da[i].base == u {
      RootStored(a, d, e, v, u);
      var i: nat :| Done(e, i) && e.da[i].base == u;
      assert i in cells;
    }
    AsManyAsBases(e.da, cells, bases);
  }

  lemma UsedAreNodesAndLeaves(da: seq<Cell>)
    ensures |UsedCells(da, |da|)| == |NodeCells(da)| + |LeafCells(da)|
  {
    assert UsedCells(da, |da|) == NodeCells(da) + LeafCells(da);
    assert NodeCells(da) !! LeafCells(da);
  }

  lemma OwnedAndRoot(e: State, traits: Traits)
    requires Coherent(e, traits)
    ensures |UsedCells(e.da, |e.da|)| == |e.own| + 1
  {
    hide Done;
    assert UsedCells(e.da, |e.da|) == e.own.Keys + {INITIAL};
    assert INITIAL !in e.own;
  }

  /** The cells that hold a BASE, and the cells that hold a leaf, are as many as was counted on
      the way: one node for each newly marked BASE, one leaf for each record. */
  lemma UsedCellsConserved(a: State, d: State, e: State, traits: Traits, table: Table, v: int, s: seq<Record>,
                           nodes: int, leaves: int)
    requires Blank(a) && Counted(a, d, 0, nodes, 0, leaves, |s|)
    requires Arranged(a, d, traits, table, v, 0, s) && Built(e, traits, table, s)
    requires INITIAL < |d.da|
    requires e == d.(da := d.da[INITIAL := d.da[INITIAL].(base := v)], pending := {})
    ensures |NodeCells(e.da)| == nodes && |LeafCells(e.da)| == leaves
    ensures |UsedCells(e.da, |e.da|)| == nodes + leaves
    ensures |d.used - a.used| == |NodeCells(e.da)| && |LeafCells(e.da)| == |s|
  {
    hide IsTrie, Subtree, Settled, Coherent, Stored, InUse, UsedCells, NodeCells, LeafCells;
    NodesAreBases(a, d, e, traits, table, v, s);
    UsedAreNodesAndLeaves(e.da);
    OwnedAndRoot(e, traits);
  }
}
