/** The index from end to end: built from records, written, read back, queried. */
module Index {
  import opened Bytes
  import opened Records
  import opened Cells
  import opened TrieSpec
  import opened BuildState
  import opened Builders
  import opened Tries
  import opened Listing
  import opened Image
  import opened Space
  import opened Layouts
  import opened CharTable

  lemma BuiltFits(st: State, traits: Traits, table: Table, s: seq<Record>)
    requires Built(st, traits, table, s)
    ensures Fitting(traits, st.da) && INITIAL < |st.da| && 0 < |st.tail| && st.tail[0] == 0
    ensures IsTrie(st.da, st.tail, table, st.da[INITIAL].base, 0, s)
  {
  }

  /** A reader opened on a written file has the arrays that were written. */
  method Open(traits: Traits, file: bytes, ghost n: nat, ghost table: Table, ghost da: seq<Cell>, ghost tail: bytes)
    returns (t: Trie, used: nat)
    requires Fitting(traits, da) && file == File(traits, n, table, da, tail) && |file| < TWO32
    ensures fresh(t) && fresh(t.tail) && used == |file| && t.n == n % TWO32
    ensures t.table == table && t.da == da && t.tail.cont == tail
  {
    t := new Trie(traits);
    FileParses(traits, n, table, da, tail, t.AsFields());
    assert FromLE32(file[4..8]) == |file|;
    used := t.Assign(file);
    assert Header(file, n % TWO32, |file|);
    assert t.AsFields() == Fields(table, da, tail, true, true);
  }

  /** `file` is what the builder writes for an array that holds `s`. */
  ghost predicate IsIndexFile(file: bytes, traits: Traits, s: seq<Record>) {
    exists table: Table, da: seq<Cell>, tail: bytes ::
      && file == File(traits, |s|, table, da, tail) && Fitting(traits, da)
      && INITIAL < |da| && 0 < |tail| && tail[0] == 0
      && IsTrie(da, tail, table, da[INITIAL].base, 0, s)
  }

  lemma FileOf(file: bytes, traits: Traits, s: seq<Record>, table: Table, da: seq<Cell>, tail: bytes)
    requires file == File(traits, |s|, table, da, tail) && Fitting(traits, da)
    requires INITIAL < |da| && 0 < |tail| && tail[0] == 0
    requires IsTrie(da, tail, table, da[INITIAL].base, 0, s)
    ensures IsIndexFile(file, traits, s)
  {
    hide File, IsTrie, Fitting;
  }

  /** The size of a file. */
  lemma FileSize(traits: Traits, n: nat, table: Table, da: seq<Cell>, tail: bytes)
    ensures |File(traits, n, table, da, tail)| == 296 + traits.Size() * |da| + |tail|
  {
    hide PackAll, LE32;
  }

  /** At most so large is the file of `s`. */
  function FileBound(traits: Traits, s: seq<Record>): nat {
    296 + traits.Size() * CellBound(s, 0, 2) + 1 + StoredBytes(s)
  }

  /** The records take up so little that space cannot run out, and the file stays under 4 GB. */
  predicate Indexable(traits: Traits, s: seq<Record>) {
    Roomy(traits, s, 0) && FileBound(traits, s) < TWO32
  }

  /** With elements of four bytes the size of the file takes care of itself. */
  lemma RoomyIndexable(s: seq<Record>)
    requires Roomy(FourBytes, s, 0)
    ensures Indexable(FourBytes, s)
  {
    hide CellBound, StoredBytes;
  }

  /** Records are within that size whenever these numbers are, which are computed from how many
      there are and how long their parts. */
  lemma SmallIndexable(traits: Traits, s: seq<Record>, k: nat, i: nat, l: nat)
    requires Sized(s, k, i, l)
    requires var size, most := if traits.FourBytes? then 4 else 5, if traits.FourBytes? then 0x7F_FFFF else 0x7FFF_FFFF;
             var cells, tail := 259 + 257 * (|s| * k), 1 + |s| * (k + 5 + i * (l + 5));
             cells <= most && tail <= most && 296 + size * cells + tail < 0x1_0000_0000
    ensures Indexable(traits, s)
  {
    hide StoredBytes, KeyBytes, Sized;
    SpaceBound(s, k, i, l);
  }

  lemma FileBounded(traits: Traits, s: seq<Record>, n: nat, table: Table, da: seq<Cell>, tail: bytes)
    requires |tail| <= 1 + StoredBytes(s) && |da| <= CellBound(s, 0, 2)
    ensures |File(traits, n, table, da, tail)| <= FileBound(traits, s)
  {
    hide File, CellBound, StoredBytes;
    FileSize(traits, n, table, da, tail);
  }

  lemma IndexableOutcome(r: Outcome, traits: Traits, s: seq<Record>)
    requires BuildOutcome(r, traits, s, 0) && Indexable(traits, s)
    ensures r.Ok? <==> Sorted(s)
  {
    hide Sorted, BuildOutcome;
    RoomyOutcome(r, traits, s, 0);
  }

  /** Builds an index of `s`, writes it to a file, and opens a reader on the file. */
  method BuildAndOpen(traits: Traits, s: seq<Record>) returns (r: Outcome, t: Trie, file: bytes, used: nat)
    requires s != [] && KeysNulFree(s)
    ensures fresh(t) && fresh(t.tail)
    ensures BuildOutcome(r, traits, s, 0)
    ensures if r.Ok? then IsIndexFile(file, traits, s) else file == []
    ensures Indexable(traits, s) ==> (r.Ok? <==> Sorted(s)) && |file| < TWO32
    ensures r.Ok? && |file| < TWO32 ==> used == |file| && t.n == |s| % TWO32
    ensures r.Ok? && |file| < TWO32 && (forall x :: x in s ==> Encodable(x.value)) ==> t.Valid() && t.records == s
  {
    hide File, Built, IsTrie, Sorted, KeysNulFree, OutOfOrder, HasDuplicates, Encodable, Fitting, BuildOutcome,
         IsIndexFile, CellBound, StoredBytes, FileBound, Roomy, Layout, Ranked;
    var b := new Builder(traits);
    file, used := [], 0;
    assert |b.usedBases| == 0;
    r := b.Build(s);
    if Indexable(traits, s) {
      IndexableOutcome(r, traits, s);
    }
    if r.Ok? {
      OutcomeSorted(r, traits, s, 0);
      file := b.Write([]);
      assert file == File(traits, b.n, b.table, b.da, b.tail);
      BuiltFits(b.Now(), traits, b.table, s);
      FileBounded(traits, s, b.n, b.table, b.da, b.tail);
      FileOf(file, traits, s, b.table, b.da, b.tail);
      if |file| < TWO32 {
        t, used := Open(traits, file, b.n, b.table, b.da, b.tail);
        t.records := s;
        return;
      }
    }
    t := new Trie(traits);
  }

  /** Lookup through the file is lookup in the list: a key is found exactly when it is
      stored, and then with its value. */
  method BuildThenFind(traits: Traits, s: seq<Record>, key: bytes, default: Value)
    returns (r: Outcome, file: bytes, found: bool, value: Value)
    requires s != [] && KeysNulFree(s) && NulFree(key)
    requires forall x :: x in s ==> Encodable(x.value)
    ensures BuildOutcome(r, traits, s, 0)
    ensures if r.Ok? then IsIndexFile(file, traits, s) else file == []
    ensures Indexable(traits, s) ==> (r.Ok? <==> Sorted(s)) && |file| < TWO32
    ensures r.Ok? && |file| < TWO32 ==> (found <==> exists x :: x in s && x.key == key)
    ensures r.Ok? && |file| < TWO32 ==> forall x :: x in s && x.key == key ==> value == x.value
    ensures Indexable(traits, s) && Sorted(s) ==>
              && (found <==> exists x :: x in s && x.key == key)
              && forall x :: x in s && x.key == key ==> value == x.value
    ensures !found ==> value == default
  {
    hide IsIndexFile, BuildOutcome, Indexable, Sorted;
    var t, used;
    r, t, file, used := BuildAndOpen(traits, s);
    found, value := false, default;
    if r.Ok? && |file| < TWO32 {
      found, value := t.Find(key, default);
    }
  }

  /** Listing through the file: the first `n` pairs of the answer that the list of records
      determines. */
  method BuildThenList(traits: Traits, s: seq<Record>, key: bytes, n: nat)
    returns (r: Outcome, file: bytes, out: seq<KeyValue>)
    requires s != [] && KeysNulFree(s) && NulFree(key)
    requires forall x :: x in s ==> Encodable(x.value)
    ensures BuildOutcome(r, traits, s, 0)
    ensures if r.Ok? then IsIndexFile(file, traits, s) else file == []
    ensures Indexable(traits, s) ==> (r.Ok? <==> Sorted(s)) && |file| < TWO32
    ensures r.Ok? && |file| < TWO32 ==> out == Take(Answer(s, key), n)
    ensures Indexable(traits, s) && Sorted(s) ==> out == Take(Answer(s, key), n)
  {
    hide IsIndexFile, BuildOutcome, Answer, Take, Indexable, Sorted;
    var t, used;
    r, t, file, used := BuildAndOpen(traits, s);
    out := [];
    if r.Ok? && |file| < TWO32 {
      var ok;
      ok, out := t.GetChildren(key, [], n);
    }
  }
}
