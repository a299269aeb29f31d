/** The file format: the chunks that `builder::write` puts out and `trie::assign` takes in. */
module Image {
  import opened Bytes
  import opened Cells
  import opened TrieSpec

  const CHUNKSIZE: nat := 8
  const SDAT_CHUNKSIZE: nat := 16

  const SDAT: bytes := [0x53, 0x44, 0x41, 0x54]
  const TBLU: bytes := [0x54, 0x42, 0x4C, 0x55]
  const TAIL: bytes := [0x54, 0x41, 0x49, 0x4C]

  // ----- writing

  lemma OneMore(traits: Traits, n: nat)
    ensures traits.Size() * n + traits.Size() == traits.Size() * (n + 1)
  {
  }

  function PackAll(traits: Traits, da: seq<Cell>): (r: bytes)
    ensures |r| == traits.Size() * |da|
  {
    if da == [] then []
    else
      OneMore(traits, |da| - 1);
      PackAll(traits, da[..|da| - 1]) + traits.Pack(da[|da| - 1])
  }

  function Chunk(id: bytes, data: bytes): (r: bytes)
    requires |id| == 4
    ensures |r| == 8 + |data|
  {
    id + LE32((CHUNKSIZE + |data|) % TWO32) + data
  }

  /** The whole file for `n` records. */
  function File(traits: Traits, n: nat, table: Table, da: seq<Cell>, tail: bytes): bytes {
    var chunks := Chunk(TBLU, table) + Chunk(traits.ChunkId(), PackAll(traits, da)) + Chunk(TAIL, tail);
    SDAT + LE32((SDAT_CHUNKSIZE + |chunks|) % TWO32) + LE32(SDAT_CHUNKSIZE) + LE32(n % TWO32) + chunks
  }

  lemma FileFlat(os: bytes, traits: Traits, n: nat, table: Table, da: seq<Cell>, tail: bytes, a: bytes, b: bytes,
                 c: bytes)
    requires a == Chunk(TBLU, table) && b == Chunk(traits.ChunkId(), PackAll(traits, da)) && c == Chunk(TAIL, tail)
    ensures os + SDAT + LE32((SDAT_CHUNKSIZE + |a| + |b| + |c|) % TWO32) + LE32(SDAT_CHUNKSIZE) + LE32(n % TWO32) + a + b + c
         == os + File(traits, n, table, da, tail)
  {
    hide LE32, PackAll, Chunk, Traits.Size;
    assert |a + b + c| == |a| + |b| + |c|;
    Regroup(os, SDAT, LE32((SDAT_CHUNKSIZE + |a + b + c|) % TWO32), LE32(SDAT_CHUNKSIZE), LE32(n % TWO32), a, b, c);
  }

  lemma Regroup(os: bytes, w: bytes, x: bytes, y: bytes, z: bytes, a: bytes, b: bytes, c: bytes)
    ensures os + w + x + y + z + a + b + c == os + (w + x + y + z + (a + b + c))
  {
    var head := w + x + y + z;
    assert os + w + x + y + z == os + head;
    assert os + head + a + b + c == os + (head + (a + b + c));
  }

  // ----- reading

  /** What `assign` sets; the flags say whether an array was given at all. */
  datatype Fields = Fields(table: Table, da: seq<Cell>, tail: bytes, hasDa: bool, hasTail: bool)

  function Unpack(traits: Traits, data: bytes, count: nat): (da: seq<Cell>)
    requires count * traits.Size() <= |data|
    ensures |da| == count
  {
    if count == 0 then []
    else
      assert (count - 1) * traits.Size() + traits.Size() == count * traits.Size();
      Unpack(traits, data, count - 1)
      + [traits.Get(data[(count - 1) * traits.Size()..(count - 1) * traits.Size() + traits.Size()])]
  }

  /** The size that the chunk at `p` states. */
  function SizeAt(block: bytes, p: nat): nat
    requires p + CHUNKSIZE <= |block|
  {
    FromLE32(block[p + 4..p + 8])
  }

  /** From `p` on, chunks follow each other inside the block until `last`: what the loop
      of `assign` takes for granted. */
  ghost predicate Chunked(block: bytes, p: nat, last: nat)
    decreases last - p
  {
    p < last ==>
      && p + CHUNKSIZE <= |block| && CHUNKSIZE <= SizeAt(block, p) && p + SizeAt(block, p) <= |block|
      && Chunked(block, p + SizeAt(block, p), last)
  }

  /** One turn of that loop. */
  function ReadChunk(traits: Traits, block: bytes, p: nat, f: Fields): Fields
    requires p + CHUNKSIZE <= |block| && CHUNKSIZE <= SizeAt(block, p) && p + SizeAt(block, p) <= |block|
  {
    var id, data := block[p..p + 4], block[p + CHUNKSIZE..p + SizeAt(block, p)];
    if id == TBLU then
      if |data| == 256 then f.(table := data) else f
    else if id == traits.ChunkId() then
      assert |data| / traits.Size() * traits.Size() <= |data|;
      f.(da := Unpack(traits, data, |data| / traits.Size()), hasDa := true)
    else if id == TAIL then
      f.(tail := data, hasTail := true)
    else f
  }

  ghost function Parse(traits: Traits, block: bytes, p: nat, last: nat, f: Fields): Fields
    requires Chunked(block, p, last)
    decreases last - p
  {
    if p < last then Parse(traits, block, p + SizeAt(block, p), last, ReadChunk(traits, block, p, f)) else f
  }

  // ----- reading what was written

  ghost predicate Fitting(traits: Traits, da: seq<Cell>) {
    forall i :: 0 <= i < |da| ==> traits.InRange(da[i].base)
  }

  lemma {:induction false} UnpackPrefix(traits: Traits, data: bytes, more: bytes, count: nat)
    requires count * traits.Size() <= |data|
    ensures Unpack(traits, data + more, count) == Unpack(traits, data, count)
  {
    if count == 0 {
    } else {
      var size := traits.Size();
      var lo := (count - 1) * size;
      assert lo + size == count * size;
      UnpackPrefix(traits, data, more, count - 1);
      SliceOfFront(data, more, lo, lo + size);
      hide Traits.Get, Traits.Size;
    }
  }

  lemma PackStep(traits: Traits, front: seq<Cell>, last: Cell)
    ensures PackAll(traits, front + [last]) == PackAll(traits, front) + traits.Pack(last)
  {
    var da := front + [last];
    assert da[..|da| - 1] == front;
  }

  lemma UnpackStep(traits: Traits, data: bytes, e: bytes, count: nat)
    requires count * traits.Size() == |data| && |e| == traits.Size()
    ensures (count + 1) * traits.Size() == |data + e|
    ensures Unpack(traits, data + e, count + 1) == Unpack(traits, data, count) + [traits.Get(e)]
  {
    UnpackPrefix(traits, data, e, count);
    var lo := count * traits.Size();
    assert (data + e)[lo..lo + traits.Size()] == e;
  }

  lemma {:induction false} UnpackPacked(traits: Traits, da: seq<Cell>)
    requires Fitting(traits, da)
    ensures Unpack(traits, PackAll(traits, da), |da|) == da
  {
    if da == [] {
    } else {
      var front, last := da[..|da| - 1], da[|da| - 1];
      assert da == front + [last];
      UnpackPacked(traits, front);
      PackStep(traits, front, last);
      traits.GetPack(last);
      UnpackStep(traits, PackAll(traits, front), traits.Pack(last), |front|);
    }
  }

  /** The chunk that stands at `p` is read as it was written. */
  lemma ChunkRead(block: bytes, p: nat, id: bytes, data: bytes)
    requires |id| == 4 && CHUNKSIZE + |data| < TWO32 && HoldsAt(block, p, Chunk(id, data))
    ensures p + CHUNKSIZE <= |block| && SizeAt(block, p) == CHUNKSIZE + |data|
    ensures p + SizeAt(block, p) <= |block|
    ensures block[p..p + 4] == id && block[p + CHUNKSIZE..p + SizeAt(block, p)] == data
  {
    hide FromLE32, LE32;
    var n := LE32(CHUNKSIZE + |data|);
    assert Chunk(id, data) == id + (n + data);
    HoldsAtSplit(block, p, id, n + data);
    HoldsAtSplit(block, p + 4, n, data);
    RoundTrip32(CHUNKSIZE + |data|);
  }

  lemma PackedCount(traits: Traits, da: seq<Cell>)
    ensures |PackAll(traits, da)| / traits.Size() == |da|
  {
    hide *;
    var n := |da|;
    assert 4 * n / 4 == n && 5 * n / 5 == n;
    SizeIs(traits);
  }

  lemma SizeIs(traits: Traits)
    ensures traits.Size() == 4 || traits.Size() == 5
  {
  }

  lemma TableRead(traits: Traits, block: bytes, p: nat, table: Table, f: Fields)
    requires HoldsAt(block, p, Chunk(TBLU, table))
    ensures ChunkAt(block, p, |Chunk(TBLU, table)|)
    ensures ReadChunk(traits, block, p, f) == f.(table := table)
  {
    ChunkRead(block, p, TBLU, table);
  }

  lemma CellsRead(traits: Traits, block: bytes, p: nat, da: seq<Cell>, f: Fields)
    requires Fitting(traits, da) && CHUNKSIZE + |PackAll(traits, da)| < TWO32
    requires HoldsAt(block, p, Chunk(traits.ChunkId(), PackAll(traits, da)))
    ensures ChunkAt(block, p, |Chunk(traits.ChunkId(), PackAll(traits, da))|)
    ensures ReadChunk(traits, block, p, f) == f.(da := da, hasDa := true)
  {
    ChunkRead(block, p, traits.ChunkId(), PackAll(traits, da));
    PackedCount(traits, da);
    UnpackPacked(traits, da);
    hide Unpack, PackAll;
  }

  lemma TailRead(traits: Traits, block: bytes, p: nat, tail: bytes, f: Fields)
    requires CHUNKSIZE + |tail| < TWO32 && HoldsAt(block, p, Chunk(TAIL, tail))
    ensures ChunkAt(block, p, |Chunk(TAIL, tail)|)
    ensures ReadChunk(traits, block, p, f) == f.(tail := tail, hasTail := true)
  {
    ChunkRead(block, p, TAIL, tail);
  }

  /** A chunk of `size` bytes stands at `p`. */
  ghost predicate ChunkAt(block: bytes, p: nat, size: nat) {
    p + CHUNKSIZE <= |block| && CHUNKSIZE <= SizeAt(block, p) == size && p + size <= |block|
  }

  lemma ParseStep(traits: Traits, block: bytes, p: nat, size: nat, last: nat, f: Fields)
    requires ChunkAt(block, p, size) && p < last && Chunked(block, p + size, last)
    ensures Chunked(block, p, last)
    ensures Parse(traits, block, p, last, f) == Parse(traits, block, p + size, last, ReadChunk(traits, block, p, f))
  {
  }

  lemma ParseEnd(traits: Traits, block: bytes, p: nat, f: Fields)
    ensures Chunked(block, p, p) && Parse(traits, block, p, p, f) == f
  {
  }

  /** The three chunks of a file follow each other, and the loop of `assign` reads them back. */
  lemma ChunksParse(traits: Traits, block: bytes, p: nat, last: nat, table: Table, da: seq<Cell>, tail: bytes,
                    f: Fields,
                    a: bytes, b: bytes, c: bytes)
    requires Fitting(traits, da) && last < TWO32 && p + |a| + |b| + |c| == last
    requires a == Chunk(TBLU, table) && b == Chunk(traits.ChunkId(), PackAll(traits, da)) && c == Chunk(TAIL, tail)
    requires HoldsAt(block, p, a) && HoldsAt(block, p + |a|, b) && HoldsAt(block, p + |a| + |b|, c)
    ensures Chunked(block, p, last)
    ensures Parse(traits, block, p, last, f) == Fields(table, da, tail, true, true)
  {
    hide Chunked, Parse, ReadChunk, HoldsAt, Chunk, PackAll, ChunkAt, Fitting, SizeAt;
    var q, r := p + |a|, p + |a| + |b|;
    var f1 := f.(table := table);
    var f2 := f1.(da := da, hasDa := true);
    var f3 := f2.(tail := tail, hasTail := true);
    TableRead(traits, block, p, table, f);
    CellsRead(traits, block, q, da, f1);
    TailRead(traits, block, r, tail, f2);
    ParseEnd(traits, block, last, f3);
    ParseStep(traits, block, r, |c|, last, f2);
    ParseStep(traits, block, q, |b|, last, f1);
    ParseStep(traits, block, p, |a|, last, f);
  }

  /** The header of a block: what comes before the loop. */
  ghost predicate Header(block: bytes, n: nat, total: nat) {
    && SDAT_CHUNKSIZE <= |block| && block[..4] == SDAT
    && FromLE32(block[4..8]) == total && FromLE32(block[8..12]) == SDAT_CHUNKSIZE && FromLE32(block[12..16]) == n
  }

  /** Reading a file under 4 GB that was written gives back what it was written from. */
  lemma FileParses(traits: Traits, n: nat, table: Table, da: seq<Cell>, tail: bytes, f: Fields)
    requires Fitting(traits, da) && |File(traits, n, table, da, tail)| < TWO32
    ensures var block := File(traits, n, table, da, tail);
            && Header(block, n % TWO32, |block|)
            && Chunked(block, SDAT_CHUNKSIZE, |block|)
            && Parse(traits, block, SDAT_CHUNKSIZE, |block|, f) == Fields(table, da, tail, true, true)
  {
    var block := File(traits, n, table, da, tail);
    var a, b, c := Chunk(TBLU, table), Chunk(traits.ChunkId(), PackAll(traits, da)), Chunk(TAIL, tail);
    FileHeader(block, a + b + c, n);
    HoldsAtSplit(block, SDAT_CHUNKSIZE, a + b, c);
    HoldsAtSplit(block, SDAT_CHUNKSIZE, a, b);
    ChunksParse(traits, block, SDAT_CHUNKSIZE, |block|, table, da, tail, f, a, b, c);
  }

  lemma FileHeader(block: bytes, chunks: bytes, n: nat)
    requires SDAT_CHUNKSIZE + |chunks| < TWO32
    requires block == SDAT + LE32((SDAT_CHUNKSIZE + |chunks|) % TWO32) + LE32(SDAT_CHUNKSIZE) + LE32(n % TWO32) + chunks
    ensures Header(block, n % TWO32, |block|) && HoldsAt(block, SDAT_CHUNKSIZE, chunks)
  {
    hide LE32, FromLE32;
    RoundTrip32(SDAT_CHUNKSIZE + |chunks|);
    RoundTrip32(SDAT_CHUNKSIZE);
    RoundTrip32(n % TWO32);
    FourWords(SDAT, LE32(SDAT_CHUNKSIZE + |chunks|), LE32(SDAT_CHUNKSIZE), LE32(n % TWO32), chunks);
  }

  lemma FourWords(a: bytes, b: bytes, c: bytes, d: bytes, e: bytes)
    requires |a| == |b| == |c| == |d| == 4
    ensures var s := a + b + c + d + e;
            && |s| == 16 + |e| && s[..4] == a && s[4..8] == b && s[8..12] == c && s[12..16] == d
            && s[16..16 + |e|] == e
  {
  }
}
