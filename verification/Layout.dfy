/** An index file byte by byte. */
module Layouts {
  import opened Bytes
  import opened Cells
  import opened TrieSpec
  import opened Image

  /** The four bytes at `p` are the digits of `v` to base 256, the lowest in front. */
  ghost predicate WordAt(block: bytes, p: nat, v: nat) {
    && p + 4 <= |block|
    && block[p] as int + 256 * block[p + 1] as int + 65536 * block[p + 2] as int + 16777216 * block[p + 3] as int == v
  }

  /** The element at `p` holds `cell`, BASE in two's complement: with four bytes CHECK comes first
      and three bytes of BASE follow, with five bytes four bytes of BASE come first. */
  ghost predicate CellAt(block: bytes, p: nat, traits: Traits, cell: Cell) {
    match traits
    case FourBytes =>
      && p + 4 <= |block| && block[p] == cell.check
      && block[p + 1] as int + 256 * block[p + 2] as int + 65536 * block[p + 3] as int == cell.base % 0x100_0000
    case FiveBytes =>
      && p + 5 <= |block| && block[p + 4] == cell.check
      && WordAt(block, p, cell.base % 0x1_0000_0000)
  }

  ghost predicate CellsAt(block: bytes, p: nat, traits: Traits, da: seq<Cell>) {
    forall i :: 0 <= i < |da| ==> CellAt(block, p + (if traits.FourBytes? then 4 else 5) * i, traits, da[i])
  }

  /** `block` is a file for `n` records with these arrays: 16 bytes of header, a chunk of 264
      bytes with the table, a chunk with the elements, and a chunk with the tail. */
  ghost predicate Layout(block: bytes, traits: Traits, n: nat, table: Table, da: seq<Cell>, tail: bytes) {
    var elements := (if traits.FourBytes? then 4 else 5) * |da|;
    var last := 288 + elements;
    && |block| == last + 8 + |tail|
    && block[0..4] == [0x53, 0x44, 0x41, 0x54] // SDAT
    && WordAt(block, 4, |block|) && WordAt(block, 8, 16) && WordAt(block, 12, n % 0x1_0000_0000)
    && block[16..20] == [0x54, 0x42, 0x4C, 0x55] // TBLU
    && WordAt(block, 20, 264) && block[24..280] == table
    && block[280..284] == [0x53, 0x44, 0x41, if traits.FourBytes? then 0x34 else 0x35] // SDA4 or SDA5
    && WordAt(block, 284, 8 + elements) && CellsAt(block, 288, traits, da)
    && block[last..last + 4] == [0x54, 0x41, 0x49, 0x4C] // TAIL
    && WordAt(block, last + 4, 8 + |tail|) && block[last + 8..] == tail
  }

  // ----- the parts of a file

  lemma WordHolds(block: bytes, p: nat, v: nat)
    requires v < TWO32
    ensures HoldsAt(block, p, LE32(v)) <==> WordAt(block, p, v)
  {
    hide LE32;
    if p + 4 <= |block| {
      var d := block[p..p + 4];
      if WordAt(block, p, v) {
        LittleEndian(v, d);
      }
      if d == LE32(v) {
        LittleEndianOf(v);
      }
    }
  }

  lemma CellHolds(block: bytes, p: nat, traits: Traits, cell: Cell)
    ensures HoldsAt(block, p, traits.Pack(cell)) <==> CellAt(block, p, traits, cell)
  {
    hide LE32, FromLE32;
    PackIs(traits, cell);
    match traits {
      case FourBytes =>
        WordHolds(block, p, cell.base % 0x100_0000 * 256 + cell.check);
        if p + 4 <= |block| {
          FourDigits(block[p], block[p + 1] as int + 256 * block[p + 2] as int + 65536 * block[p + 3] as int, cell);
        }
      case FiveBytes =>
        var word := LE32(cell.base % TWO32);
        WordHolds(block, p, cell.base % TWO32);
        HoldsAtSplit(block, p, word, [cell.check]);
    }
  }

  lemma FourDigits(low: byte, high: nat, cell: Cell)
    ensures low as int + 256 * high == cell.base % 0x100_0000 * 256 + cell.check as int
            <==> low == cell.check && high == cell.base % 0x100_0000
  {
  }

  lemma PackIs(traits: Traits, cell: Cell)
    ensures traits.Pack(cell) ==
            match traits
            case FourBytes => LE32(cell.base % 0x100_0000 * 256 + cell.check)
            case FiveBytes => LE32(cell.base % TWO32) + [cell.check]
  {
    match traits {
      case FourBytes => PackFour(cell);
      case FiveBytes =>
    }
  }

  lemma PackFour(cell: Cell)
    ensures FourBytes.Pack(cell) == LE32(cell.base % 0x100_0000 * 256 + cell.check)
  {
    hide LE32;
    var zero := [0, 0, 0, 0];
    var high := cell.base % 0x100_0000;
    TimesByte(cell.base);
    assert FromLE32(zero) == 0;
    RoundTrip32(high * 256);
    assert high * 256 / 256 == high;
  }

  lemma TimesByte(v: int)
    ensures v * 256 % TWO32 == v % 0x100_0000 * 256
  {
    var q, r := v / 0x100_0000, v % 0x100_0000;
    assert v * 256 == TWO32 * q + r * 256;
  }

  lemma {:induction false} CellsHold(block: bytes, p: nat, traits: Traits, da: seq<Cell>)
    ensures HoldsAt(block, p, PackAll(traits, da))
            <==> p + (if traits.FourBytes? then 4 else 5) * |da| <= |block| && CellsAt(block, p, traits, da)
  {
    hide CellAt, Traits.Pack;
    var size := traits.Size();
    if da == [] {
    } else {
      var n := |da| - 1;
      var front, cell := da[..n], da[n];
      assert da == front + [cell];
      CellsHold(block, p, traits, front);
      PackStep(traits, front, cell);
      HoldsAtSplit(block, p, PackAll(traits, front), traits.Pack(cell));
      CellHolds(block, p + size * n, traits, cell);
      CellsSnoc(block, p, traits, front, cell);
    }
  }

  lemma CellsSnoc(block: bytes, p: nat, traits: Traits, front: seq<Cell>, cell: Cell)
    ensures var size := if traits.FourBytes? then 4 else 5;
            CellsAt(block, p, traits, front + [cell])
            <==> CellsAt(block, p, traits, front) && CellAt(block, p + size * |front|, traits, cell)
  {
    hide CellAt;
    var da := front + [cell];
    if CellsAt(block, p, traits, da) {
      forall i | 0 <= i < |front|
        ensures CellAt(block, p + (if traits.FourBytes? then 4 else 5) * i, traits, front[i])
      {
        assert da[i] == front[i];
      }
      assert da[|front|] == cell;
    }
  }

  lemma ChunkHolds(block: bytes, p: nat, id: bytes, data: bytes)
    requires |id| == 4 && 8 + |data| < TWO32
    ensures HoldsAt(block, p, Chunk(id, data))
            <==> HoldsAt(block, p, id) && WordAt(block, p + 4, 8 + |data|) && HoldsAt(block, p + 8, data)
  {
    hide LE32;
    var word := LE32(8 + |data|);
    assert Chunk(id, data) == id + word + data;
    HoldsAtSplit(block, p, id + word, data);
    HoldsAtSplit(block, p, id, word);
    WordHolds(block, p + 4, 8 + |data|);
  }

  lemma HeaderHolds(block: bytes, p: nat, size: nat, n: nat)
    requires p + 16 < TWO32 && size < TWO32
    ensures HoldsAt(block, p, SDAT + LE32(size) + LE32(16) + LE32(n % TWO32))
            <==> HoldsAt(block, p, [0x53, 0x44, 0x41, 0x54]) && WordAt(block, p + 4, size)
                 && WordAt(block, p + 8, 16) && WordAt(block, p + 12, n % TWO32)
  {
    hide LE32;
    var a, b, c, d := SDAT, LE32(size), LE32(16), LE32(n % TWO32);
    HoldsAtSplit(block, p, a + b + c, d);
    HoldsAtSplit(block, p, a + b, c);
    HoldsAtSplit(block, p, a, b);
    WordHolds(block, p + 4, size);
    WordHolds(block, p + 8, 16);
    WordHolds(block, p + 12, n % TWO32);
  }

  // ----- the whole file

  lemma FileLength(traits: Traits, n: nat, table: Table, da: seq<Cell>, tail: bytes)
    ensures |File(traits, n, table, da, tail)| == 296 + (if traits.FourBytes? then 4 else 5) * |da| + |tail|
  {
    hide PackAll, LE32;
  }

  lemma WholeBlock(block: bytes, s: bytes)
    ensures block == s <==> |block| == |s| && HoldsAt(block, 0, s)
  {
    if |block| == |s| {
      assert block[0..|s|] == block;
    }
  }

  lemma LastHolds(block: bytes, p: nat, s: bytes)
    requires |block| == p + |s|
    ensures HoldsAt(block, p, s) <==> block[p..] == s
  {
    assert block[p..p + |s|] == block[p..];
  }

  lemma PartsHold(block: bytes, head: bytes, a: bytes, b: bytes, c: bytes)
    ensures HoldsAt(block, 0, head + (a + b + c))
            <==> && HoldsAt(block, 0, head) && HoldsAt(block, |head|, a)
                 && HoldsAt(block, |head| + |a|, b) && HoldsAt(block, |head| + |a| + |b|, c)
  {
    hide HoldsAt;
    HoldsAtSplit(block, 0, head, a + b + c);
    HoldsAtSplit(block, |head|, a + b, c);
    HoldsAtSplit(block, |head|, a, b);
  }

  /** The bytes of a file are those of its header and its three chunks. */
  lemma FileParts(block: bytes, traits: Traits, n: nat, table: Table, da: seq<Cell>, tail: bytes,
                  head: bytes, a: bytes, b: bytes, c: bytes, last: nat)
    requires a == Chunk(TBLU, table) && b == Chunk(traits.ChunkId(), PackAll(traits, da)) && c == Chunk(TAIL, tail)
    requires last == 288 + |PackAll(traits, da)| && last + 8 + |tail| < TWO32
    requires head == SDAT + LE32(last + 8 + |tail|) + LE32(16) + LE32(n % TWO32)
    ensures HoldsAt(block, 0, File(traits, n, table, da, tail))
            <==> HoldsAt(block, 0, head) && HoldsAt(block, 16, a) && HoldsAt(block, 280, b) && HoldsAt(block, last, c)
  {
    hide LE32, HoldsAt, Chunk, PackAll;
    PartsHold(block, head, a, b, c);
    assert File(traits, n, table, da, tail) == head + (a + b + c);
  }

  /** These are exactly the bytes of a written file under 4 GB. */
  lemma FileIs(block: bytes, traits: Traits, n: nat, table: Table, da: seq<Cell>, tail: bytes)
    ensures Layout(block, traits, n, table, da, tail)
            <==> block == File(traits, n, table, da, tail) && |block| < 0x1_0000_0000
  {
    hide File, PackAll, Chunk, LE32, CellsAt, Traits.ChunkId, HoldsAt, WordAt;
    var file := File(traits, n, table, da, tail);
    FileLength(traits, n, table, da, tail);
    WholeBlock(block, file);
    var last := 288 + |PackAll(traits, da)|;
    WordBelow(block, 4, |block|);
    if |block| == |file| < TWO32 {
      IdIs(traits);
      var a, b, c := Chunk(TBLU, table), Chunk(traits.ChunkId(), PackAll(traits, da)), Chunk(TAIL, tail);
      var head := SDAT + LE32(last + 8 + |tail|) + LE32(16) + LE32(n % TWO32);
      FileParts(block, traits, n, table, da, tail, head, a, b, c, last);
      HeaderHolds(block, 0, |block|, n);
      ChunkHolds(block, 16, TBLU, table);
      ChunkHolds(block, 280, traits.ChunkId(), PackAll(traits, da));
      CellsHold(block, 288, traits, da);
      ChunkHolds(block, last, TAIL, tail);
      LastHolds(block, last + 8, tail);
      SliceHolds(block, 0, SDAT);
      SliceHolds(block, 16, TBLU);
      SliceHolds(block, 24, table);
      SliceHolds(block, 280, traits.ChunkId());
      SliceHolds(block, last, TAIL);
    }
  }

  lemma WordBelow(block: bytes, p: nat, v: nat)
    ensures WordAt(block, p, v) ==> v < TWO32
  {
  }

  lemma IdIs(traits: Traits)
    ensures traits.ChunkId() == [0x53, 0x44, 0x41, if traits.FourBytes? then 0x34 else 0x35]
  {
  }

  lemma SliceHolds(block: bytes, p: nat, s: bytes)
    requires p + |s| <= |block|
    ensures HoldsAt(block, p, s) <==> block[p..p + |s|] == s
  {
  }

  /** A block of that form is parsed to the arrays it holds. */
  lemma LayoutsParse(block: bytes, traits: Traits, f: Fields)
    ensures forall n: nat, table: Table, da: seq<Cell>, tail: bytes ::
              Layout(block, traits, n, table, da, tail) && Fitting(traits, da) ==>
                && Header(block, n % 0x1_0000_0000, |block|) && Chunked(block, 16, |block|)
                && Parse(traits, block, 16, |block|, f) == Fields(table, da, tail, true, true)
  {
    hide Layout, Fitting, Header, Chunked, Parse, File;
    forall n: nat, table: Table, da: seq<Cell>, tail: bytes
      | Layout(block, traits, n, table, da, tail) && Fitting(traits, da)
      ensures Header(block, n % 0x1_0000_0000, |block|) && Chunked(block, 16, |block|)
      ensures Parse(traits, block, 16, |block|, f) == Fields(table, da, tail, true, true)
    {
      FileIs(block, traits, n, table, da, tail);
      FileParses(traits, n, table, da, tail, f);
    }
  }

  // ----- any block

  lemma HeaderSize(block: bytes)
    ensures 16 <= |block| ==> (WordAt(block, 8, 16) <==> FromLE32(block[8..12]) == 16)
  {
  }

  lemma GetIs(e: bytes, traits: Traits)
    requires |e| == traits.Size()
    ensures CellAt(e, 0, traits, traits.Get(e))
  {
    match traits {
      case FourBytes =>
        SignedParts(FromLE32(e), e[0], e[1] as int + 256 * e[2] as int + 65536 * e[3] as int);
      case FiveBytes =>
        Wrapped(Signed32(FromLE32(e[..4])));
    }
  }

  lemma SignedParts(n: nat, low: byte, high: nat)
    requires n == low as int + 256 * high < TWO32
    ensures Signed32(n) % 256 == low && Signed32(n) / 256 % 0x100_0000 == high
  {
    assert n / 256 == high && n % 256 == low;
    SignedLow(n);
    var h := if n < 0x8000_0000 then high else high - 0x100_0000;
    assert Signed32(n) == h * 256 + low as int;
    assert Signed32(n) / 256 == h;
  }

  lemma CellInside(data: bytes, p: nat, e: bytes, traits: Traits, cell: Cell)
    requires p + traits.Size() <= |data| && e == data[p..p + traits.Size()]
    ensures CellAt(e, 0, traits, cell) ==> CellAt(data, p, traits, cell)
  {
  }

  lemma UnpackLast(data: bytes, traits: Traits, n: nat, lo: nat)
    requires (n + 1) * traits.Size() <= |data| && lo == traits.Size() * n
    ensures lo + traits.Size() <= |data| && n * traits.Size() <= |data|
    ensures Unpack(traits, data, n + 1) == Unpack(traits, data, n) + [traits.Get(data[lo..lo + traits.Size()])]
  {
    hide Traits.Get;
    OneMore(traits, n);
  }

  lemma {:induction false} UnpackIs(data: bytes, traits: Traits, count: nat)
    requires count * traits.Size() <= |data|
    ensures CellsAt(data, 0, traits, Unpack(traits, data, count))
  {
    hide CellAt, Traits.Get, Unpack, CellsAt;
    if count == 0 {
      UnpackNone(data, traits);
    } else {
      var n, lo := count - 1, traits.Size() * (count - 1);
      UnpackLast(data, traits, n, lo);
      UnpackIs(data, traits, n);
      var e := data[lo..lo + traits.Size()];
      GetIs(e, traits);
      CellInside(data, lo, e, traits, traits.Get(e));
      CellsSnoc(data, 0, traits, Unpack(traits, data, n), traits.Get(e));
    }
  }

  lemma UnpackNone(data: bytes, traits: Traits)
    ensures CellsAt(data, 0, traits, Unpack(traits, data, 0))
  {
  }

  /** What one chunk sets, by its first four bytes: the table if it has 256 bytes, the elements,
      or the tail. A chunk with another id sets nothing. */
  lemma ChunkSets(block: bytes, p: nat, size: nat, traits: Traits, f: Fields)
    requires p + 8 <= |block| && 8 <= size && p + size <= |block| && WordAt(block, p + 4, size)
    ensures SizeAt(block, p) == size
    ensures var id, data, g := block[p..p + 4], block[p + 8..p + size], ReadChunk(traits, block, p, f);
            if id == [0x54, 0x42, 0x4C, 0x55] then g == if |data| == 256 then f.(table := data) else f
            else if id == [0x53, 0x44, 0x41, if traits.FourBytes? then 0x34 else 0x35] then
              && g == f.(da := g.da, hasDa := true) && CellsAt(data, 0, traits, g.da)
              && |g.da| == |data| / if traits.FourBytes? then 4 else 5
            else if id == [0x54, 0x41, 0x49, 0x4C] then g == f.(tail := data, hasTail := true)
            else g == f
  {
    hide CellsAt, Unpack;
    assert block[p + 4..p + 8][0] == block[p + 4] && block[p + 4..p + 8][1] == block[p + 5];
    var data := block[p + 8..p + size];
    Whole(|data|, traits);
    UnpackIs(data, traits, |data| / traits.Size());
  }

  lemma Whole(n: nat, traits: Traits)
    ensures n / traits.Size() * traits.Size() <= n
  {
  }
}
