/** Elements of the double array: a BASE and a CHECK packed into four or five
    bytes, and the proof that the packed setters act on the two fields alone. */
module Cells {
  import opened Bytes

  datatype Cell = Cell(base: int, check: byte)

  /** `default_value()`: BASE 0 means vacant. */
  const VACANT := Cell(0, 0)

  function Signed32(n: nat): int
    requires n < TWO32
  {
    if n < 0x8000_0000 then n else n - TWO32
  }

  lemma LowByte(n: nat, c: byte)
    requires n < TWO32
    ensures n / 256 * 256 + c < TWO32
    ensures Signed32(n / 256 * 256 + c) / 256 == Signed32(n) / 256
    ensures Signed32(n / 256 * 256 + c) % 256 == c
  {
    var h, k := n / 256, n % 256;
    assert n == h * 256 + k;
    assert n < 0x8000_0000 <==> h < 0x80_0000;
  }

  lemma Wrapped(v: int)
    requires -0x8000_0000 <= v < 0x8000_0000
    ensures v % TWO32 == if v >= 0 then v else v + TWO32
    ensures Signed32(v % TWO32) == v
  {
  }

  lemma SignedLow(n: nat)
    requires n < TWO32
    ensures Signed32(n) % 256 == n % 256
  {
    var h := n / 256;
    assert n == h * 256 + n % 256;
    assert Signed32(n) == (if n < 0x8000_0000 then h else h - 0x100_0000) * 256 + n % 256;
  }

  lemma HighBytes(v: int, k: nat)
    requires -0x80_0000 <= v < 0x80_0000 && k < 256
    ensures k + v * 256 % TWO32 < TWO32
    ensures Signed32(k + v * 256 % TWO32) == v * 256 + k
    ensures (v * 256 + k) / 256 == v && (v * 256 + k) % 256 == k
  {
    Wrapped(v * 256);
  }

  /** The two element layouts. */
  datatype Traits = FourBytes | FiveBytes {

    function MaxBase(): int {
      if FourBytes? then 0x007F_FFFF else 0x7FFF_FFFF
    }

    function Size(): nat {
      if FourBytes? then 4 else 5
    }

    /** "SDA4" or "SDA5". */
    function ChunkId(): bytes {
      [0x53, 0x44, 0x41, if FourBytes? then 0x34 else 0x35]
    }

    predicate InRange(v: int) {
      -MaxBase() <= v <= MaxBase()
    }

    /** get_base and get_check on the bytes of one element. */
    function Get(e: bytes): Cell
      requires |e| == Size()
    {
      if FourBytes? then
        var word := Signed32(FromLE32(e));
        Cell(word / 256, word % 256)
      else
        Cell(Signed32(FromLE32(e[..4])), e[4])
    }

    function SetBase(e: bytes, v: int): (r: bytes)
      requires |e| == Size()
      ensures |r| == Size()
    {
      if FourBytes? then
        LE32(FromLE32(e) % 256 + v * 256 % TWO32)
      else
        LE32(v % TWO32) + [e[4]]
    }

    function SetCheck(e: bytes, c: byte): (r: bytes)
      requires |e| == Size()
      ensures |r| == Size()
    {
      if FourBytes? then
        LE32(FromLE32(e) / 256 * 256 + c)
      else
        e[..4] + [c]
    }

    /** The bytes of an element that holds `cell`. */
    function Pack(cell: Cell): (r: bytes)
      ensures |r| == Size()
    {
      SetCheck(SetBase(if FourBytes? then [0, 0, 0, 0] else [0, 0, 0, 0, 0], cell.base), cell.check)
    }

    /** Within the range of BASE values, the setter of BASE changes BASE only. */
    lemma SetBaseActs(e: bytes, v: int)
      requires |e| == Size() && InRange(v)
      ensures Get(SetBase(e, v)) == Get(e).(base := v)
    {
      hide LE32, FromLE32, Signed32;
      if FourBytes? {
        var n := FromLE32(e);
        SignedLow(n);
        HighBytes(v, n % 256);
        RoundTrip32(n % 256 + v * 256 % TWO32);
      } else {
        Wrapped(v);
        RoundTrip32(v % TWO32);
        assert SetBase(e, v)[..4] == LE32(v % TWO32);
      }
    }

    lemma SetCheckActs(e: bytes, c: byte)
      requires |e| == Size()
      ensures Get(SetCheck(e, c)) == Get(e).(check := c)
    {
      if FourBytes? {
        var n := FromLE32(e);
        LowByte(n, c);
        RoundTrip32(n / 256 * 256 + c);
      } else {
        assert SetCheck(e, c)[..4] == e[..4];
      }
    }

    lemma GetPack(cell: Cell)
      requires InRange(cell.base)
      ensures Get(Pack(cell)) == cell
    {
      var zero := if FourBytes? then [0, 0, 0, 0] else [0, 0, 0, 0, 0];
      SetBaseActs(zero, cell.base);
      SetCheckActs(SetBase(zero, cell.base), cell.check);
    }

    /** No element can hold a BASE above the limit, and any up to it. */
    lemma MaxBaseExact(v: nat)
      ensures v <= MaxBase() <==> exists e: bytes :: |e| == Size() && Get(e).base == v
    {
      hide LE32, FromLE32, Pack;
      if v <= MaxBase() {
        GetPack(Cell(v, 0));
        assert Get(Pack(Cell(v, 0))).base == v;
      }
    }
  }
}
