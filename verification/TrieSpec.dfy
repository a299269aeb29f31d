/** What it means for a double array and a tail to hold a list of records. */
module TrieSpec {
  import opened Bytes
  import opened Records
  import opened Cells

  const INVALID: nat := 0
  const INITIAL: nat := 1

  type Table = t: seq<byte> | |t| == 256 ghost witness seq(256, _ => 0)

  /** The distance from a node's BASE to its child over the arc of byte `c`. */
  function Offset(table: Table, c: byte): (n: nat)
    ensures 1 <= n <= 256
  {
    table[c] as int + 1
  }

  ghost predicate Injective(table: Table) {
    forall a: byte, b: byte :: table[a] == table[b] ==> a == b
  }

  predicate InUse(da: seq<Cell>, i: nat) {
    i < |da| && da[i].base != 0
  }

  /** BASE `v` is a leaf: minus the tail offset of the rest of the key and the value. */
  ghost predicate IsLeaf(tail: bytes, v: int, p: nat, r: Record) {
    p <= |r.key| && v < 0 && HoldsAt(tail, -v, r.key[p..] + [0] + EncodeValue(r.value))
  }

  /** The depth reached over the arc of byte `c`; the final NUL is not consumed. */
  function Below(p: nat, c: byte): nat {
    if c == 0 then p else p + 1
  }

  /** A node at depth `p` whose BASE is `v` holds exactly the records `s`. */
  ghost predicate IsTrie(da: seq<Cell>, tail: bytes, table: Table, v: int, p: nat, s: seq<Record>)
    decreases MaxLen(s) - p, |s|
  {
    && s != []
    && KeysNulFree(s)
    && CommonPrefix(s, p)
    && if |s| == 1 then IsLeaf(tail, v, p, s[0])
       else v > 0 && forall c: byte :: IsTrieArc(da, tail, table, v, p, s, c)
  }

  /** The arc of byte `c` leads to the node of the records that have it; where there
      are none, no used cell answers to it. */
  ghost predicate IsTrieArc(da: seq<Cell>, tail: bytes, table: Table, v: nat, p: nat, s: seq<Record>, c: byte)
    requires |s| > 1 && CommonPrefix(s, p)
    decreases MaxLen(s) - p, |s|, 0
  {
    var g := Group(s, p, c);
    var j := v + Offset(table, c);
    if g == [] then
      j < |da| && da[j].check == table[c] ==> da[j].base == 0
    else
      && j < |da| && da[j].check == table[c]
      && (c == 0 ==> |g| == 1)
      && assert forall r :: r in g ==> r in s;
         assert g[0] in g;
         IsTrie(da, tail, table, da[j].base, Below(p, c), g)
  }
}
