/** `dastrie::itail`: C strings and values read from the tail array. */
module Tails {
  import opened Bytes
  import opened Records

  /** `strlen` at position `i`. */
  function StrLen(t: bytes, i: nat): (n: nat)
    ensures i <= |t| ==> i + n <= |t|
    decreases |t| - i
  {
    if i < |t| && t[i] != 0 then 1 + StrLen(t, i + 1) else 0
  }

  lemma {:induction false} StrLenOf(t: bytes, i: nat, k: bytes)
    requires NulFree(k) && HoldsAt(t, i, k + [0])
    ensures StrLen(t, i) == |k|
    decreases |k|
  {
    HoldsAtSplit(t, i, k, [0]);
    assert t[i + |k|] == t[i + |k|..i + |k| + 1][0];
    if k == [] {
    } else {
      assert t[i] == t[i..i + |k|][0];
      assert k == [k[0]] + k[1..];
      assert k + [0] == [k[0]] + (k[1..] + [0]);
      HoldsAtSplit(t, i, [k[0]], k[1..] + [0]);
      StrLenOf(t, i + 1, k[1..]);
    }
  }

  /** Two C strings at the same place are the same string. */
  lemma SameString(t: bytes, i: nat, a: bytes, b: bytes)
    requires NulFree(a) && NulFree(b) && HoldsAt(t, i, a + [0])
    ensures HoldsAt(t, i, b + [0]) <==> a == b
  {
    if HoldsAt(t, i, b + [0]) {
      StrLenOf(t, i, a);
      StrLenOf(t, i, b);
      assert t[i..i + |a| + 1][..|a|] == t[i..i + |b| + 1][..|b|];
      assert (a + [0])[..|a|] == a && (b + [0])[..|b|] == b;
    }
  }

  /** The stored items of a value one by one. */
  lemma FirstItem(t: bytes, i: nat, v: Value)
    requires v != [] && HoldsAt(t, i, EncodeItems(v))
    ensures var x, j := v[0], i + |v[0].name| + 1;
            && HoldsAt(t, i, x.name + [0]) && HoldsAt(t, j, x.rank)
            && HoldsAt(t, j + 4, EncodeItems(v[1..]))
            && |EncodeItems(v)| == |x.name| + 5 + |EncodeItems(v[1..])|
  {
    var x, rest := v[0], EncodeItems(v[1..]);
    FirstItemForm(v);
    hide *;
    HoldsAtSplit(t, i, x.name + [0], x.rank + rest);
    HoldsAtSplit(t, i + |x.name + [0]|, x.rank, rest);
  }

  lemma ValueInside(t: bytes, i: nat, v: Value)
    requires HoldsAt(t, i, EncodeValue(v))
    ensures i < |t|
  {
  }

  lemma EncodeNone()
    ensures EncodeItems([]) == []
  {
  }

  lemma FirstItemForm(v: Value)
    requires v != []
    ensures EncodeItems(v) == (v[0].name + [0]) + (v[0].rank + EncodeItems(v[1..]))
  {
  }

  class ITail {
    var cont: bytes
    var offset: nat

    constructor (cont: bytes)
      ensures this.cont == cont && offset == 0
    {
      this.cont := cont;
      offset := 0;
    }

    /** The copy constructor. */
    constructor Copy(other: ITail)
      ensures cont == other.cont && offset == other.offset
    {
      cont := other.cont;
      offset := other.offset;
    }

    method Seekg(o: nat)
      modifies this`offset
      ensures offset == if o < |cont| then o else old(offset)
    {
      if o < |cont| {
        offset := o;
      }
    }

    method Strlen() returns (n: nat)
      ensures n == StrLen(cont, offset)
    {
      n := StrLen(cont, offset);
    }

    /** Is `str` the whole string at the read position? */
    method MatchString(str: bytes) returns (match_: bool)
      ensures match_ <==> HoldsAt(cont, offset, str + [0])
    {
      var length := |str| + 1;
      if offset + length <= |cont| {
        if cont[offset..offset + length] == str + [0] {
          return true;
        }
      }
      return false;
    }

    /** Is the string at the read position a prefix of `str`? The comparison runs over the
        tail's string, whose bytes are not NUL, and so stops at the end of `str` if not before. */
    method MatchStringPartial(str: bytes, ghost k: bytes) returns (match_: bool)
      requires NulFree(k) && HoldsAt(cont, offset, k + [0])
      ensures match_ <==> k <= str
    {
      StrLenOf(cont, offset, k);
      HoldsAtSplit(cont, offset, k, [0]);
      assert cont[offset + |k|] == cont[offset + |k|..offset + |k| + 1][0];
      var length := StrLen(cont, offset);
      if offset + length + 1 <= |cont| {
        if length <= |str| && cont[offset..offset + length] == str[..length] {
          if cont[offset + length] == 0 {
            return true;
          }
        }
      }
      return false;
    }

    /** `>>` into a 32-bit integer, which keeps its value at the end of the array. */
    method ReadUint32(value: nat) returns (r: nat)
      modifies this`offset
      ensures r == if old(offset) + 4 <= |cont| then FromLE32(cont[old(offset)..old(offset) + 4]) else value
      ensures offset == if old(offset) + 4 <= |cont| then old(offset) + 4 else old(offset)
    {
      r := value;
      if offset + 4 <= |cont| {
        r := FromLE32(cont[offset..offset + 4]);
        offset := offset + 4;
      }
    }

    /** `>>` into the four bytes of a float. */
    method ReadQuad(value: quad) returns (r: quad)
      modifies this`offset
      ensures r == if old(offset) + 4 <= |cont| then cont[old(offset)..old(offset) + 4] else value
      ensures offset == if old(offset) + 4 <= |cont| then old(offset) + 4 else old(offset)
    {
      r := value;
      if offset + 4 <= |cont| {
        r := cont[offset..offset + 4];
        offset := offset + 4;
      }
    }

    /** `>>` into a string. */
    method ReadString(ghost k: bytes) returns (str: bytes)
      requires NulFree(k) && HoldsAt(cont, offset, k + [0])
      modifies this`offset
      ensures str == k && offset == old(offset) + |k| + 1
    {
      StrLenOf(cont, offset, k);
      HoldsAtSplit(cont, offset, k, [0]);
      var length := StrLen(cont, offset);
      str := cont[offset..offset + length];
      offset := offset + length + 1;
    }

    /** One turn of the loop that reads the items. */
    method ReadItem(ghost v: Value) returns (x: Item)
      requires v != [] && NulFree(v[0].name) && HoldsAt(cont, offset, EncodeItems(v))
      modifies this`offset
      ensures x == v[0] && HoldsAt(cont, offset, EncodeItems(v[1..]))
      ensures offset + |EncodeItems(v[1..])| == old(offset) + |EncodeItems(v)|
    {
      FirstItem(cont, offset, v);
      var name := ReadString(v[0].name);
      var rank := ReadQuad([0, 0, 0, 0]);
      x := Item(name, rank);
    }

    /** `>>` into a `string_array`: gives back the value whose stored form is there. */
    method ReadValue(ghost v: Value) returns (obj: Value)
      requires Encodable(v) && HoldsAt(cont, offset, EncodeValue(v))
      modifies this`offset
      ensures obj == v && offset == old(offset) + |EncodeValue(v)|
    {
      hide LE32, FromLE32, EncodeItems;
      HoldsAtSplit(cont, offset, LE32(|v|), EncodeItems(v));
      RoundTrip32(|v|);
      var n := ReadUint32(0);
      obj := [];
      assert v[0..] == v;
      ghost var end := offset + |EncodeItems(v)|;
      for i := 0 to n
        invariant n == |v| && obj == v[..i]
        invariant HoldsAt(cont, offset, EncodeItems(v[i..])) && offset + |EncodeItems(v[i..])| == end
      {
        assert v[i..][1..] == v[i + 1..];
        var item := ReadItem(v[i..]);
        obj := obj + [item];
      }
      assert v[n..] == [];
      EncodeNone();
    }
  }
}
