/** The character table: codes in descending order of how often a byte occurs,
    with the end of each key counted as byte 0. */
module CharTable {
  import opened Bytes
  import opened Records
  import opened TrieSpec

  datatype Unigram = Unigram(c: byte, freq: nat)

  /** How often byte `c` occurs in the keys, which the source takes as C strings. */
  function CountIn(k: bytes, c: byte): nat {
    if k == [] then 0 else CountIn(k[..|k| - 1], c) + (if k[|k| - 1] == c then 1 else 0)
  }

  function Frequency(s: seq<Record>, c: byte): nat {
    if s == [] then 0
    else Frequency(s[..|s| - 1], c) + CountIn(s[|s| - 1].key, c) + (if c == 0 then 1 else 0)
  }

  /** All keys one after the other, each with its NUL. */
  ghost function Strings(s: seq<Record>): bytes {
    if s == [] then [] else s[0].key + [0] + Strings(s[1..])
  }

  lemma {:induction false} CountIs(k: bytes, c: byte)
    ensures CountIn(k, c) == multiset(k)[c]
  {
    if k != [] {
      var n := |k| - 1;
      assert k == k[..n] + [k[n]];
      CountIs(k[..n], c);
    }
  }

  lemma {:induction false} StringsSnoc(s: seq<Record>, r: Record)
    ensures Strings(s + [r]) == Strings(s) + (r.key + [0])
  {
    if s == [] {
      assert ([] + [r])[1..] == [];
    } else {
      assert (s + [r])[1..] == s[1..] + [r];
      StringsSnoc(s[1..], r);
    }
  }

  /** The frequency counts the occurrences in all of them. */
  lemma {:induction false} FrequencyIs(s: seq<Record>, c: byte)
    ensures Frequency(s, c) == multiset(Strings(s))[c]
  {
    if s != [] {
      var front, r := s[..|s| - 1], s[|s| - 1];
      assert s == front + [r];
      FrequencyIs(front, c);
      CountIs(r.key, c);
      StringsSnoc(front, r);
      hide Strings;
      assert multiset(Strings(s)) == multiset(Strings(front)) + multiset(r.key) + multiset{0};
    }
  }

  ghost predicate Lists(st: seq<Unigram>, c: byte) {
    exists i :: 0 <= i < |st| && st[i].c == c
  }

  /** Each of the first `n` bytes stands in `st` once, with its frequency. */
  ghost predicate Unigrams(st: seq<Unigram>, freq: byte -> nat, n: nat) {
    && |st| == n <= 256
    && (forall i :: 0 <= i < n ==> st[i].c < n && st[i].freq == freq(st[i].c))
    && (forall i, j :: 0 <= i < j < n ==> st[i].c != st[j].c)
    && (forall c: byte :: c < n ==> Lists(st, c))
  }

  ghost predicate Descending(st: seq<Unigram>) {
    forall i, j :: 0 <= i < j < |st| ==> st[i].freq >= st[j].freq
  }

  /** Injective, and a byte that occurs more often has the smaller code. */
  ghost predicate Ranked(table: Table, s: seq<Record>) {
    var m := multiset(Strings(s));
    Injective(table) && forall a: byte, b: byte :: m[a] > m[b] ==> table[a] < table[b]
  }

  method SortByFrequency(st: seq<Unigram>, ghost freq: byte -> nat) returns (r: seq<Unigram>)
    requires |st| <= 256 && forall i :: 0 <= i < |st| ==> st[i] == Unigram(i, freq(i))
    ensures Unigrams(r, freq, |st|) && Descending(r)
  {
    r := [];
    for n := 0 to |st|
      invariant Unigrams(r, freq, n) && Descending(r)
    {
      var at := 0;
      while at < |r| && r[at].freq >= st[n].freq
        invariant 0 <= at <= |r|
        invariant forall i :: 0 <= i < at ==> r[i].freq >= st[n].freq
      {
        at := at + 1;
      }
      InsertKeeps(r, freq, n, at, st[n]);
      r := r[..at] + [st[n]] + r[at..];
    }
  }

  lemma InsertKeeps(r: seq<Unigram>, freq: byte -> nat, n: nat, at: nat, x: Unigram)
    requires Unigrams(r, freq, n) && Descending(r) && n < 256
    requires x == Unigram(n, freq(n)) && at <= |r|
    requires forall i :: 0 <= i < at ==> r[i].freq >= x.freq
    requires at < |r| ==> r[at].freq < x.freq
    ensures var r' := r[..at] + [x] + r[at..];
            Unigrams(r', freq, n + 1) && Descending(r')
  {
    var r' := r[..at] + [x] + r[at..];
    assert r'[at] == x;
    assert forall i :: 0 <= i < |r'| ==> r'[i] == if i < at then r[i] else if i == at then x else r[i - 1];
    forall c: byte | c as int < n + 1 ensures Lists(r', c) {
      InsertLists(r, n, at, x, c);
    }
    forall i, j | 0 <= i < j < n + 1 ensures r'[i].c != r'[j].c && r'[i].freq >= r'[j].freq {
      InsertOrdered(r, n, at, x, i, j);
    }
  }

  lemma InsertLists(r: seq<Unigram>, n: nat, at: nat, x: Unigram, c: byte)
    requires |r| == n < 256 && at <= n && x.c == n && c <= n
    requires c < n ==> Lists(r, c)
    ensures Lists(r[..at] + [x] + r[at..], c)
  {
    var r' := r[..at] + [x] + r[at..];
    if c < n {
      var i :| 0 <= i < n && r[i].c == c;
      assert r'[if i < at then i else i + 1].c == c;
    } else {
      assert r'[at].c == c;
    }
  }

  lemma InsertOrdered(r: seq<Unigram>, n: nat, at: nat, x: Unigram, i: nat, j: nat)
    requires |r| == n < 256 && at <= n && x.c == n && i < j <= n
    requires forall i :: 0 <= i < n ==> r[i].c < n
    requires forall i, j :: 0 <= i < j < n ==> r[i].c != r[j].c && r[i].freq >= r[j].freq
    requires forall i :: 0 <= i < at ==> r[i].freq >= x.freq
    requires at < n ==> r[at].freq < x.freq
    ensures var r' := r[..at] + [x] + r[at..]; r'[i].c != r'[j].c && r'[i].freq >= r'[j].freq
  {
    var r' := r[..at] + [x] + r[at..];
    assert r'[i] == if i < at then r[i] else if i == at then x else r[i - 1];
    assert r'[j] == if j < at then r[j] else if j == at then x else r[j - 1];
  }

  method BuildTable(s: seq<Record>) returns (table: Table)
    requires KeysNulFree(s)
    ensures Injective(table) && Ranked(table, s)
  {
    hide Ranked, Injective, Strings, Descending;
    var counts := seq(256, _ => 0);
    for it := 0 to |s|
      invariant |counts| == 256
      invariant forall c: byte :: counts[c] == Frequency(s[..it], c)
    {
      var key := s[it].key;
      ghost var before := counts;
      for i := 0 to |key|
        invariant |counts| == 256
        invariant forall c: byte :: counts[c] == before[c] + CountIn(key[..i], c)
      {
        assert key[..i + 1][..i] == key[..i];
        counts := counts[key[i] := counts[key[i]] + 1];
      }
      assert key[..|key|] == key && s[..it + 1][..it] == s[..it];
      counts := counts[0 := counts[0] + 1];
    }
    assert s[..|s|] == s;
    var st := seq(256, (i: nat) requires i < 256 => Unigram(i, counts[i]));
    st := SortByFrequency(st, (c: byte) => Frequency(s, c));
    table := seq(256, (i: nat) requires i < 256 => i);
    for i := 0 to 256
      invariant |table| == 256
      invariant forall k :: 0 <= k < i ==> table[st[k].c] == k
    {
      table := table[st[i].c := i];
    }
    RankedBy(st, table, s);
  }

  lemma RankedBy(st: seq<Unigram>, table: Table, s: seq<Record>)
    requires Unigrams(st, (c: byte) => Frequency(s, c), 256) && Descending(st)
    requires forall k :: 0 <= k < 256 ==> table[st[k].c] == k
    ensures Injective(table) && Ranked(table, s)
  {
    hide Frequency, Strings;
    forall a: byte, b: byte
      ensures table[a] == table[b] ==> a == b
      ensures multiset(Strings(s))[a] > multiset(Strings(s))[b] ==> table[a] < table[b]
    {
      FrequencyIs(s, a);
      FrequencyIs(s, b);
      assert Lists(st, a) && Lists(st, b);
      var i :| 0 <= i < 256 && st[i].c == a;
      var j :| 0 <= j < 256 && st[j].c == b;
    }
  }
}
