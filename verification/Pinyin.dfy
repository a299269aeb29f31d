/** `convert_to_letters`, as the indexer runs it on a line and as the server runs it on a
    query, and why the two agree. */
module Pinyin {
  import opened Bytes
  import opened Product
  import opened Utf8

  /** A table from characters to their readings; every entry has at least one. */
  type Readings = m: map<bytes, seq<bytes>> | forall c :: c in m ==> m[c] != [] witness map[]

  /** `getUTF8Len`: the length that a lead byte announces, 0 for NUL and for no lead byte. */
  function Utf8Len(b: byte): nat {
    if b == 0 then 0
    else if b < 0x80 then 1
    else if b / 32 == 0x6 then 2
    else if b / 16 == 0xe then 3
    else if b / 8 == 0x1e then 4
    else 0
  }

  /** A whole character stands in front. */
  predicate CharReady(s: bytes) {
    s != [] && 0 < Utf8Len(s[0]) <= |s|
  }

  /** The text is whole characters, as every UTF-8 text without NUL is (`CharsOfText`). */
  predicate Decodable(s: bytes)
    decreases |s|
  {
    s == [] || (CharReady(s) && Decodable(s[Utf8Len(s[0])..]))
  }

  function Chars(s: bytes): seq<bytes>
    requires Decodable(s)
    decreases |s|
  {
    if s == [] then [] else [s[..Utf8Len(s[0])]] + Chars(s[Utf8Len(s[0])..])
  }

  lemma CharsCons(c: bytes, s: bytes)
    requires c != [] && |c| == Utf8Len(c[0]) && Decodable(s)
    ensures Decodable(c + s) && Chars(c + s) == [c] + Chars(s)
  {
    hide Utf8Len;
    assert (c + s)[..|c|] == c && (c + s)[|c|..] == s;
  }

  lemma FirstChar(t: bytes) returns (c: bytes, more: bytes)
    requires t != [] && Decodable(t)
    ensures t == c + more && c != [] && |c| == Utf8Len(c[0])
    ensures Decodable(more) && Chars(t) == [c] + Chars(more)
  {
    hide Utf8Len;
    c, more := t[..Utf8Len(t[0])], t[Utf8Len(t[0])..];
  }

  lemma {:induction false} CharsConcat(q: bytes, rest: bytes)
    requires Decodable(q) && Decodable(rest)
    ensures Decodable(q + rest) && Chars(q + rest) == Chars(q) + Chars(rest)
    decreases |q|
  {
    if q == [] {
      assert [] + rest == rest;
    } else {
      hide *;
      var c, more := FirstChar(q);
      Associative(c, more, rest);
      CharsConcat(more, rest);
      CharsCons(c, more + rest);
      Associative([c], Chars(more), Chars(rest));
    }
  }

  lemma Associative<T>(a: seq<T>, b: seq<T>, c: seq<T>)
    ensures a + b + c == a + (b + c)
  {
  }

  predicate Ascii(s: bytes) {
    forall i :: 0 <= i < |s| ==> s[i] < 0x80
  }

  method AllEnglishChar(s: bytes) returns (r: bool)
    ensures r <==> Ascii(s)
  {
    for i := 0 to |s|
      invariant forall j :: 0 <= j < i ==> s[j] < 0x80
    {
      if s[i] >= 0x80 {
        return false;
      }
    }
    return true;
  }

  /** The readings of the characters that have any, in order; others are dropped. */
  function ReadingsOf(chars: seq<bytes>, table: Readings): seq<seq<bytes>> {
    if chars == [] then []
    else ReadingsOf(chars[..|chars| - 1], table)
         + if chars[|chars| - 1] in table then [table[chars[|chars| - 1]]] else []
  }

  /** ... cut to their first letters. */
  ghost function InitialsOf(chars: seq<bytes>, table: Readings): seq<seq<bytes>> {
    if chars == [] then []
    else InitialsOf(chars[..|chars| - 1], table)
         + if chars[|chars| - 1] in table then [Initials(table[chars[|chars| - 1]])] else []
  }

  function Initials(list: seq<bytes>): (r: seq<bytes>)
    ensures |r| == |list|
    ensures forall i :: 0 <= i < |list| ==> r[i] == if list[i] == [] then [] else [list[i][0]]
  {
    seq(|list|, i requires 0 <= i < |list| => if |list[i]| > 1 then list[i][..1] else list[i])
  }

  lemma {:induction false} ReadingsNonEmpty(chars: seq<bytes>, table: Readings)
    ensures forall i :: 0 <= i < |ReadingsOf(chars, table)| ==> ReadingsOf(chars, table)[i] != []
    ensures forall i :: 0 <= i < |InitialsOf(chars, table)| ==> InitialsOf(chars, table)[i] != []
  {
    if chars == [] {
    } else {
      ReadingsNonEmpty(chars[..|chars| - 1], table);
    }
  }

  lemma {:induction false} ReadingsConcat(a: seq<bytes>, b: seq<bytes>, table: Readings)
    ensures ReadingsOf(a + b, table) == ReadingsOf(a, table) + ReadingsOf(b, table)
  {
    if b == [] {
      assert a + b == a;
    } else {
      var front := b[..|b| - 1];
      assert (a + b)[..|a + b| - 1] == a + front && (a + b)[|a + b| - 1] == b[|b| - 1];
      ReadingsConcat(a, front, table);
    }
  }

  /** Appending one reading list per character, as the walk over the text does. */
  lemma ReadingsSnoc(chars: seq<bytes>, c: bytes, table: Readings)
    ensures ReadingsOf(chars + [c], table) == ReadingsOf(chars, table) + if c in table then [table[c]] else []
    ensures InitialsOf(chars + [c], table) == InitialsOf(chars, table) + if c in table then [Initials(table[c])] else []
  {
    assert (chars + [c])[..|chars|] == chars;
  }

  /** The choices spelled, none when no character has a reading. */
  ghost predicate IsExpansion(out: seq<bytes>, lists: seq<seq<bytes>>) {
    if lists == [] then out == [] else IsProduct(out, lists)
  }

  /** The letter forms the server queries for `q`. */
  ghost predicate IsQueryForms(out: seq<bytes>, q: bytes, table: Readings)
    requires Decodable(q)
  {
    if Ascii(q) then out == [q] else IsExpansion(out, ReadingsOf(Chars(q), table))
  }

  /** The letter forms under which the indexer stores `line`: full readings, and first
      letters as well when no character is a single byte. */
  ghost predicate IsIndexForms(out: seq<bytes>, line: bytes, table: Readings)
    requires Decodable(line)
  {
    if Ascii(line) then out == [line]
    else
      exists full, initials ::
        && IsExpansion(full, ReadingsOf(Chars(line), table))
        && IsExpansion(initials, InitialsOf(Chars(line), table))
        && out == full + if AllWide(line) then initials else []
  }

  ghost predicate AllWide(s: bytes)
    requires Decodable(s)
  {
    forall c :: c in Chars(s) ==> |c| > 1
  }

  // ----- text as code points

  lemma FirstLength(c: CodePoint)
    ensures Encoding(c) != [] && |Encoding(c)| == Utf8Len(Encoding(c)[0])
  {
  }

  /** Encoded text is whole characters, and these are the encodings of its code points. */
  lemma {:induction false} CharsOfText(cps: seq<CodePoint>)
    ensures Decodable(Text(cps)) && Chars(Text(cps)) == Encodings(cps)
  {
    hide Utf8Len, Encoding;
    if cps != [] {
      FirstLength(cps[0]);
      CharsOfText(cps[1..]);
      CharsCons(Encoding(cps[0]), Text(cps[1..]));
      assert Encodings(cps) == [Encoding(cps[0])] + Encodings(cps[1..]);
    }
  }

  lemma AsciiText(cps: seq<CodePoint>)
    ensures Ascii(Text(cps)) <==> forall c :: c in cps ==> c < 128
  {
    hide Encoding, Text;
    TextBytes(cps);
    if Ascii(Text(cps)) {
      forall c | c in cps ensures c < 128 {
        EncodingBytes(c);
        assert Encoding(c)[0] in Encoding(c);
      }
    }
    if forall c :: c in cps ==> c < 128 {
      forall i | 0 <= i < |Text(cps)| ensures Text(cps)[i] < 128 {
        var b := Text(cps)[i];
        assert b in Text(cps);
        var c :| c in cps && b in Encoding(c);
        EncodingBytes(c);
      }
    }
  }

  lemma WideText(cps: seq<CodePoint>)
    ensures Decodable(Text(cps)) && (AllWide(Text(cps)) <==> forall c :: c in cps ==> c >= 128)
  {
    hide Encoding, Text, Decodable, Chars;
    CharsOfText(cps);
    var chars := Encodings(cps);
    if AllWide(Text(cps)) {
      forall c | c in cps ensures c >= 128 {
        var i :| 0 <= i < |cps| && cps[i] == c;
        EncodingBytes(c);
        assert chars[i] in chars;
      }
    }
    if forall c :: c in cps ==> c >= 128 {
      forall e | e in chars ensures |e| > 1 {
        var i :| 0 <= i < |chars| && chars[i] == e;
        EncodingBytes(cps[i]);
        assert cps[i] in cps;
      }
    }
  }

  /** The forms of a query in terms of its code points: itself if all are below 128, else the
      product of the readings that the table has for them. */
  ghost predicate IsQueryFormsOf(out: seq<bytes>, cps: seq<CodePoint>, table: Readings) {
    if forall c :: c in cps ==> c < 128 then out == [Text(cps)]
    else IsExpansion(out, ReadingsOf(Encodings(cps), table))
  }

  /** ... and those of a line, with the product of the first letters when no code point is
      below 128. */
  ghost predicate IsIndexFormsOf(out: seq<bytes>, cps: seq<CodePoint>, table: Readings) {
    if forall c :: c in cps ==> c < 128 then out == [Text(cps)]
    else
      exists full, initials ::
        && IsExpansion(full, ReadingsOf(Encodings(cps), table))
        && IsExpansion(initials, InitialsOf(Encodings(cps), table))
        && out == full + if forall c :: c in cps ==> c >= 128 then initials else []
  }

  lemma QueryText(out: seq<bytes>, q: bytes, table: Readings)
    requires Decodable(q) && IsQueryForms(out, q, table)
    ensures forall cps :: Text(cps) == q ==> IsQueryFormsOf(out, cps, table)
  {
    hide Text, Decodable, Chars, Ascii, IsExpansion, ReadingsOf, AllWide;
    forall cps | Text(cps) == q ensures IsQueryFormsOf(out, cps, table) {
      AsciiText(cps);
      WideText(cps);
      CharsOfText(cps);
    }
  }

  lemma IndexText(out: seq<bytes>, line: bytes, table: Readings)
    requires Decodable(line) && IsIndexForms(out, line, table)
    ensures forall cps :: Text(cps) == line ==> IsIndexFormsOf(out, cps, table)
  {
    hide Text, Decodable, Chars, Ascii, IsExpansion, ReadingsOf, InitialsOf, AllWide;
    forall cps | Text(cps) == line ensures IsIndexFormsOf(out, cps, table) {
      AsciiText(cps);
      WideText(cps);
      CharsOfText(cps);
    }
  }

  // ----- the walk over the text

  lemma WalkStart(s: bytes, table: Readings)
    requires Decodable(s)
    ensures Decodable(s[0..]) && Chars(s[0..]) == Chars(s)
    ensures ReadingsOf([], table) == [] && InitialsOf([], table) == []
  {
    assert s[0..] == s;
  }

  lemma WalkEnd(s: bytes)
    ensures Decodable(s[|s|..]) && Chars(s[|s|..]) == []
  {
  }

  lemma ExpansionOf(out: seq<bytes>, lists: seq<seq<bytes>>)
    requires if lists == [] then out == [] else IsProduct(out, lists)
    ensures IsExpansion(out, lists)
  {
  }

  lemma CharsHead(t: bytes)
    requires t != [] && Decodable(t)
    ensures CharReady(t) && Utf8Len(t[0]) <= |t| && Decodable(t[Utf8Len(t[0])..])
    ensures Chars(t) == [t[..Utf8Len(t[0])]] + Chars(t[Utf8Len(t[0])..])
  {
    hide Utf8Len;
  }

  lemma CharsStep(s: bytes, p: nat)
    requires p < |s| && Decodable(s[p..])
    ensures CharReady(s[p..]) && p + Utf8Len(s[p]) <= |s| && Decodable(s[p + Utf8Len(s[p])..])
    ensures Chars(s[p..]) == [s[p..p + Utf8Len(s[p])]] + Chars(s[p + Utf8Len(s[p])..])
  {
    hide *;
    CharsHead(s[p..]);
    SliceOfRest(s, p, Utf8Len(s[p]));
  }

  /** The server's version. */
  method QueryLetters(strIn: bytes, table: Readings) returns (vOut: seq<bytes>)
    requires Decodable(strIn)
    ensures IsQueryForms(vOut, strIn, table)
    ensures forall cps :: Text(cps) == strIn ==> IsQueryFormsOf(vOut, cps, table)
  {
    hide Utf8Len, Chars, Decodable, ReadingsOf, InitialsOf, IsProduct, CharReady, Text, IsQueryFormsOf;
    vOut := [];
    var english := AllEnglishChar(strIn);
    if english {
      vOut := [strIn];
      QueryText(vOut, strIn, table);
      return;
    }
    var vecAll: seq<seq<bytes>> := [];
    ghost var seen: seq<bytes> := [];
    var p := 0;
    WalkStart(strIn, table);
    while p < |strIn|
      invariant p <= |strIn| && Decodable(strIn[p..])
      invariant Chars(strIn) == seen + Chars(strIn[p..]) && vecAll == ReadingsOf(seen, table)
    {
      CharsStep(strIn, p);
      var s := Utf8Len(strIn[p]);
      var strKey := strIn[p..p + s];
      ReadingsSnoc(seen, strKey, table);
      seen := seen + [strKey];
      if strKey in table {
        vecAll := vecAll + [table[strKey]];
      }
      p := p + s;
    }
    WalkEnd(strIn);
    assert seen == Chars(strIn);
    ReadingsNonEmpty(seen, table);
    vOut := GetAllResults(vecAll, vOut);
    QueryText(vOut, strIn, table);
  }

  /** The indexer's version. */
  method IndexLetters(strIn: bytes, table: Readings) returns (vOut: seq<bytes>)
    requires Decodable(strIn)
    ensures IsIndexForms(vOut, strIn, table)
    ensures forall cps :: Text(cps) == strIn ==> IsIndexFormsOf(vOut, cps, table)
  {
    hide Utf8Len, Chars, Decodable, ReadingsOf, InitialsOf, IsProduct, CharReady, IsExpansion, Text, IsIndexFormsOf;
    vOut := [];
    var english := AllEnglishChar(strIn);
    if english {
      vOut := [strIn];
      IndexText(vOut, strIn, table);
      return;
    }
    var allChinese := true;
    var vecAll: seq<seq<bytes>>, vecFC: seq<seq<bytes>> := [], [];
    ghost var seen: seq<bytes> := [];
    var p := 0;
    WalkStart(strIn, table);
    while p < |strIn|
      invariant p <= |strIn| && Decodable(strIn[p..])
      invariant Chars(strIn) == seen + Chars(strIn[p..])
      invariant vecAll == ReadingsOf(seen, table) && vecFC == InitialsOf(seen, table)
      invariant allChinese <==> forall c :: c in seen ==> |c| > 1
    {
      CharsStep(strIn, p);
      var s := Utf8Len(strIn[p]);
      if s <= 1 {
        allChinese := false;
      }
      var strKey := strIn[p..p + s];
      ReadingsSnoc(seen, strKey, table);
      ghost var before := seen;
      seen := seen + [strKey];
      assert forall c :: c in seen <==> c in before || c == strKey;
      if strKey in table {
        vecAll := vecAll + [table[strKey]];
        var vTmp := FirstLetters(table[strKey]);
        vecFC := vecFC + [vTmp];
      }
      p := p + s;
    }
    WalkEnd(strIn);
    assert seen == Chars(strIn);
    ReadingsNonEmpty(seen, table);
    vOut := GetAllResults(vecAll, vOut);
    ghost var full := vOut;
    var vTmp := GetAllResults(vecFC, []);
    ExpansionOf(full, vecAll);
    ExpansionOf(vTmp, vecFC);
    if allChinese {
      vOut := vOut + vTmp;
    } else {
      assert full + [] == full;
    }
    assert IsExpansion(full, ReadingsOf(Chars(strIn), table)) && IsExpansion(vTmp, InitialsOf(Chars(strIn), table));
    IndexText(vOut, strIn, table);
  }

  method FirstLetters(list: seq<bytes>) returns (r: seq<bytes>)
    ensures r == Initials(list)
  {
    r := [];
    for i := 0 to |list|
      invariant r == Initials(list)[..i]
    {
      r := r + [if |list[i]| > 1 then list[i][..1] else list[i]];
    }
  }

  /** The first-letter forms are never stored for the lines the indexer is run on: a name, a
      tab and a rank, of which the tab is a single byte. */
  lemma TabKeepsInitialsOut(name: bytes, rank: bytes, table: Readings, stored: seq<bytes>)
    requires Decodable(name) && Decodable(rank) && Decodable(name + ([9] + rank)) && !Ascii(name)
    requires IsIndexForms(stored, name + ([9] + rank), table)
    ensures IsExpansion(stored, ReadingsOf(Chars(name + ([9] + rank)), table))
  {
    hide Decodable, Chars, IsExpansion, IsIndexForms, ReadingsOf, InitialsOf;
    var line := name + ([9] + rank);
    CharsCons([9], rank);
    CharsConcat(name, [9] + rank);
    assert Chars(line)[|Chars(name)|] == [9];
    assert !AllWide(line);
    assert !Ascii(line) by {
      var i :| 0 <= i < |name| && name[i] >= 0x80;
      assert line[i] >= 0x80;
    }
    NarrowForms(stored, line, table);
  }

  /** The forms of a line with a character of a single byte. */
  lemma NarrowForms(stored: seq<bytes>, line: bytes, table: Readings)
    requires Decodable(line) && IsIndexForms(stored, line, table) && !Ascii(line) && !AllWide(line)
    ensures IsExpansion(stored, ReadingsOf(Chars(line), table))
  {
    hide IsExpansion, Decodable, Chars, ReadingsOf, InitialsOf, AllWide, Ascii;
    var full, initials :| IsExpansion(full, ReadingsOf(Chars(line), table))
      && IsExpansion(initials, InitialsOf(Chars(line), table))
      && stored == full + if AllWide(line) then initials else [];
    assert stored == full;
  }

  // ----- agreement

  /** A choice for the first lists extends to one for all, and its spelling is a prefix. */
  lemma {:induction false} PickExtends(a: seq<seq<bytes>>, b: seq<seq<bytes>>, d: seq<nat>) returns (e: seq<nat>)
    requires Choice(a, d) && forall i :: 0 <= i < |b| ==> b[i] != []
    ensures Choice(a + b, e) && Pick(a, d) <= Pick(a + b, e)
    decreases |b|
  {
    if b == [] {
      assert a + b == a;
      e := d;
    } else {
      var n := |b| - 1;
      var front := PickExtends(a, b[..n], d);
      e := front + [0];
      assert (a + b)[..|a + b| - 1] == a + b[..n] && (a + b)[|a + b| - 1] == b[n];
      assert e[..|a + b| - 1] == front;
    }
  }

  /** For a query that the line starts with, character by character, every letter form of the
      query is a prefix of a letter form under which the line is stored, if the query is not
      ASCII or both are. */
  lemma FormsAgree(q: bytes, rest: bytes, table: Readings, queried: seq<bytes>, stored: seq<bytes>,
                   f: bytes) returns (g: bytes)
    requires Decodable(q) && Decodable(rest) && Decodable(q + rest) && (Ascii(q) ==> Ascii(q + rest))
    requires IsQueryForms(queried, q, table) && IsIndexForms(stored, q + rest, table)
    requires f in queried
    ensures g in stored && f <= g
  {
    if Ascii(q) {
      return q + rest;
    }
    CharsConcat(q, rest);
    ReadingsConcat(Chars(q), Chars(rest), table);
    var a, b := ReadingsOf(Chars(q), table), ReadingsOf(Chars(rest), table);
    assert !Ascii(q + rest) by {
      var i :| 0 <= i < |q| && q[i] >= 0x80;
      assert (q + rest)[i] >= 0x80;
    }
    ReadingsNonEmpty(Chars(rest), table);
    ProductComplete(queried, a, f);
    var d :| Choice(a, d) && f == Pick(a, d);
    var e := PickExtends(a, b, d);
    g := Pick(a + b, e);
    var full, initials :| IsExpansion(full, ReadingsOf(Chars(q + rest), table))
      && IsExpansion(initials, InitialsOf(Chars(q + rest), table))
      && stored == full + if AllWide(q + rest) then initials else [];
    ProductComplete(full, a + b, g);
  }

  // ----- an ASCII query on a line that is not ASCII

  /** A line that starts with a single byte. */
  lemma AsciiNotWide(q: bytes, rest: bytes)
    requires q != [] && Ascii(q) && Decodable(q) && Decodable(rest) && Decodable(q + rest)
    ensures !AllWide(q + rest)
  {
    var c, more := FirstChar(q);
    CharsConcat(q, rest);
    assert q[0] == c[0] && |c| == 1;
    assert Chars(q + rest)[0] == c && c in Chars(q + rest);
  }

  lemma {:induction false} SameCount(chars: seq<bytes>, table: Readings)
    ensures |ReadingsOf(chars, table)| == |InitialsOf(chars, table)|
  {
    if chars == [] {
    } else {
      SameCount(chars[..|chars| - 1], table);
    }
  }

  /** An expansion has a form that starts with `q` exactly when the readings can spell `q`. */
  lemma ExpansionSpells(out: seq<bytes>, lists: seq<seq<bytes>>, q: bytes)
    requires IsExpansion(out, lists) && NoneEmpty(lists)
    ensures (exists g :: g in out && q <= g) <==> lists != [] && Spells(q, lists)
  {
    hide Spells, IsProduct, Choice, Pick, NoneEmpty;
    if lists != [] {
      if g :| g in out && q <= g {
        ProductComplete(out, lists, g);
        var d :| Choice(lists, d) && g == Pick(lists, d);
        PickSpells(q, lists, d);
      }
      if Spells(q, lists) {
        var d := SpellsPick(q, lists);
        ProductComplete(out, lists, Pick(lists, d));
      }
    }
  }

  lemma ExpansionsEmpty(stored: seq<bytes>, line: bytes, table: Readings)
    requires Decodable(line) && !Ascii(line) && IsIndexForms(stored, line, table)
    requires ReadingsOf(Chars(line), table) == []
    ensures stored == []
  {
    SameCount(Chars(line), table);
  }

  lemma FullStored(stored: seq<bytes>, line: bytes, table: Readings) returns (full: seq<bytes>)
    requires Decodable(line) && !Ascii(line) && IsIndexForms(stored, line, table)
    ensures IsExpansion(full, ReadingsOf(Chars(line), table)) && forall g :: g in full ==> g in stored
    ensures !AllWide(line) ==> stored == full
  {
    hide IsExpansion, Decodable, Chars, ReadingsOf, InitialsOf, AllWide, Ascii;
    var initials;
    full, initials :| IsExpansion(full, ReadingsOf(Chars(line), table))
      && IsExpansion(initials, InitialsOf(Chars(line), table))
      && stored == full + if AllWide(line) then initials else [];
    assert !AllWide(line) ==> full + [] == full;
  }

  /** The readings of the line can spell the query. */
  predicate LineSpells(q: bytes, line: bytes, table: Readings)
    requires Decodable(line)
  {
    var lists := ReadingsOf(Chars(line), table);
    lists != [] && Spells(q, lists)
  }

  lemma AsciiOnWide(q: bytes, rest: bytes, table: Readings, stored: seq<bytes>)
    requires Decodable(q) && Decodable(rest) && Decodable(q + rest) && Ascii(q) && !Ascii(q + rest)
    requires IsIndexForms(stored, q + rest, table)
    ensures (exists g :: g in stored && q <= g) <==> LineSpells(q, q + rest, table)
  {
    hide IsIndexForms, IsExpansion, AllWide, Spells, Decodable, Chars, ReadingsOf, Ascii;
    var line := q + rest;
    var lists := ReadingsOf(Chars(line), table);
    LinesNoneEmpty(Chars(line), table);
    var full := FullStored(stored, line, table);
    ExpansionSpells(full, lists, q);
    if lists == [] {
      ExpansionsEmpty(stored, line, table);
    } else if q == [] {
      SpellsNothing(lists);
      var g :| g in full && q <= g;
      assert g in stored;
    } else {
      AsciiNotWide(q, rest);
    }
  }

  lemma SpellsNothing(lists: seq<seq<bytes>>)
    ensures Spells([], lists)
  {
  }

  lemma LinesNoneEmpty(chars: seq<bytes>, table: Readings)
    ensures NoneEmpty(ReadingsOf(chars, table))
  {
    ReadingsNonEmpty(chars, table);
  }

  // ----- indexing and querying agree

  /** Every letter form of the query is a prefix of a stored letter form. */
  ghost predicate Agrees(queried: seq<bytes>, stored: seq<bytes>) {
    forall f :: f in queried ==> exists g :: g in stored && f <= g
  }

  /** What decides it: an ASCII query on a line that is not ASCII has to be spelled by the
      readings of the line. */
  predicate Findable(q: bytes, line: bytes, table: Readings)
    requires Decodable(line)
  {
    Ascii(q) && !Ascii(line) ==> LineSpells(q, line, table)
  }

  /** For every query that a line starts with, character by character: the letter forms of the
      query are prefixes of letter forms of the line exactly when that holds. */
  lemma FormsAgreeExactly(q: bytes, rest: bytes, table: Readings, queried: seq<bytes>, stored: seq<bytes>)
    requires Decodable(q) && Decodable(rest) && Decodable(q + rest)
    requires IsQueryForms(queried, q, table) && IsIndexForms(stored, q + rest, table)
    ensures Agrees(queried, stored) <==> Findable(q, q + rest, table)
  {
    hide Decodable, Chars, IsIndexForms, LineSpells, IsExpansion, Ascii;
    if Ascii(q) && !Ascii(q + rest) {
      AsciiOnWide(q, rest, table, stored);
      assert q in queried && forall f :: f in queried ==> f == q;
    } else {
      forall f | f in queried ensures exists g :: g in stored && f <= g {
        var g := FormsAgree(q, rest, table, queried, stored, f);
      }
    }
  }

  /** So it may fail: under a table with the single reading "a" for a character `c`, the query
      "b" finds nothing of a line with the name "b" followed by `c`, a tab and a rank. */
  lemma AsciiQueryExample(c: bytes, rank: bytes, queried: seq<bytes>, stored: seq<bytes>)
    requires c != [] && |c| == Utf8Len(c[0]) && c[0] >= 0x80 && Decodable(rank) && Ascii(rank)
    requires Decodable([98]) && Decodable([98] + (c + ([9] + rank)))
    requires var table: Readings := map[c := [[97]]];
             IsQueryForms(queried, [98], table) && IsIndexForms(stored, [98] + (c + ([9] + rank)), table)
    ensures queried == [[98]] && stored == [[97]] && !Agrees(queried, stored)
  {
    hide Chars, Decodable, ReadingsOf, InitialsOf, IsProduct, IsExpansion, IsIndexForms, Utf8Len, AllWide;
    var table: Readings := map[c := [[97]]];
    var line := [98] + (c + ([9] + rank));
    assert line[1] == c[0] && [98] !in table && [98] in [[98]];
    NameTabRank(98, c, rank, table, [97]);
    NarrowForms(stored, line, table);
    OneExpansion(stored, [97]);
    assert [98] in queried && !([98] <= [97]);
  }

  lemma NameTabRank(b: byte, c: bytes, rank: bytes, table: Readings, reading: bytes)
    requires 0 < b < 0x80 && c != [] && |c| == Utf8Len(c[0]) && c[0] >= 0x80
    requires Decodable(rank) && Ascii(rank) && Decodable([b] + (c + ([9] + rank)))
    requires table == map[c := [reading]]
    ensures ReadingsOf(Chars([b] + (c + ([9] + rank))), table) == [[reading]]
    ensures !AllWide([b] + (c + ([9] + rank)))
  {
    hide ReadingsOf, InitialsOf;
    var tail := [9] + rank;
    CharsCons([9], rank);
    CharsCons(c, tail);
    CharsCons([b], c + tail);
    var chars := Chars([b] + (c + tail));
    assert chars == [[b], c] + Chars(tail);
    assert chars[0] == [b];
    AsciiChars(tail);
    NoReadings(Chars(tail), table);
    TwoReadings([b], c, table, reading);
    ReadingsConcat([[b], c], Chars(tail), table);
  }

  lemma {:induction false} AsciiChars(s: bytes)
    requires Decodable(s) && Ascii(s)
    ensures forall c :: c in Chars(s) ==> c != [] && c[0] < 0x80
    decreases |s|
  {
    if s == [] {
    } else {
      hide Utf8Len;
      var c, more := FirstChar(s);
      assert c[0] == s[0] && forall i :: 0 <= i < |more| ==> more[i] == s[|c| + i];
      AsciiChars(more);
    }
  }

  lemma {:induction false} NoReadings(chars: seq<bytes>, table: Readings)
    requires forall c :: c in chars ==> c !in table
    ensures ReadingsOf(chars, table) == []
  {
    if chars == [] {
    } else {
      assert chars[|chars| - 1] in chars;
      NoReadings(chars[..|chars| - 1], table);
    }
  }

  lemma OneExpansion(out: seq<bytes>, reading: bytes)
    requires IsExpansion(out, [[reading]])
    ensures out == [reading]
  {
    var lists := [[reading]];
    FirstProduct(lists);
    assert lists[..1] == lists;
  }

  /** A character without a reading, and one with a single reading. */
  lemma TwoReadings(b: bytes, c: bytes, table: Readings, reading: bytes)
    requires b !in table && c in table && table[c] == [reading]
    ensures ReadingsOf([b, c], table) == [[reading]]
  {
    assert [b, c] == [] + [b] + [c];
    ReadingsSnoc([], b, table);
    ReadingsSnoc([] + [b], c, table);
  }
}
