/** Why a query finds the lines it should: the letter forms of a query against the keys
    that the indexer built from a line's letter forms. */
module Search {
  import opened Bytes
  import opened Records
  import opened Listing
  import opened Tries
  import opened Pinyin

  /** Every letter form under which `line` is stored is a key of the index. */
  ghost predicate Indexed(s: seq<Record>, stored: seq<bytes>) {
    forall g :: g in stored ==> exists r :: r in s && r.key == g
  }

  lemma BelowQuery(s: seq<Record>, q: bytes, r: Record)
    requires r in s && q <= r.key
    ensures r in Target(s, q)
  {
    hide Mismatch;
  }

  /** A record below the query that no arc of byte 255 hides is the `i`-th of those listed, and
      the first `n` pairs of the answer have its value in place `i` just when `i` is below `n`. */
  lemma BelowAnswered(s: seq<Record>, q: bytes, r: Record) returns (i: nat)
    requires r in s && q <= r.key && !Hidden(r, Target(s, q), Depth(s, q))
    ensures i < |ListedRecords(s, q)| && ListedRecords(s, q)[i] == r
    ensures forall n: int :: i < |Take(Answer(s, q), n)| <==> i < n
    ensures forall n: int :: i < n ==> Take(Answer(s, q), n)[i].value == r.value
  {
    hide Target, Depth, Hidden, Answer, Take, Shown;
    BelowQuery(s, q, r);
    var shown := ListedRecords(s, q);
    assert r in shown;
    i :| 0 <= i < |shown| && shown[i] == r;
    AnswerAt(s, q, i);
    forall n: int ensures i < |Take(Answer(s, q), n)| <==> i < n
      ensures i < n ==> Take(Answer(s, q), n)[i] == Answer(s, q)[i]
    {
      TakeAt(Answer(s, q), n, i);
    }
  }

  lemma AnswerAt(s: seq<Record>, q: bytes, i: nat)
    requires i < |ListedRecords(s, q)|
    ensures |Answer(s, q)| == |ListedRecords(s, q)| && Answer(s, q)[i].value == ListedRecords(s, q)[i].value
  {
    hide ListedRecords, Answer;
    var n := |ListedRecords(s, q)|;
    AnswerValues(s, q, n);
    assert Values(Answer(s, q))[i] == RecordValues(ListedRecords(s, q))[i];
  }

  lemma TakeAt<T>(e: seq<T>, n: int, i: nat)
    requires i < |e|
    ensures i < |Take(e, n)| <==> i < n
    ensures i < n ==> Take(e, n)[i] == e[i]
  {
  }

  /** For a query that an indexed line starts with, unless it is ASCII and the line is neither
      ASCII nor can spell it, every letter form the server looks up reaches a record of that
      line: it is below the form, and if byte 255 does not hide it, it is among those listed, with
      its value in the answer in that place as soon as the limit reaches there. */
  lemma QueryReachesLine(s: seq<Record>, q: bytes, rest: bytes, table: Readings,
                         queried: seq<bytes>, stored: seq<bytes>, f: bytes) returns (r: Record, i: nat)
    requires Decodable(q) && Decodable(rest) && Decodable(q + rest) && Findable(q, q + rest, table)
    requires IsQueryForms(queried, q, table) && IsIndexForms(stored, q + rest, table)
    requires Indexed(s, stored) && f in queried
    ensures r in Target(s, f) && f <= r.key && r.key in stored
    ensures !Hidden(r, Target(s, f), Depth(s, f)) ==>
      && i < |ListedRecords(s, f)| && ListedRecords(s, f)[i] == r
      && forall n: int :: i < n ==> i < |Take(Answer(s, f), n)| && Take(Answer(s, f), n)[i].value == r.value
    ensures Plain(s) ==> !Hidden(r, Target(s, f), Depth(s, f))
  {
    hide Mismatch, IsQueryForms, IsIndexForms, Findable, Decodable, Hidden, Answer, Take, Shown;
    FormsAgreeExactly(q, rest, table, queried, stored);
    var g :| g in stored && f <= g;
    r :| r in s && r.key == g;
    BelowQuery(s, f, r);
    PlainHides(s, f, r);
    i := 0;
    if !Hidden(r, Target(s, f), Depth(s, f)) {
      i := BelowAnswered(s, f, r);
    }
  }

  lemma PlainHides(s: seq<Record>, q: bytes, r: Record)
    requires r in s
    ensures Plain(s) ==> !Hidden(r, Target(s, q), Depth(s, q))
  {
    hide Target, Depth;
  }
}
