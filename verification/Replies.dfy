/** What the server answers to one request body, and how the client takes it apart. */
module Replies {
  import opened Bytes
  import opened Frames

  const DEFAULT_GET_NUMBER: nat := 10

  /** The outcome of `Get`, for a fixed index. */
  datatype GetResult = NoResult | Results(list: seq<bytes>)

  /** The parts of the server that stay as they are while a connection lives: its
      lookup, the two padding bytes in its write buffer, and the status byte of errors. */
  datatype Server = Server(get: bytes -> GetResult, pad: bytes, errorStatus: byte)

  /** A byte string cut at its first NUL. */
  function CString(b: bytes): bytes {
    if b == [] || b[0] == 0 then [] else [b[0]] + CString(b[1..])
  }

  function Number(body: bytes): nat
    requires 4 <= |body|
  {
    FromLE32(body[..4])
  }

  function Key(body: bytes): bytes
    requires 4 <= |body|
  {
    CString(body[4..])
  }

  // ----- the body of a reply

  function EncodeResults(list: seq<bytes>): bytes {
    if list == [] then [] else EncodeResults(list[..|list| - 1]) + EncodeResult(list[|list| - 1])
  }

  function EncodeResult(r: bytes): bytes {
    LE32(|r| % TWO32) + r
  }

  /** How many results the reply announces. */
  function Announced(number: nat, count: nat): nat {
    var wanted := if number == 0 then DEFAULT_GET_NUMBER else number;
    if wanted > count then count else wanted
  }

  function ResultsBody(number: nat, list: seq<bytes>): bytes {
    LE32(Announced(number, |list|) % TWO32) + EncodeResults(list)
  }

  const OUT_OF_MEMORY: bytes := [79, 117, 116, 32, 111, 102, 32, 109, 101, 109, 111, 114, 121]

  // ----- whole replies

  /** The header as it lies in the write buffer: magic, status, padding, length. */
  function ReplyHeader(pad: bytes, status: byte, len: nat): (h: bytes)
    requires |pad| == 2
    ensures |h| == HEADER
  {
    [RES, status] + pad + BE32(len % TWO32)
  }

  function Reply(srv: Server, body: bytes): bytes
    requires 4 <= |body| && |srv.pad| == 2
  {
    match srv.get(Key(body))
    case NoResult => ReplyHeader(srv.pad, srv.errorStatus, |OUT_OF_MEMORY|) + OUT_OF_MEMORY
    case Results(list) =>
      var b := ResultsBody(Number(body), list);
      ReplyHeader(srv.pad, 0, |b|) + b
  }

  /** One reply per request body, in order. */
  function AllReplies(srv: Server, bodies: seq<bytes>): bytes
    requires |srv.pad| == 2 && forall b :: b in bodies ==> 4 <= |b|
  {
    if bodies == [] then [] else AllReplies(srv, bodies[..|bodies| - 1]) + Reply(srv, bodies[|bodies| - 1])
  }

  lemma AllRepliesSnoc(srv: Server, bodies: seq<bytes>, body: bytes)
    requires |srv.pad| == 2 && 4 <= |body| && forall b :: b in bodies ==> 4 <= |b|
    ensures AllReplies(srv, bodies + [body]) == AllReplies(srv, bodies) + Reply(srv, body)
  {
    assert (bodies + [body])[..|bodies|] == bodies;
  }

  lemma {:induction false} AllRepliesPrefix(srv: Server, bodies: seq<bytes>, more: seq<bytes>)
    requires |srv.pad| == 2 && forall b :: b in bodies + more ==> 4 <= |b|
    ensures AllReplies(srv, bodies) <= AllReplies(srv, bodies + more)
    decreases |more|
  {
    assert forall b :: b in bodies ==> b in bodies + more;
    if more == [] {
      assert bodies + more == bodies;
    } else {
      var front, last := more[..|more| - 1], more[|more| - 1];
      assert bodies + more == (bodies + front) + [last];
      AllRepliesPrefix(srv, bodies, front);
      AllRepliesSnoc(srv, bodies + front, last);
    }
  }

  // ----- the client's view

  /** The client's loop: `n` times a length and that many bytes. */
  function DecodeResults(b: bytes, n: nat): seq<bytes>
    decreases n
  {
    if n == 0 || |b| < 4 then []
    else
      var len := FromLE32(b[..4]);
      if |b| < 4 + len then [] else [b[4..4 + len]] + DecodeResults(b[4 + len..], n - 1)
  }

  /** The results in one reply, if it is a success reply of that length. */
  function DecodeReply(reply: bytes): seq<bytes> {
    if |reply| < HEADER + 4 || reply[0] != RES || |reply| != HEADER + FromBE32(reply[4..8]) then []
    else DecodeResults(reply[HEADER + 4..], FromLE32(reply[HEADER..HEADER + 4]))
  }

  lemma {:induction false} EncodeResultsFront(r: bytes, list: seq<bytes>)
    ensures EncodeResults([r] + list) == EncodeResult(r) + EncodeResults(list)
  {
    if list == [] {
      assert ([r] + list)[..0] == [];
    } else {
      var all := [r] + list;
      assert all[..|all| - 1] == [r] + list[..|list| - 1];
      EncodeResultsFront(r, list[..|list| - 1]);
    }
  }

  ghost predicate ShortResults(list: seq<bytes>) {
    forall i :: 0 <= i < |list| ==> |list[i]| < TWO32
  }

  lemma DecodeStep(r: bytes, more: bytes, n: nat)
    requires n > 0 && |r| < TWO32
    ensures DecodeResults(EncodeResult(r) + more, n) == [r] + DecodeResults(more, n - 1)
  {
    hide LE32, FromLE32, EncodeResult, EncodeResults;
    RoundTrip32(|r|);
    EncodeResultIs(r);
    ThreeParts(LE32(|r|), r, more);
  }

  lemma EncodeResultIs(r: bytes)
    requires |r| < TWO32
    ensures EncodeResult(r) == LE32(|r|) + r
  {
  }

  lemma ThreeParts(a: bytes, b: bytes, c: bytes)
    requires |a| == 4
    ensures var s := a + b + c; |s| == 4 + |b| + |c| && s[..4] == a && s[4..4 + |b|] == b && s[4 + |b|..] == c
  {
  }

  lemma {:induction false} DecodeEncoded(list: seq<bytes>, n: nat)
    requires n <= |list| && ShortResults(list)
    ensures DecodeResults(EncodeResults(list), n) == list[..n]
    decreases n
  {
    if n == 0 {
    } else {
      var r, rest := list[0], list[1..];
      assert list == [r] + rest;
      EncodeResultsFront(r, rest);
      DecodeStep(r, EncodeResults(rest), n);
      DecodeEncoded(rest, n - 1);
    }
  }

  lemma HeaderParts(pad: bytes, status: byte, len: nat)
    requires |pad| == 2 && len < TWO32
    ensures var h := ReplyHeader(pad, status, len); h[0] == RES && h[4..8] == BE32(len)
  {
    hide BE32;
    assert len % TWO32 == len;
  }

  lemma DecodeSuccess(pad: bytes, n: nat, items: bytes, len: nat)
    requires |pad| == 2 && n < TWO32 && len == 4 + |items| < TWO32
    ensures DecodeReply(ReplyHeader(pad, 0, len) + (LE32(n) + items)) == DecodeResults(items, n)
  {
    hide LE32, BE32, FromLE32, FromBE32, ReplyHeader, DecodeResults;
    var h := ReplyHeader(pad, 0, len);
    var reply := h + (LE32(n) + items);
    HeaderParts(pad, 0, len);
    RoundTrip32(len);
    RoundTrip32(n);
    assert reply[0] == h[0] && reply[4..8] == h[4..8];
    assert reply[HEADER..HEADER + 4] == LE32(n);
    assert reply[HEADER + 4..] == items;
  }

  lemma DecodesFirst(srv: Server, body: bytes, list: seq<bytes>)
    requires 4 <= |body| && |srv.pad| == 2 && srv.get(Key(body)) == Results(list)
    requires |list| < TWO32 && ShortResults(list) && |ResultsBody(Number(body), list)| < TWO32
    ensures DecodeReply(Reply(srv, body)) == list[..Announced(Number(body), |list|)]
  {
    hide LE32, BE32, FromLE32, FromBE32, EncodeResults, ReplyHeader, DecodeReply, DecodeResults, Key;
    var n := Announced(Number(body), |list|);
    assert n % TWO32 == n;
    var b := ResultsBody(Number(body), list);
    assert b == LE32(n) + EncodeResults(list);
    DecodeSuccess(srv.pad, n, EncodeResults(list), |b|);
    DecodeEncoded(list, n);
  }

  // ----- what the bytes of a body mean

  /** A key without NUL is read as it is, up to the end of the body or the first NUL. */
  lemma {:induction false} KeyRead(k: bytes, t: bytes)
    requires NulFree(k)
    ensures CString(k) == k && CString(k + [0] + t) == k
  {
    if k == [] {
      assert ([] + [0] + t)[0] == 0;
    } else {
      KeyRead(k[1..], t);
      assert (k + [0] + t)[1..] == k[1..] + [0] + t && (k + [0] + t)[0] == k[0];
      assert k == [k[0]] + k[1..];
    }
  }

  /** The number and the key of a body, from its bytes. */
  lemma BodyRead(n0: byte, n1: byte, n2: byte, n3: byte, k: bytes, t: bytes)
    requires NulFree(k)
    ensures var head := [n0, n1, n2, n3];
            && Number(head + k) == Number(head + k + [0] + t) == n0 as int + 256 * n1 as int + 65536 * n2 as int + 16777216 * n3 as int
            && Key(head + k) == Key(head + k + [0] + t) == k
  {
    var head := [n0, n1, n2, n3];
    assert (head + k)[..4] == head && (head + k + [0] + t)[..4] == head;
    assert (head + k)[4..] == k && (head + k + [0] + t)[4..] == k + [0] + t;
    KeyRead(k, t);
  }

  lemma {:induction false} EncodeSizes(list: seq<bytes>)
    ensures 4 * |list| <= |EncodeResults(list)|
    ensures forall i :: 0 <= i < |list| ==> |list[i]| <= |EncodeResults(list)|
  {
    hide LE32;
    if list == [] {
    } else {
      EncodeSizes(list[..|list| - 1]);
    }
  }

  /** Decoding a success reply to the request for `k` with the number of these digits, the lowest
      in front, yields the results up to that number, or up to ten for the number 0. */
  lemma ClientSees(srv: Server, n0: byte, n1: byte, n2: byte, n3: byte, k: bytes, list: seq<bytes>)
    requires |srv.pad| == 2 && NulFree(k) && srv.get(k) == Results(list)
    requires |Reply(srv, [n0, n1, n2, n3] + k)| < TWO32
    ensures var n := n0 as int + 256 * n1 as int + 65536 * n2 as int + 16777216 * n3 as int;
            var w := if n == 0 then 10 else n;
            DecodeReply(Reply(srv, [n0, n1, n2, n3] + k)) == if |list| <= w then list else list[..w]
  {
    hide DecodeReply, CString, Number, Key, EncodeResults, LE32, BE32;
    BodyRead(n0, n1, n2, n3, k, []);
    EncodeSizes(list);
    DecodesFirst(srv, [n0, n1, n2, n3] + k, list);
  }
}
