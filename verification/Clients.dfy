/** The wire format from the client's side, written out in bytes: which stream a client's
    requests make, and which bytes it gets for each of them. */
module Clients {
  import opened Bytes
  import opened Frames
  import opened Replies
  import opened Sockets
  import opened Buffers
  import opened Conns
  import opened Service

  // ----- requests

  /** `m` is the requests with these bodies: for each of them the byte 0x80, three bytes of any
      value, the length of the body with the highest byte in front, and the body. */
  ghost predicate IsRequests(m: bytes, bodies: seq<bytes>)
    decreases |bodies|
  {
    if bodies == [] then m == []
    else
      var b := bodies[0];
      && 8 + |b| <= |m| && m[0] == 0x80
      && ((m[4] as int * 256 + m[5] as int) * 256 + m[6] as int) * 256 + m[7] as int == |b|
      && m[8..8 + |b|] == b
      && IsRequests(m[8 + |b|..], bodies[1..])
  }

  lemma FirstRequest(m: bytes, bodies: seq<bytes>)
    requires bodies != [] && IsRequests(m, bodies)
    ensures FrameReady(m) && BodyLen(m) == |bodies[0]| && Body(m) == bodies[0]
    ensures Beyond(m) == m[8 + |bodies[0]|..] && IsRequests(Beyond(m), bodies[1..])
  {
    BigEndian(|bodies[0]|, m[4..8]);
  }

  /** The server frames exactly these bodies. */
  lemma {:induction false} RequestsFramed(m: bytes, bodies: seq<bytes>)
    requires IsRequests(m, bodies) && forall b :: b in bodies ==> 4 <= |b| <= 1073741816
    ensures InScope(m) && FramesOf(m) == bodies
    decreases |bodies|
  {
    hide BodyLen, IsRequests, Body, Beyond;
    if bodies == [] {
      NoRequests(m);
    } else {
      FirstRequest(m, bodies);
      assert bodies == [bodies[0]] + bodies[1..];
      RequestsFramed(Beyond(m), bodies[1..]);
    }
  }

  lemma NoRequests(m: bytes)
    requires IsRequests(m, [])
    ensures m == []
  {
  }

  // ----- replies

  /** `b` is these results one after the other: the length of each with the lowest byte in front,
      and its bytes. */
  ghost predicate IsResults(b: bytes, list: seq<bytes>)
    decreases |list|
  {
    if list == [] then b == []
    else
      var r := list[0];
      && 4 + |r| <= |b| && b[0] as int + 256 * b[1] as int + 65536 * b[2] as int + 16777216 * b[3] as int == |r|
      && b[4..4 + |r|] == r
      && IsResults(b[4 + |r|..], list[1..])
  }

  lemma {:induction false} ResultsEncoded(list: seq<bytes>)
    requires ShortResults(list)
    ensures IsResults(EncodeResults(list), list)
    decreases |list|
  {
    hide LE32, EncodeResult, EncodeResults;
    if list == [] {
      EncodeNoResults();
    } else {
      var r, rest := list[0], list[1..];
      assert list == [r] + rest;
      EncodeResultsFront(r, rest);
      EncodeResultIs(r);
      LittleEndianOf(|r|);
      ThreeParts(LE32(|r|), r, EncodeResults(rest));
      ResultsEncoded(rest);
      var b := EncodeResults(list);
      assert b[..4] == LE32(|r|);
      assert b[0] == b[..4][0] && b[1] == b[..4][1] && b[2] == b[..4][2] && b[3] == b[..4][3];
    }
  }

  lemma EncodeNoResults()
    ensures EncodeResults([]) == []
  {
  }

  /** The reply to a request for `k` with the number of these digits, the lowest in front. A success
      has the bytes 0x81 and 0, the padding, the length of the rest with the highest byte in front,
      the count with the lowest byte in front, and all results; the count is the number asked
      for, or ten for 0, but no more than there are. Otherwise it has 13 bytes of text. */
  lemma ReplyTo(srv: Server, n0: byte, n1: byte, n2: byte, n3: byte, k: bytes)
    requires |srv.pad| == 2 && NulFree(k)
    requires |Reply(srv, [n0, n1, n2, n3] + k)| < TWO32
    ensures var reply, n := Reply(srv, [n0, n1, n2, n3] + k), n0 as int + 256 * n1 as int + 65536 * n2 as int + 16777216 * n3 as int;
            match srv.get(k)
            case NoResult =>
              reply == [0x81, srv.errorStatus] + srv.pad + [0, 0, 0, 13]
                       + [0x4F, 0x75, 0x74, 0x20, 0x6F, 0x66, 0x20, 0x6D, 0x65, 0x6D, 0x6F, 0x72, 0x79]
            case Results(list) =>
              var w := if n == 0 then 10 else n;
              && 12 <= |reply| && reply[0] == 0x81 && reply[1] == 0 && reply[2..4] == srv.pad
              && ((reply[4] as int * 256 + reply[5] as int) * 256 + reply[6] as int) * 256 + reply[7] as int == |reply| - 8
              && reply[8] as int + 256 * reply[9] as int + 65536 * reply[10] as int + 16777216 * reply[11] as int == (if |list| <= w then |list| else w)
              && IsResults(reply[12..], list)
  {
    hide CString, Number, Key, EncodeResults, LE32, BE32, IsResults;
    BodyRead(n0, n1, n2, n3, k, []);
    match srv.get(k) {
      case NoResult =>
        BigEndian(13, [0, 0, 0, 13]);
      case Results(list) =>
        var n := n0 as int + 256 * n1 as int + 65536 * n2 as int + 16777216 * n3 as int;
        EncodeSizes(list);
        ResultsEncoded(list);
        SuccessBytes(srv.pad, Announced(n, |list|), EncodeResults(list));
    }
  }

  lemma SuccessBytes(pad: bytes, count: nat, items: bytes)
    requires |pad| == 2 && count < TWO32 && 4 + |items| < TWO32
    ensures var b := LE32(count % TWO32) + items;
            var reply := ReplyHeader(pad, 0, |b|) + b;
            && |reply| == 12 + |items| && reply[0] == 0x81 && reply[1] == 0 && reply[2..4] == pad
            && ((reply[4] as int * 256 + reply[5] as int) * 256 + reply[6] as int) * 256 + reply[7] as int == |reply| - 8
            && reply[8] as int + 256 * reply[9] as int + 65536 * reply[10] as int + 16777216 * reply[11] as int == count
            && reply[12..] == items
  {
    hide LE32, BE32;
    var len := 4 + |items|;
    BigEndianOf(len);
    LittleEndianOf(count);
    assert count % TWO32 == count && len % TWO32 == len;
  }

  /** What follows a NUL in a body does not matter. */
  lemma ReplyUpToNul(srv: Server, n0: byte, n1: byte, n2: byte, n3: byte, k: bytes, t: bytes)
    requires |srv.pad| == 2 && NulFree(k)
    ensures Reply(srv, [n0, n1, n2, n3] + k + [0] + t) == Reply(srv, [n0, n1, n2, n3] + k)
  {
    hide CString, Number, Key, ReplyHeader, ResultsBody;
    BodyRead(n0, n1, n2, n3, k, t);
  }

  // ----- a conversation

  /** A client that sends the requests `m` with these bodies receives a prefix of the replies to
      them, one each and in order, and all of them after enough events. */
  method ServeRequests(m: bytes, bodies: seq<bytes>, srv: Server, wbuf: bytes, events: nat, reqsPerEvent: nat)
    returns (c: Conn)
    requires IsRequests(m, bodies) && forall b :: b in bodies ==> 4 <= |b| <= 1073741816
    requires |wbuf| == 2048 && srv.pad == wbuf[2..4]
    ensures c.sock.input == m && c.srv == srv && c.sock.sent <= AllReplies(srv, bodies)
    ensures 0 < reqsPerEvent && !c.sock.failed && c.sock.stalls + 2 * (|m| + |bodies|) + 1 < events
            ==> c.sock.sent == AllReplies(srv, bodies)
  {
    hide FramesOf, InScope, AllReplies, IsRequests;
    RequestsFramed(m, bodies);
    c := Serve(m, srv, wbuf, events, reqsPerEvent);
  }
}
