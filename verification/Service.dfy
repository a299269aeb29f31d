/** A client's whole conversation, over any number of events and any chunking of its
    reads and of the server's writes. */
module Service {
  import opened Bytes
  import opened Frames
  import opened Replies
  import opened Sockets
  import opened Buffers
  import opened Conns

  /** Whatever the chunking, the client has received a prefix of the replies to the
      complete requests it has sent, one per request and in order. */
  lemma ReceivedPrefix(c: Conn)
    requires c.Valid()
    ensures forall b :: b in FramesOf(c.sock.input) ==> 4 <= |b|
    ensures |c.srv.pad| == 2 && c.sock.sent <= AllReplies(c.srv, FramesOf(c.sock.input))
  {
    c.ValidMeans();
    FramesInScope(c.sock.input);
    var all := FramesOf(c.sock.input);
    var more := all[|c.handled|..];
    assert all == c.handled + more;
    AllRepliesPrefix(c.srv, c.handled, more);
  }

  /** Once a client has all its replies it keeps them. */
  lemma StaysServed(c: Conn, sent: bytes)
    requires c.Valid() && sent <= c.sock.sent
    requires |c.srv.pad| == 2 && forall b :: b in FramesOf(c.sock.input) ==> 4 <= |b|
    requires sent == AllReplies(c.srv, FramesOf(c.sock.input))
    ensures c.Served()
  {
    ReceivedPrefix(c);
  }

  /** How far a connection can get. */
  lemma AdvanceBound(c: Conn)
    requires c.Valid()
    ensures c.Advance() <= 2 * (|c.sock.input| + |FramesOf(c.sock.input)|) + 1
  {
    c.ValidMeans();
  }

  /** Runs a fresh connection for `events` events on a client that sends `input`. Safety: what
      the client receives is a prefix of its replies. Progress: unless the socket fails, it
      has received all of them after a number of events that exceeds the times the socket has
      stalled by a bound on its stream; provided that an event may handle a request at all. */
  method Serve(input: bytes, srv: Server, wbuf: bytes, events: nat, reqsPerEvent: nat) returns (c: Conn)
    requires InScope(input) && |wbuf| == DATA_BUFFER_SIZE && srv.pad == wbuf[2..4]
    ensures c.Valid() && c.sock.input == input && c.srv == srv
    ensures c.handled <= FramesOf(input) && |c.handled| <= events * (reqsPerEvent + 1)
    ensures (forall b :: b in FramesOf(input) ==> 4 <= |b|) && c.sock.sent <= AllReplies(srv, FramesOf(input))
    ensures 0 < reqsPerEvent && !c.sock.failed
            && c.sock.stalls + 2 * (|input| + |FramesOf(input)|) + 1 < events
            ==> c.sock.sent == AllReplies(srv, FramesOf(input))
    ensures reqsPerEvent == 0 ==> c.sock.sent == [] && c.handled == []
  {
    hide InScope, AllReplies, FramesOf, Conn.Valid, Conn.Served, Conn.Advance;
    var sock := new Socket(input);
    c := new Conn(sock, srv, wbuf);
    c.FreshValid();
    assert 0 * (reqsPerEvent + 1) == 0;
    for i := 0 to events
      invariant c.Valid() && c.sock == sock && c.srv == srv && fresh(c) && fresh(sock)
      invariant |c.handled| <= i * (reqsPerEvent + 1)
      invariant 0 < reqsPerEvent && !sock.failed ==> c.Served() || i <= sock.stalls + c.Advance()
      invariant reqsPerEvent == 0 ==>
        (c.state == NewCmd || c.state == Closing) && c.handled == [] && sock.sent == []
    {
      ghost var sent, served := sock.sent, c.Served();
      ServedMeans(c);
      c.DriveMachine(reqsPerEvent);
      if served {
        StaysServed(c, sent);
      }
      assert (i + 1) * (reqsPerEvent + 1) == i * (reqsPerEvent + 1) + reqsPerEvent + 1;
    }
    c.ValidMeans();
    ReceivedPrefix(c);
    AdvanceBound(c);
    ServedMeans(c);
  }

  lemma ServedMeans(c: Conn)
    ensures c.Served() ==>
      && |c.srv.pad| == 2 && (forall b :: b in FramesOf(c.sock.input) ==> 4 <= |b|)
      && c.sock.sent == AllReplies(c.srv, FramesOf(c.sock.input))
  {
  }

  /** All accesses stay in the buffer, whose size stays an `int`. */
  lemma BufferBounds(c: Conn)
    requires c.Valid()
    ensures c.rcurr + c.rbytes <= |c.rbuf| <= 0x4000_0000
    ensures c.state.NRead? ==> c.ritem == c.rcurr && c.ritem + c.rlbytes <= |c.rbuf|
  {
    SizeOfTop();
    DoubledMore(|c.rbuf|, TOP, TOP);
  }

  /** The limit on bodies is exact: a doubled size that holds header and body is an `int`
      for just those bodies. */
  lemma MaxBodyExact(body: nat)
    ensures (exists k: nat :: HEADER + body <= SizeOf(k) < 0x8000_0000) <==> body <= MAX_BODY
  {
    SizeOfTop();
    if body <= MAX_BODY {
      assert HEADER + body <= SizeOf(TOP) < 0x8000_0000;
    }
    if k: nat :| HEADER + body <= SizeOf(k) < 0x8000_0000 {
      if k <= TOP {
        SizeOfMonotone(k, TOP);
      } else {
        SizeOfMonotone(TOP, k);
      }
    }
  }
}
