/** `struct conn` and the functions that drive it: requests framed out of a growing,
    shifting, shrinking read buffer, replies sent through a list of gathered slices. */
module Conns {
  import opened Bytes
  import opened Frames
  import opened Replies
  import opened Sockets
  import opened ScatterGather
  import opened Buffers

  const MSG_LIST_INITIAL: nat := 10
  const MSG_LIST_HIGHWAT: nat := 100
  const IOV_LIST_INITIAL: nat := 400
  const IOV_LIST_HIGHWAT: nat := 600

  datatype ConnState = NewCmd | Waiting | Read | ParseCmd | NRead | MWrite | Closing

  datatype ReadResult = NoDataReceived | DataReceived | ReadError

  datatype TransmitResult = Complete | Incomplete | SoftError | HardError

  /** The size doubled until it is at least `size`; the result is an `int` exactly when a body
      within scope asked for it. */
  method GrownSize(rsize: nat, size: nat) returns (nsize: nat)
    requires Doubled(rsize, TOP)
    ensures rsize <= nsize && size <= nsize && (nsize == rsize || nsize < 2 * size)
    ensures size <= MAX_BODY + HEADER ==> Doubled(nsize, TOP)
    ensures nsize < 0x8000_0000 <==> size <= MAX_BODY + HEADER
  {
    hide SizeOf;
    nsize := rsize;
    SizeOfTop();
    DoubledMore(rsize, TOP, TOP);
    ghost var k: nat :| k <= TOP && SizeOf(k) == rsize;
    while size > nsize
      invariant SizeOf(k) == nsize && rsize <= nsize && 0 < nsize
      invariant nsize == rsize || nsize < 2 * size
      decreases size - nsize
    {
      NextSize(k);
      k := k + 1;
      nsize := nsize * 2;
    }
    if k <= TOP {
      SizeOfMonotone(k, TOP);
    } else {
      SizeOfMonotone(TOP, k);
    }
  }

  class Conn {
    const sock: Socket
    const srv: Server
    var state: ConnState
    var rbuf: bytes
    var rcurr: nat
    var rbytes: nat
    var ritem: nat
    var rlbytes: nat
    var bodylen: nat
    var wbuf: bytes
    var writeAndFree: bool
    var iov: seq<IoVec>
    var iovBlock: nat
    var iovUsed: nat
    var msgs: seq<Msg>
    var msgUsed: nat
    var msgCurr: nat
    var msgBytes: nat
    ghost var head: bytes
    ghost var handled: seq<bytes>

    /** A fresh connection, `conn_new`; what the write buffer happens to hold stays in the
        padding of every reply. */
    constructor (sock: Socket, srv: Server, wbuf: bytes)
      requires |wbuf| == DATA_BUFFER_SIZE && srv.pad == wbuf[2..4]
      ensures this.sock == sock && this.srv == srv && this.wbuf == wbuf && state == NewCmd
      ensures |rbuf| == DATA_BUFFER_SIZE && rcurr == 0 && rbytes == 0 && handled == [] && !writeAndFree
      ensures |iov| == IOV_LIST_INITIAL && |msgs| == MSG_LIST_INITIAL
    {
      this.sock, this.srv, this.wbuf := sock, srv, wbuf;
      state := NewCmd;
      var buffer := Garbage(DATA_BUFFER_SIZE);
      rbuf := buffer;
      rcurr, rbytes, ritem, rlbytes, bodylen := 0, 0, 0, 0, 0;
      writeAndFree := false;
      iov := seq(IOV_LIST_INITIAL, _ => IoVec([]));
      msgs := seq(MSG_LIST_INITIAL, _ => Msg(0, 0, 0));
      iovBlock, iovUsed, msgUsed, msgCurr, msgBytes := 0, 0, 0, 0, 0;
      head, handled := [], [];
    }

    // ----- the output list

    ghost function Out(): (o: Out)
      reads this`iov, this`iovBlock, this`iovUsed, this`msgs, this`msgUsed, this`msgCurr, this`msgBytes
      ensures o.iov == iov && o.block == iovBlock && o.iovUsed == iovUsed && o.msgs == msgs
      ensures o.msgUsed == msgUsed && o.msgCurr == msgCurr && o.msgBytes == msgBytes
    {
      MakeOut(iov, iovBlock, iovUsed, msgs, msgUsed, msgCurr, msgBytes)
    }

    method AddMsghdr()
      requires msgUsed <= |msgs| && 0 < |msgs|
      modifies this`msgs, this`msgUsed, this`msgBytes
      ensures StartsMessage(old(Out()), Out())
    {
      if |msgs| == msgUsed {
        msgs := msgs + seq(|msgs|, _ => Msg(0, 0, 0));
      }
      msgs := msgs[msgUsed := Msg(iovBlock, iovUsed, 0)];
      msgBytes := 0;
      msgUsed := msgUsed + 1;
    }

    /** Room for one more slice; after a reallocation the messages point into the new array. */
    method EnsureIovSpace()
      requires Building(Out())
      modifies this`iov, this`iovBlock, this`msgs
      ensures Building(Out()) && iovUsed < |iov|
      ensures Content(Out()) == old(Content(Out()))
      ensures |msgs| == |old(msgs)| && forall i :: 0 <= i < msgUsed ==> msgs[i].len == old(msgs)[i].len
      ensures iov[..iovUsed] == old(iov)[..iovUsed]
    {
      hide Building;
      BuildingFacts(Out());
      if iovUsed >= |iov| {
        ghost var o := Out();
        iov := iov + seq(|iov|, _ => IoVec([]));
        iovBlock := iovBlock + 1;
        var iovnum: nat := 0;
        assert iov[..iovUsed] == o.iov[..iovUsed];
        for i := 0 to msgUsed
          invariant 0 <= iovnum && |iov| == 2 * |o.iov| && Repointed(o, Out(), i, iovnum)
        {
          ghost var before := Out();
          msgs := msgs[i := msgs[i].(block := iovBlock, start := iovnum)];
          RepointStep(o, before, Out(), i, iovnum);
          iovnum := iovnum + msgs[i].len;
        }
        RepointBuilds(o, Out(), iovnum);
      }
    }

    /** Adds `buf` to the pending output, cut so that the first message stays within its limit. */
    method AddIov(buf: bytes)
      requires Building(Out())
      modifies this`iov, this`iovBlock, this`iovUsed, this`msgs, this`msgUsed, this`msgBytes
      ensures Building(Out()) && Content(Out()) == old(Content(Out())) + buf
      ensures 0 < msgUsed <= |msgs| && forall i :: 0 <= i < msgUsed ==> msgs[i].len <= 1024
      ensures msgs[0].start == 0 && msgs[0].len <= |iov| && |Flat(iov[..msgs[0].len])| <= 1400
      ensures buf != [] && old(AlmostFilled(Out())) ==> Filled(Out())
    {
      hide Building, Content, AlmostFilled, Filled;
      ghost var start, almost := Content(Out()), AlmostFilled(Out());
      var leftover := AddSlice(buf);
      var rest := buf[|buf| - leftover..];
      while leftover > 0
        invariant |rest| == leftover && Building(Out()) && Content(Out()) + rest == start + buf
        invariant buf != [] && almost ==> Filled(Out()) && AlmostFilled(Out())
      {
        leftover := AddSlice(rest);
        rest := rest[|rest| - leftover..];
      }
      assert rest == [];
      MessageLimits(Out());
    }

    /** A message with room in it, and an array with room in it. */
    method PrepareSlice() returns (limitToMtu: bool)
      requires Building(Out())
      modifies this`iov, this`iovBlock, this`msgs, this`msgUsed, this`msgBytes
      ensures Building(Out()) && Content(Out()) == old(Content(Out()))
      ensures 0 < msgUsed <= |msgs| && msgs[msgUsed - 1].len < IOV_MAX && iovUsed < |iov|
      ensures limitToMtu ==> msgBytes < UDP_MAX_PAYLOAD
      ensures msgUsed == 1 ==> limitToMtu
      ensures old(AlmostFilled(Out())) ==> AlmostFilled(Out())
    {
      hide Building, Content, AlmostFilled, Filled;
      ghost var o := Out();
      BuildingFacts(o);
      limitToMtu := 1 == msgUsed;
      if msgs[msgUsed - 1].len == IOV_MAX || (limitToMtu && msgBytes >= UDP_MAX_PAYLOAD) {
        AddMsghdr();
        StartBuilds(o, Out());
        StartAlmost(o, Out());
      }
      ghost var p := Out();
      BuildingFacts(p);
      EnsureIovSpace();
      AlmostSame(p, Out());
    }

    /** One turn of the loop of `add_iov`: puts the first part of `rest` in a slice and
        returns how much is left over. */
    method AddSlice(rest: bytes) returns (leftover: nat)
      requires Building(Out())
      modifies this`iov, this`iovBlock, this`iovUsed, this`msgs, this`msgUsed, this`msgBytes
      ensures leftover <= |rest| && (leftover > 0 ==> leftover < |rest|)
      ensures Building(Out()) && Content(Out()) + rest[|rest| - leftover..] == old(Content(Out())) + rest
      ensures rest != [] && old(AlmostFilled(Out())) ==> Filled(Out()) && AlmostFilled(Out())
    {
      hide Building, Content, AlmostFilled, Filled;
      var limitToMtu := PrepareSlice();
      ghost var q := Out();
      BuildingFacts(q);
      leftover := 0;
      if limitToMtu && |rest| + msgBytes > UDP_MAX_PAYLOAD {
        leftover := |rest| + msgBytes - UDP_MAX_PAYLOAD;
      }
      var len := |rest| - leftover;
      var m := msgs[msgUsed - 1];
      assert m.block == iovBlock && m.start + m.len == iovUsed;
      iov := iov[m.start + m.len := IoVec(rest[..len])];
      msgBytes := msgBytes + len;
      iovUsed := iovUsed + 1;
      msgs := msgs[msgUsed - 1 := m.(len := m.len + 1)];
      assert rest == rest[..len] + rest[len..];
      AppendBuilds(q, Out(), IoVec(rest[..len]));
      AppendFills(q, Out(), IoVec(rest[..len]));
    }

    // ----- the invariant of a connection

    ghost function Received(): bytes
      requires sock.taken <= |sock.input|
      reads sock`taken
    {
      sock.input[..sock.taken]
    }

    /** What is in the read buffer and not parsed yet. */
    function Buffered(): bytes
      requires rcurr + rbytes <= |rbuf|
      reads this`rbuf, this`rcurr, this`rbytes
    {
      rbuf[rcurr..rcurr + rbytes]
    }

    ghost predicate Base()
      reads this, sock`taken
    {
      && |wbuf| == DATA_BUFFER_SIZE && |srv.pad| == 2 && srv.pad == wbuf[2..4]
      && 0 < |msgs| && 0 < |iov|
      && sock.taken <= |sock.input| && InScope(sock.input)
      && Doubled(|rbuf|, TOP) && rcurr + rbytes <= |rbuf|
      && (forall b :: b in handled ==> 4 <= |b|)
    }

    /** Everything received is the requests handed on and then what is buffered. */
    ghost predicate Synced()
      requires sock.taken <= |sock.input| && rcurr + rbytes <= |rbuf|
      reads this`rbuf, this`rcurr, this`rbytes, this`handled, sock`taken
    {
      Split(Received(), handled, Buffered())
    }

    /** Every request handed on has been answered in full. */
    ghost predicate Answered()
      requires |srv.pad| == 2 && forall b :: b in handled ==> 4 <= |b|
      reads this`handled, sock`sent
    {
      sock.sent == AllReplies(srv, handled)
    }

    /** Where the part of the body that is already there begins. */
    ghost predicate InBody()
      requires sock.taken <= |sock.input| && rcurr + rbytes <= |rbuf|
      reads this`rbuf, this`rcurr, this`rbytes, this`ritem, this`rlbytes, this`bodylen, this`head, this`handled, sock`taken
    {
      && |head| == HEADER && head[0] == REQ && BodyLen(head) == bodylen && 4 <= bodylen <= MAX_BODY
      && ritem == rcurr && rlbytes <= bodylen <= ritem + rlbytes <= |rbuf|
      && Split(Received(), handled, head + rbuf[ritem - (bodylen - rlbytes)..ritem] + Buffered())
    }

    ghost predicate Valid()
      reads this, sock
    {
      && Base()
      && match state
         case NewCmd => Synced() && Answered()
         case Waiting => Synced() && Answered() && rbytes < HEADER && Doubled(|rbuf|, 2)
         case Read => Synced() && Answered() && rbytes < HEADER && Doubled(|rbuf|, 2)
         case ParseCmd => Synced() && Answered() && 0 < rbytes && (rbytes < HEADER ==> Doubled(|rbuf|, 2))
         case NRead => InBody() && Answered()
         case MWrite => Synced() && Sending(Out()) && sock.sent + Pending(Out()) == AllReplies(srv, handled)
         case Closing => Broken()
    }

    /** What is left of the invariant when the connection is given up: the socket has failed, or
        every request before a header with another magic byte has been answered in full. */
    ghost predicate Broken()
      requires sock.taken <= |sock.input| && |srv.pad| == 2 && forall b :: b in handled ==> 4 <= |b|
      reads this`handled, sock
    {
      && (exists rest :: Split(Received(), handled, rest) && (sock.failed || (BadMagic(rest) && Answered())))
      && sock.sent <= AllReplies(srv, handled)
    }

    lemma GivenUp(rest: bytes)
      requires Base() && Split(Received(), handled, rest) && Answered() && (sock.failed || BadMagic(rest))
      ensures Broken()
    {
    }

    /** Giving up with part of a reply pending. */
    lemma BrokenOff()
      requires Base() && Synced() && Sending(Out()) && sock.sent + Pending(Out()) == AllReplies(srv, handled)
      ensures sock.failed ==> Broken()
      ensures Pending(Out()) == [] ==> Answered()
    {
      hide Split, InScope, Doubled, AllReplies, Sending, Pending, Buffered, Received;
      assert Split(Received(), handled, Buffered());
      assert sock.sent + [] == sock.sent;
    }

    /** A new connection on a socket that nothing was read from or written to. */
    lemma FreshValid()
      requires state == NewCmd && |wbuf| == DATA_BUFFER_SIZE && srv.pad == wbuf[2..4] && 0 < |msgs| && 0 < |iov|
      requires |rbuf| == DATA_BUFFER_SIZE && rcurr == 0 && rbytes == 0 && handled == []
      requires sock.taken == 0 && sock.sent == [] && InScope(sock.input)
      ensures Valid()
    {
      assert SizeOf(0) == 2048;
    }

    /** What a connection's invariant promises, in any state: the requests handed on are the
        first frames of the client's stream, and the client has received a prefix of their
        replies, in order. */
    lemma ValidMeans()
      requires Valid()
      ensures handled <= FramesOf(sock.input)
      ensures sock.sent <= AllReplies(srv, handled)
      ensures state.Waiting? || state.Read? ==> handled == FramesOf(Received()) && sock.sent == AllReplies(srv, handled)
      ensures state.NRead? && rbytes == 0 && 0 < rlbytes ==>
                handled == FramesOf(Received()) && sock.sent == AllReplies(srv, handled)
      ensures state.Closing? && !sock.failed ==> handled == FramesOf(sock.input) && sock.sent == AllReplies(srv, handled)
    {
      hide InScope, Sending, Doubled, AllReplies, FramesOf;
      var rest;
      if state.Closing? {
        rest :| Split(Received(), handled, rest) && (sock.failed || (BadMagic(rest) && Answered()));
        if BadMagic(rest) {
          BadMagicEnds(sock.input, Received(), handled, rest);
        }
      } else if state.NRead? {
        rest := head + rbuf[ritem - (bodylen - rlbytes)..ritem] + Buffered();
        if rbytes == 0 && 0 < rlbytes {
          var part := rbuf[ritem - (bodylen - rlbytes)..ritem];
          assert rest == head + part;
          PartEnds(Received(), handled, head, part);
        }
      } else {
        rest := Buffered();
      }
      SplitMeans(sock.input, Received(), handled, rest);
    }

    // ----- reading from the network

    /** Moves what is buffered to the front. */
    method Compact()
      requires rcurr + rbytes <= |rbuf| && sock.taken <= |sock.input| && Synced()
      modifies this`rbuf, this`rcurr
      ensures rcurr == 0 && |rbuf| == old(|rbuf|) && rbytes <= |rbuf| && Buffered() == old(Buffered())
      ensures Synced()
    {
      if rcurr != 0 {
        if rbytes != 0 {
          rbuf := rbuf[rcurr..rcurr + rbytes] + rbuf[rbytes..];
        }
        rcurr := 0;
      }
    }

    /** Doubles the buffer. */
    method Grow()
      requires rcurr == 0 && rbytes <= |rbuf| && sock.taken <= |sock.input| && Synced()
      modifies this`rbuf
      ensures |rbuf| == 2 * old(|rbuf|) && Buffered() == old(Buffered())
      ensures Synced()
    {
      var more := Garbage(|rbuf|);
      rbuf := rbuf + more;
    }

    /** One read behind what is buffered. */
    method Fill() returns (res: IoResult)
      requires rcurr == 0 && rbytes < |rbuf| && sock.taken <= |sock.input| && Synced()
      modifies this`rbuf, this`rbytes, sock`taken, sock`failed, sock`blocked, sock`stalls
      ensures |rbuf| == old(|rbuf|) && rbytes <= |rbuf| && sock.taken <= |sock.input| && Synced()
      ensures rbytes == old(rbytes) + if res.Moved? then res.count else 0
      ensures sock.taken == old(sock.taken) + if res.Moved? then res.count else 0
      ensures res.Moved? ==> 0 < res.count
      ensures sock.failed == (old(sock.failed) || res.EndOfStream? || res.Failed?) && sock.blocked == res.WouldBlock?
      ensures sock.stalls == old(sock.stalls) + if res.WouldBlock? && sock.taken < |sock.input| then 1 else 0
    {
      hide Split;
      ghost var before, had := Received(), Buffered();
      var avail := |rbuf| - rbytes;
      var data;
      res, data := sock.Read(avail);
      assert Received() == before + data;
      if res.Moved? {
        rbuf := rbuf[..rbytes] + data + rbuf[rbytes + |data|..];
        rbytes := rbytes + res.count;
      }
      assert Buffered() == had + data;
      SplitExtends(before, handled, had, data);
    }

    /** A call has blocked since there were `stalls` of them, or there is nothing more to read. */
    ghost predicate HeldUp(stalls: nat)
      reads sock`stalls, sock`taken
    {
      stalls < sock.stalls || sock.taken == |sock.input|
    }

    /** Compacts the buffer and reads as much as there is, growing it at most four times. */
    method TryReadNetwork() returns (gotdata: ReadResult)
      requires Base() && Synced() && rbytes < HEADER && Doubled(|rbuf|, 2)
      modifies this`rbuf, this`rcurr, this`rbytes, sock`taken, sock`failed, sock`blocked, sock`stalls
      ensures Base() && Synced() && |rbuf| <= 16 * |old(rbuf)|
      ensures gotdata.NoDataReceived? ==> rbytes < HEADER && Doubled(|rbuf|, 2) && sock.blocked
      ensures gotdata.NoDataReceived? ==> sock.taken == old(sock.taken) && HeldUp(old(sock.stalls))
      ensures old(sock.stalls) <= sock.stalls && old(sock.taken) <= sock.taken
      ensures gotdata.DataReceived? ==>
        old(sock.taken) < sock.taken && 0 < rbytes && (rbytes < HEADER ==> Doubled(|rbuf|, 2))
      ensures gotdata.ReadError? ==> sock.failed
      ensures old(sock.failed) ==> sock.failed
    {
      hide Split, InScope, Doubled, Synced, Buffered, Received, SizeOf;
      gotdata := NoDataReceived;
      var numAllocs := 0;
      Compact();
      DoubledMore(|rbuf|, 2, 2);
      while true
        invariant rcurr == 0 && rbytes <= |rbuf| && numAllocs <= 4 && Doubled(|rbuf|, 2 + numAllocs)
        invariant |rbuf| == Doublings(|old(rbuf)|, numAllocs) <= 16 * |old(rbuf)|
        invariant sock.taken <= |sock.input| && Synced()
        invariant gotdata.NoDataReceived? ==> rbytes < HEADER && numAllocs == 0 && sock.taken == old(sock.taken)
        invariant gotdata.DataReceived? ==> 0 < rbytes && old(sock.taken) < sock.taken
        invariant old(sock.stalls) <= sock.stalls && old(sock.taken) <= sock.taken
        invariant old(sock.failed) ==> sock.failed
        invariant !gotdata.ReadError? && (0 < numAllocs ==> HEADER <= rbytes) && 2048 <= |rbuf|
        decreases 4 - numAllocs, |rbuf| - rbytes
      {
        DoubledMore(|rbuf|, 2 + numAllocs, TOP);
        if rbytes >= |rbuf| {
          if numAllocs == 4 {
            return gotdata;
          }
          numAllocs := numAllocs + 1;
          DoubleOnce(|rbuf|, 1 + numAllocs);
          Grow();
          DoubledMore(|rbuf|, 2 + numAllocs, TOP);
          FewDoublings(|old(rbuf)|, numAllocs);
        }
        var avail := |rbuf| - rbytes;
        var res := Fill();
        if res.Moved? {
          gotdata := DataReceived;
          if res.count == avail {
            continue;
          } else {
            break;
          }
        }
        if res.EndOfStream? {
          return ReadError;
        }
        if res.WouldBlock? {
          break;
        }
        return ReadError;
      }
    }

    method StepRead()
      requires Valid() && state == Read
      modifies this`state, this`rbuf, this`rcurr, this`rbytes, sock`taken, sock`failed, sock`blocked, sock`stalls
      ensures Valid() && (state == Waiting || state == ParseCmd || state == Closing)
      ensures state == Waiting ==> sock.blocked && HeldUp(old(sock.stalls)) && sock.taken == old(sock.taken)
      ensures old(sock.stalls) <= sock.stalls && old(sock.taken) <= sock.taken
      ensures state == ParseCmd ==> old(sock.taken) < sock.taken
      ensures state == Closing ==> sock.failed
      ensures old(sock.failed) ==> sock.failed
    {
      hide Split, InScope, Doubled, AllReplies, SizeOf, Sending, Pending;
      var res := TryReadNetwork();
      match res {
        case NoDataReceived => state := Waiting;
        case DataReceived => state := ParseCmd;
        case ReadError =>
          GivenUp(Buffered());
          state := Closing;
      }
    }

    // ----- between requests

    /** Gives back memory that a large request or reply took. */
    method Shrink()
      requires Base() && Synced()
      modifies this`rbuf, this`rcurr, this`msgs, this`iov
      ensures Base() && Synced()
      ensures rbytes < 2048 ==> Doubled(|rbuf|, 2)
      ensures rbytes < 2048 ==> |rbuf| == if |old(rbuf)| > 8192 then 2048 else |old(rbuf)|
      ensures rbytes >= 2048 ==> |rbuf| == |old(rbuf)|
      ensures |msgs| == if |old(msgs)| > 100 then 10 else |old(msgs)|
      ensures |iov| == if |old(iov)| > 600 then 400 else |old(iov)|
    {
      hide Split, InScope, Doubled;
      if |rbuf| > READ_BUFFER_HIGHWAT && rbytes < DATA_BUFFER_SIZE {
        Compact();
        assert rbuf[..DATA_BUFFER_SIZE][0..rbytes] == rbuf[0..rbytes];
        rbuf := rbuf[..DATA_BUFFER_SIZE];
        InitialSize(|rbuf|);
      } else if |rbuf| <= READ_BUFFER_HIGHWAT {
        DoubledSmall(|rbuf|, TOP);
      }
      if |msgs| > MSG_LIST_HIGHWAT {
        msgs := msgs[..MSG_LIST_INITIAL];
      }
      if |iov| > IOV_LIST_HIGHWAT {
        iov := iov[..IOV_LIST_INITIAL];
      }
    }

    method ResetCmdHandler()
      requires Valid() && state == NewCmd
      modifies this`state, this`rbuf, this`rcurr, this`msgs, this`iov
      ensures Valid() && state == if rbytes > 0 then ParseCmd else Waiting
    {
      hide Split, InScope, Doubled, Synced, Answered, Buffered, Received, AllReplies, SizeOf;
      Shrink();
      if rbytes > 0 {
        state := ParseCmd;
      } else {
        state := Waiting;
      }
    }

    // ----- parsing a header

    /** Makes room for the body behind the header at `rcurr`, and points `ritem` there. */
    method BinReadKey()
      requires Doubled(|rbuf|, TOP) && rcurr + rbytes <= |rbuf| && HEADER <= rbytes && bodylen <= MAX_BODY
      modifies this`rbuf, this`rcurr, this`ritem, this`rlbytes, this`state
      ensures Doubled(|rbuf|, TOP) && rcurr + rbytes <= |rbuf| && Buffered() == old(Buffered())
      ensures rcurr + HEADER + bodylen <= |rbuf|
      ensures ritem == rcurr + HEADER && rlbytes == bodylen && state == NRead
    {
      hide Doubled, SizeOf;
      rlbytes := bodylen;
      var offset := rcurr + HEADER;
      if rlbytes + offset > |rbuf| {
        var size := rlbytes + HEADER;
        var nsize := GrownSize(|rbuf|, size);
        if nsize != |rbuf| {
          var more := Garbage(nsize - |rbuf|);
          assert (rbuf + more)[rcurr..rcurr + rbytes] == rbuf[rcurr..rcurr + rbytes];
          rbuf := rbuf + more;
        }
        if rcurr != 0 {
          rbuf := rbuf[rcurr..rcurr + rbytes] + rbuf[rbytes..];
          rcurr := 0;
        }
      }
      ritem := rcurr + HEADER;
      state := NRead;
    }

    /** Takes a request header off the buffer; 0 when it is not complete yet. */
    method TryReadCommand() returns (r: int)
      requires Valid() && state == ParseCmd
      modifies this`state, this`rbuf, this`rcurr, this`rbytes, this`ritem, this`rlbytes, this`bodylen, this`head,
               this`msgs, this`msgUsed, this`msgCurr, this`msgBytes, this`iovUsed
      ensures r == 0 <==> old(rbytes) < HEADER
      ensures r == 0 ==> Valid() && state == ParseCmd && rbytes < HEADER
      ensures r != 0 ==> Valid() && if old(Buffered()[0]) == REQ then state == NRead else state == Closing
    {
      hide Split, Doubled, InScope, AllReplies;
      if rbytes < HEADER {
        return 0;
      }
      if rbuf[rcurr] != REQ {
        GivenUp(Buffered());
        state := Closing;
        return -1;
      }
      TakeHeader();
      BeginBody();
      return 1;
    }

    /** Copies the header; its length is within scope. */
    method TakeHeader()
      requires Base() && Synced() && HEADER <= rbytes && rbuf[rcurr] == REQ
      modifies this`head, this`bodylen
      ensures |head| == HEADER && head[0] == REQ && BodyLen(head) == bodylen && 4 <= bodylen <= MAX_BODY
      ensures head == rbuf[rcurr..rcurr + HEADER]
    {
      hide Split, Doubled, InScope;
      head := rbuf[rcurr..rcurr + HEADER];
      bodylen := FromBE32(rbuf[rcurr + 4..rcurr + 8]);
      HeaderSlices(rbuf, rcurr, rbytes);
      assert Received() <= sock.input;
      HeaderInScope(sock.input, Received(), handled, Buffered());
    }

    /** Resets the output list and moves past the header. */
    method BeginBody()
      requires Base() && Synced() && HEADER <= rbytes
      requires |head| == HEADER && head[0] == REQ && BodyLen(head) == bodylen && 4 <= bodylen <= MAX_BODY
      requires head == rbuf[rcurr..rcurr + HEADER]
      modifies this`state, this`rbuf, this`rcurr, this`rbytes, this`ritem, this`rlbytes,
               this`msgs, this`msgUsed, this`msgCurr, this`msgBytes, this`iovUsed
      ensures Base() && InBody() && state == NRead
    {
      hide Split, Doubled, InScope, BodyLen, SizeOf;
      ghost var buffered := Buffered();
      assert head == buffered[..HEADER];
      msgCurr, msgUsed, iovUsed := 0, 0, 0;
      AddMsghdr();
      BinReadKey();
      rbytes := rbytes - HEADER;
      rcurr := rcurr + HEADER;
      assert Buffered() == buffered[HEADER..];
      assert buffered == head + rbuf[ritem..ritem] + Buffered();
    }

    method StepParseCmd()
      requires Valid() && state == ParseCmd
      modifies this`state, this`rbuf, this`rcurr, this`rbytes, this`ritem, this`rlbytes, this`bodylen, this`head,
               this`msgs, this`msgUsed, this`msgCurr, this`msgBytes, this`iovUsed
      ensures Valid()
      ensures state == if old(rbytes) < HEADER then Waiting else if old(Buffered()[0]) == REQ then NRead else Closing
    {
      hide Split, Doubled, InScope, AllReplies;
      var r := TryReadCommand();
      if r == 0 {
        state := Waiting;
      }
    }

    // ----- reading a body

    /** Takes what is already buffered of the body. */
    method TakeBuffered()
      requires Base() && InBody() && 0 < rbytes && 0 < rlbytes
      modifies this`ritem, this`rcurr, this`rlbytes, this`rbytes
      ensures Base() && InBody() && rlbytes < old(rlbytes) && (rlbytes == 0 || rbytes == 0)
    {
      hide Split, Doubled, InScope;
      var tocopy := if rbytes > rlbytes then rlbytes else rbytes;
      ghost var got := rbuf[ritem - (bodylen - rlbytes)..ritem];
      ghost var had := Buffered();
      assert rbuf[ritem - (bodylen - rlbytes)..ritem + tocopy] == got + had[..tocopy];
      assert rbuf[rcurr + tocopy..rcurr + rbytes] == had[tocopy..];
      assert head + got + had == head + (got + had[..tocopy]) + had[tocopy..];
      ritem := ritem + tocopy;
      rlbytes := rlbytes - tocopy;
      rcurr := rcurr + tocopy;
      rbytes := rbytes - tocopy;
    }

    /** Reads more of the body, straight to its place. */
    method ReadBody() returns (res: IoResult)
      requires Base() && InBody() && rbytes == 0 && 0 < rlbytes
      modifies this`rbuf, this`ritem, this`rcurr, this`rlbytes, sock`taken, sock`failed, sock`blocked, sock`stalls
      ensures Base() && InBody() && (res.Moved? ==> rlbytes < old(rlbytes)) && (!res.Moved? ==> rlbytes == old(rlbytes))
      ensures sock.failed == (old(sock.failed) || res.EndOfStream? || res.Failed?) && sock.blocked == res.WouldBlock?
      ensures sock.stalls == old(sock.stalls) + if res.WouldBlock? && sock.taken < |sock.input| then 1 else 0
      ensures old(sock.taken) <= sock.taken
    {
      hide Split, Doubled, InScope, BodyLen, SizeOf, Buffered;
      NoneBuffered();
      ghost var from := ritem - (bodylen - rlbytes);
      ghost var got, received := rbuf[from..ritem], Received();
      var data;
      res, data := sock.Read(rlbytes);
      assert Received() == received + data;
      SplitExtends(received, handled, head + got + [], data);
      BehindHead(head, got, data);
      if res.Moved? {
        Spliced(rbuf, from, ritem, data);
        hide Received;
        rbuf := rbuf[..ritem] + data + rbuf[ritem + |data|..];
        if rcurr == ritem {
          rcurr := rcurr + res.count;
        }
        ritem := ritem + res.count;
        rlbytes := rlbytes - res.count;
      }
      NoneBuffered();
    }

    lemma NoneBuffered()
      requires rbytes == 0 && rcurr <= |rbuf|
      ensures Buffered() == []
    {
    }

    // ----- replies

    /** Starts the output list with the reply header, built in the write buffer. */
    method AddBinHeader(status: byte, bodyLen: nat)
      requires |wbuf| == DATA_BUFFER_SIZE && |srv.pad| == 2 && srv.pad == wbuf[2..4] && 0 < |msgs| && 0 < |iov|
      modifies this`wbuf, this`iov, this`iovBlock, this`iovUsed, this`msgs, this`msgUsed, this`msgCurr, this`msgBytes
      ensures |wbuf| == DATA_BUFFER_SIZE && srv.pad == wbuf[2..4]
      ensures Filled(Out()) && Content(Out()) == ReplyHeader(srv.pad, status, bodyLen)
    {
      hide Filled, AlmostFilled, Building, Content, BE32;
      msgCurr, msgUsed, iovUsed := 0, 0, 0;
      ghost var o := Out();
      AddMsghdr();
      FreshBuilds(o, Out());
      FreshAlmost(o, Out());
      wbuf := [RES, status] + wbuf[2..4] + BE32(bodyLen % TWO32) + wbuf[8..];
      assert wbuf[..8] == ReplyHeader(srv.pad, status, bodyLen);
      AddIov(wbuf[..8]);
    }

    method WriteBinError(err: bytes, status: byte)
      requires |wbuf| == DATA_BUFFER_SIZE && |srv.pad| == 2 && srv.pad == wbuf[2..4] && 0 < |msgs| && 0 < |iov|
      requires err != []
      modifies this`wbuf, this`iov, this`iovBlock, this`iovUsed, this`msgs, this`msgUsed, this`msgCurr, this`msgBytes,
               this`state
      ensures |wbuf| == DATA_BUFFER_SIZE && srv.pad == wbuf[2..4] && state == MWrite
      ensures Filled(Out()) && Content(Out()) == ReplyHeader(srv.pad, status, |err|) + err
    {
      hide Filled, AlmostFilled, Building, Content;
      AddBinHeader(status, |err|);
      FilledAlmost(Out());
      AddIov(err);
      state := MWrite;
    }

    method WriteBinResponse(d: bytes)
      requires |wbuf| == DATA_BUFFER_SIZE && |srv.pad| == 2 && srv.pad == wbuf[2..4] && 0 < |msgs| && 0 < |iov|
      modifies this`wbuf, this`iov, this`iovBlock, this`iovUsed, this`msgs, this`msgUsed, this`msgCurr, this`msgBytes,
               this`state
      ensures |wbuf| == DATA_BUFFER_SIZE && srv.pad == wbuf[2..4] && state == MWrite
      ensures Filled(Out()) && Content(Out()) == ReplyHeader(srv.pad, 0, |d|) + d
    {
      hide Filled, AlmostFilled, Building, Content;
      AddBinHeader(0, |d|);
      FilledAlmost(Out());
      if |d| > 0 {
        AddIov(d);
      } else {
        assert Content(Out()) + d == Content(Out());
      }
      state := MWrite;
    }

    /** Handles a complete request and sets up its reply. */
    method CompleteNread()
      requires Base() && InBody() && Answered() && rlbytes == 0
      modifies this`wbuf, this`iov, this`iovBlock, this`iovUsed, this`msgs, this`msgUsed, this`msgCurr, this`msgBytes,
               this`state, this`handled, this`writeAndFree
      ensures Valid() && state == MWrite
      ensures |handled| == |old(handled)| + 1 && old(handled) <= handled
    {
      hide Filled, Building, Content, Split, InScope, Doubled, AllReplies, Sending, Pending, Key, ResultsBody, ReplyHeader,
           BodyLen, FrameReady, Body, Beyond, FromLE32, CString, Reply;
      var body := rbuf[ritem - bodylen..ritem];
      FrameOf(head, body, Buffered());
      SplitSnoc(Received(), handled, head + body + Buffered());
      AllRepliesSnoc(srv, handled, body);
      handled := handled + [body];
      var number := FromLE32(body[..4]);
      var key := CString(body[4..]);
      KeyAndNumber(body);
      match srv.get(key) {
        case NoResult =>
          WriteBinError(OUT_OF_MEMORY, srv.errorStatus);
        case Results(list) =>
          var resp := BuildReply(number, list);
          writeAndFree := true;
          WriteBinResponse(resp);
      }
      ReplyForm(srv, body, number, key);
      assert Content(Out()) == Reply(srv, body);
      FilledSends(Out());
      FilledSizes(Out());
    }

    // ----- sending

    /** Drops the first `k` bytes of the current message. */
    method Consume(k: nat)
      requires Sending(Out()) && msgCurr < msgUsed <= |msgs|
      requires msgs[msgCurr].start + msgs[msgCurr].len <= |iov|
      requires k <= |Span(iov, msgs[msgCurr].start, msgs[msgCurr].start + msgs[msgCurr].len)|
      modifies this`iov, this`msgs
      ensures Sending(Out()) && k <= |old(Pending(Out()))| && Pending(Out()) == old(Pending(Out()))[k..]
      ensures |iov| == old(|iov|) && |msgs| == old(|msgs|)
    {
      hide Sending, Pending, Span;
      ghost var o := Out();
      AdvanceStart(o);
      SpanNone(iov, msgs[msgCurr].start);
      var res: nat := k;
      while msgs[msgCurr].len > 0 && res >= |iov[msgs[msgCurr].start].data|
        invariant msgCurr < |msgs| && |iov| == |o.iov|
        invariant Advances(o, Out(), msgs[msgCurr].start, 0)
        invariant res + |Span(o.iov, o.msgs[msgCurr].start, msgs[msgCurr].start)| == k
        decreases msgs[msgCurr].len
      {
        ghost var p, at := Out(), msgs[msgCurr].start;
        res := res - |iov[msgs[msgCurr].start].data|;
        var m := msgs[msgCurr];
        msgs := msgs[msgCurr := m.(start := m.start + 1, len := m.len - 1)];
        AdvanceSlice(o, p, Out(), at);
      }
      ghost var p, at := Out(), msgs[msgCurr].start;
      AdvanceBound(o, p, at, res, k);
      if res > 0 {
        var first := msgs[msgCurr].start;
        iov := iov[first := IoVec(iov[first].data[res..])];
        AdvanceCut(o, p, Out(), at, res);
      }
      AdvanceSends(o, Out(), at, res);
    }

    /** Sends some of what is pending. */
    method Transmit() returns (r: TransmitResult)
      requires Sending(Out())
      modifies this`iov, this`msgs, this`msgCurr, sock`sent, sock`failed, sock`blocked, sock`stalls
      ensures Sending(Out()) && sock.sent + Pending(Out()) == old(sock.sent + Pending(Out()))
      ensures |iov| == old(|iov|) && |msgs| == old(|msgs|)
      ensures r.Complete? ==> Pending(Out()) == []
      ensures r.Incomplete? ==> |Pending(Out())| < |old(Pending(Out()))|
      ensures !r.Incomplete? ==> |Pending(Out())| == |old(Pending(Out()))|
      ensures r.SoftError? ==> sock.blocked
      ensures if r.SoftError? then old(sock.stalls) < sock.stalls else old(sock.stalls) <= sock.stalls
      ensures old(sock.sent) <= sock.sent
      ensures r.HardError? ==> sock.failed
      ensures old(sock.failed) ==> sock.failed
    {
      hide Sending, Pending, Span;
      SendingFacts(Out());
      if msgCurr < msgUsed && msgs[msgCurr].len == 0 {
        NextSends(Out());
        msgCurr := msgCurr + 1;
      }
      ghost var o := Out();
      SendingFacts(o);
      if msgCurr < msgUsed {
        var m := msgs[msgCurr];
        assert m.block == iovBlock;
        var gathered := Span(iov, m.start, m.start + m.len);
        SpanSplit(iov, m.start, m.start + m.len, iovUsed);
        var res := sock.Sendmsg(gathered);
        if res.Moved? {
          ghost var pending := Pending(o);
          Consume(res.count);
          assert gathered[..res.count] == pending[..res.count];
          assert pending == pending[..res.count] + pending[res.count..];
          return Incomplete;
        }
        if res.WouldBlock? {
          var ok := sock.UpdateEvent();
          return if ok then SoftError else HardError;
        }
        return HardError;
      } else {
        return Complete;
      }
    }

    // ----- the state machine

    /** The order in which states follow each other between two requests. */
    function Rank(): nat
      reads this`state
    {
      match state
      case Read => 6
      case ParseCmd => 5
      case NRead => 4
      case MWrite => 3
      case NewCmd => 2
      case Waiting => 1
      case Closing => 0
    }

    /** What is left to read or to write, and then whether a buffer is still to be freed. */
    ghost function Left(): nat
      reads this
    {
      match state
      case NRead => rlbytes
      case MWrite => 2 * |Pending(Out())| + if writeAndFree then 1 else 0
      case _ => 0
    }

    /** At the end of an event, with all input taken, a connection that is about to read or waits
        for the rest of a body has answered everything; so has one that is closed without a failure. */
    lemma AllServedWhen()
      requires Valid()
      ensures sock.taken == |sock.input| && state.Read? ==> Served()
      ensures sock.taken == |sock.input| && state.NRead? && rbytes == 0 && 0 < rlbytes ==> Served()
      ensures state.Closing? && !sock.failed ==> Served()
    {
      ValidMeans();
      hide AllReplies, FramesOf, InScope, Split, Doubled, Sending, Pending;
      FramesInScope(sock.input);
      assert sock.taken == |sock.input| ==> Received() == sock.input;
    }

    method StepNRead() returns (stop: bool)
      requires Valid() && state == NRead
      modifies this, sock`taken, sock`failed, sock`blocked, sock`stalls
      ensures Valid() && (state == NRead || state == MWrite || state == Closing)
      ensures stop ==> state == NRead && sock.blocked
      ensures stop ==> rbytes == 0 && 0 < rlbytes && HeldUp(old(sock.stalls))
      ensures old(sock.stalls) <= sock.stalls && old(sock.taken) <= sock.taken
      ensures state == Closing ==> sock.failed
      ensures state == NRead && !stop ==> Left() < old(Left())
      ensures old(handled) <= handled && |handled| == |old(handled)| + if state == MWrite then 1 else 0
      ensures old(sock.failed) ==> sock.failed
    {
      hide Split, InScope, Doubled, AllReplies, Sending, Pending, BodyLen;
      stop := false;
      if rlbytes == 0 {
        CompleteNread();
        return;
      }
      if rbytes > 0 {
        TakeBuffered();
        if rlbytes == 0 {
          return;
        }
      }
      stop := ReadMore();
    }

    /** The rest of that step: one read, and what follows from its result. */
    method ReadMore() returns (stop: bool)
      requires Base() && InBody() && Answered() && state == NRead && rbytes == 0 && 0 < rlbytes
      modifies this`rbuf, this`ritem, this`rcurr, this`rlbytes, this`state, sock`taken, sock`failed, sock`blocked, sock`stalls
      ensures Valid() && (state == NRead || state == Closing)
      ensures stop ==> state == NRead && sock.blocked
      ensures stop ==> rbytes == 0 && 0 < rlbytes && HeldUp(old(sock.stalls))
      ensures old(sock.stalls) <= sock.stalls && old(sock.taken) <= sock.taken
      ensures state == Closing ==> sock.failed
      ensures state == NRead && !stop ==> rlbytes < old(rlbytes)
      ensures old(sock.failed) ==> sock.failed
    {
      hide Split, InScope, Doubled, AllReplies, Sending, Pending, BodyLen;
      stop := false;
      var res := ReadBody();
      if res.Moved? {
        return;
      }
      if res.WouldBlock? {
        var ok := sock.UpdateEvent();
        if ok {
          return true;
        }
      }
      GivenUp(head + rbuf[ritem - (bodylen - rlbytes)..ritem] + Buffered());
      state := Closing;
    }

    method StepMWrite() returns (stop: bool)
      requires Valid() && state == MWrite
      modifies this, sock`sent, sock`failed, sock`blocked, sock`stalls
      ensures Valid() && (state == MWrite || state == NewCmd || state == Closing)
      ensures stop ==> state == MWrite && sock.blocked
      ensures if stop then old(sock.stalls) < sock.stalls else old(sock.stalls) <= sock.stalls
      ensures old(sock.sent) <= sock.sent
      ensures state == Closing ==> sock.failed
      ensures state == MWrite && !stop ==> Left() < old(Left())
      ensures handled == old(handled)
      ensures old(sock.failed) ==> sock.failed
    {
      hide Split, InScope, Doubled, AllReplies, Sending, Pending, Buffered, Received, Synced, Answered, InBody, Broken;
      stop := false;
      var res := Transmit();
      BrokenOff();
      match res {
        case Complete =>
          if writeAndFree {
            writeAndFree := false;
          } else {
            state := NewCmd;
          }
        case Incomplete =>
        case HardError =>
          state := Closing;
        case SoftError =>
          stop := true;
      }
    }

    method StepWaiting() returns (stop: bool)
      requires Valid() && state == Waiting
      modifies this`state, sock`failed
      ensures Valid() && (if stop then state == Read else state == Closing && sock.failed)
      ensures old(sock.failed) ==> sock.failed
    {
      hide Split, InScope, Doubled, AllReplies;
      var ok := sock.UpdateEvent();
      if !ok {
        GivenUp(Buffered());
        state := Closing;
        return false;
      }
      state := Read;
      return true;
    }

    method StepNewCmd(nreqs: int) returns (nreqs': int, stop: bool)
      requires Valid() && state == NewCmd
      modifies this`state, this`rbuf, this`rcurr, this`msgs, this`iov, sock`failed
      ensures Valid() && nreqs' == nreqs - 1
      ensures if stop then nreqs' < 0 && (state == NewCmd || (state == Closing && sock.failed))
              else nreqs' >= 0 && state == if rbytes > 0 then ParseCmd else Waiting
      ensures old(sock.failed) ==> sock.failed
    {
      hide Split, InScope, Doubled, AllReplies;
      nreqs' := nreqs - 1;
      stop := false;
      if nreqs' >= 0 {
        ResetCmdHandler();
      } else {
        if rbytes > 0 {
          var ok := sock.UpdateEvent();
          if !ok {
            GivenUp(Buffered());
            state := Closing;
          }
        }
        stop := true;
      }
    }

    /** The client has received the replies to all complete requests it sends. */
    ghost predicate Served()
      reads this, sock
    {
      && |srv.pad| == 2 && (forall b :: b in FramesOf(sock.input) ==> 4 <= |b|)
      && sock.sent == AllReplies(srv, FramesOf(sock.input))
    }

    /** What an event brings forward: bytes taken and requests handled, and then whether the
        connection is about to read. */
    ghost function Advance(): nat
      reads this, sock
    {
      2 * (sock.taken + |handled|) + if state == Read then 1 else 0
    }

    /** One event on the connection: runs the state machine until it has to wait. It ends, keeps
        the invariant, and completes at most one request more than it may start. Unless the
        socket fails or stalls, it brings something forward or the client has all its replies;
        if no request may be handled per event, a new connection gets nowhere. */
    method DriveMachine(reqsPerEvent: nat)
      requires Valid()
      modifies this, sock
      ensures Valid()
      ensures old(handled) <= handled && |handled| <= |old(handled)| + reqsPerEvent + 1
      ensures state == Read || state == NRead || state == MWrite || state == NewCmd || state == Closing
      ensures state == NRead || state == MWrite ==> sock.blocked
      ensures state == NewCmd ==> |handled| >= |old(handled)| + reqsPerEvent
      ensures old(sock.taken) <= sock.taken && old(sock.sent) <= sock.sent && old(sock.stalls) <= sock.stalls
      ensures old(sock.failed) ==> sock.failed
      ensures !sock.failed ==> old(Advance()) <= Advance()
      ensures !sock.failed && 0 < reqsPerEvent && sock.stalls == old(sock.stalls) ==> Served() || old(Advance()) < Advance()
      ensures reqsPerEvent == 0 && (old(state) == NewCmd || old(state) == Closing) ==>
        (state == NewCmd || state == Closing) && handled == old(handled) && sock.sent == old(sock.sent)
    {
      hide Valid, Left;
      var stop := false;
      var nreqs: int := reqsPerEvent;
      while !stop
        invariant Valid() && nreqs <= reqsPerEvent
        invariant old(handled) <= handled
        invariant nreqs >= if stop then -1 else 0
        invariant |handled| - |old(handled)| <= reqsPerEvent - (if nreqs < 0 then 0 else nreqs)
                                                + if state == MWrite || state == NewCmd || state == Closing then 1 else 0
        invariant |handled| - |old(handled)| >= reqsPerEvent - nreqs
                                                - if !stop && (state == MWrite || state == NewCmd) then 0 else 1
        invariant stop ==> state == Read || state == NRead || state == MWrite || state == NewCmd || state == Closing
        invariant stop && (state == NRead || state == MWrite) ==> sock.blocked
        invariant stop && state == NewCmd ==> nreqs < 0
        invariant old(sock.taken) <= sock.taken && old(sock.sent) <= sock.sent && old(sock.stalls) <= sock.stalls
        invariant old(sock.failed) ==> sock.failed
        invariant stop && state == NRead ==> rbytes == 0 && 0 < rlbytes && HeldUp(old(sock.stalls))
        invariant stop && state == MWrite ==> old(sock.stalls) < sock.stalls
        invariant old(state) == Read && sock.taken == old(sock.taken) ==>
          || (state == Read && !stop)
          || ((state == Waiting || state == Read) && HeldUp(old(sock.stalls)))
          || (state == Closing && sock.failed)
        invariant reqsPerEvent == 0 && (old(state) == NewCmd || old(state) == Closing) ==>
          (state == NewCmd || state == Closing) && handled == old(handled) && sock.sent == old(sock.sent)
        decreases !stop, nreqs, Rank(), Left()
      {
        match state {
          case Waiting =>
            stop := StepWaiting();
          case Read =>
            StepRead();
          case ParseCmd =>
            StepParseCmd();
          case NewCmd =>
            nreqs, stop := StepNewCmd(nreqs);
          case NRead =>
            stop := StepNRead();
          case MWrite =>
            stop := StepMWrite();
          case Closing =>
            stop := true;
        }
      }
      AllServedWhen();
    }
  }

  /** The response buffer of `complete_nread`, filled result by result. */
  method BuildReply(number: nat, list: seq<bytes>) returns (resp: bytes)
    ensures resp == ResultsBody(number, list)
  {
    var wanted := number;
    if wanted == 0 {
      wanted := DEFAULT_GET_NUMBER;
    }
    if wanted > |list| {
      wanted := |list|;
    }
    var count := LE32(wanted % TWO32);
    resp := count;
    for i := 0 to |list|
      invariant resp == count + EncodeResults(list[..i])
    {
      assert list[..i + 1][..i] == list[..i];
      resp := resp + LE32(|list[i]| % TWO32);
      resp := resp + list[i];
    }
    assert list[..|list|] == list;
  }

  lemma KeyAndNumber(body: bytes)
    requires 4 <= |body|
    ensures Key(body) == CString(body[4..]) && Number(body) == FromLE32(body[..4])
  {
  }

  lemma ReplyForm(srv: Server, body: bytes, number: nat, key: bytes)
    requires 4 <= |body| && |srv.pad| == 2 && key == Key(body) && number == Number(body)
    ensures match srv.get(key)
            case NoResult =>
              Reply(srv, body) == ReplyHeader(srv.pad, srv.errorStatus, |OUT_OF_MEMORY|) + OUT_OF_MEMORY
            case Results(list) =>
              Reply(srv, body) == ReplyHeader(srv.pad, 0, |ResultsBody(number, list)|) + ResultsBody(number, list)
  {
  }

  lemma BehindHead(head: bytes, got: bytes, data: bytes)
    ensures head + got + [] + data == head + (got + data) + []
  {
  }

  lemma FilledSizes(o: Out)
    requires Filled(o)
    ensures 0 < |o.msgs| && 0 < |o.iov|
  {
  }

  lemma SpanNone(iov: seq<IoVec>, at: nat)
    ensures at <= |iov| ==> Span(iov, at, at) == []
  {
    if at <= |iov| {
      assert iov[at..at] == [];
    }
  }
}