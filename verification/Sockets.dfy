/** One client's socket as an adversary: what the client will ever send is fixed, but how
    much of it each read delivers, how much each send accepts, and when either blocks or
    fails is arbitrary. */
module Sockets {
  import opened Bytes

  datatype IoResult = Moved(count: nat) | EndOfStream | WouldBlock | Failed

  class Socket {
    const input: bytes
    var taken: nat
    var sent: bytes
    ghost var failed: bool   // some call has reported an error or the end of the stream
    ghost var blocked: bool  // the last read or send would have blocked
    ghost var stalls: nat    // how often a send has blocked, or a read before the end of the input

    constructor (input: bytes)
      ensures this.input == input && taken == 0 && sent == [] && !failed && !blocked && stalls == 0
    {
      this.input := input;
      taken, sent := 0, [];
      failed, blocked, stalls := false, false, 0;
    }

    /** read(2) of up to `n` bytes. */
    method Read(n: nat) returns (r: IoResult, data: bytes)
      requires taken <= |input| && 0 < n
      modifies this`taken, this`failed, this`blocked, this`stalls
      ensures failed == (old(failed) || r.EndOfStream? || r.Failed?) && blocked == r.WouldBlock?
      ensures stalls == old(stalls) + if r.WouldBlock? && taken < |input| then 1 else 0
      ensures old(taken) <= taken <= |input| && data == input[old(taken)..taken]
      ensures if r.Moved? then 0 < r.count == |data| <= n else data == []
    {
      data := [];
      var outcome: nat :| outcome < 4;
      if outcome == 0 {
        r := WouldBlock;
      } else if outcome == 1 {
        r := Failed;
      } else if outcome == 2 || taken == |input| {
        r := EndOfStream;
      } else {
        var most := if n < |input| - taken then n else |input| - taken;
        var k: nat :| 0 < k <= most;
        data := input[taken..taken + k];
        taken := taken + k;
        r := Moved(k);
      }
      failed := failed || r.EndOfStream? || r.Failed?;
      blocked := r.WouldBlock?;
      stalls := stalls + if r.WouldBlock? && taken < |input| then 1 else 0;
    }

    /** sendmsg(2) of the gathered bytes `buf`; a result of 0 counts as a failure. */
    method Sendmsg(buf: bytes) returns (r: IoResult)
      modifies this`sent, this`failed, this`blocked, this`stalls
      ensures failed == (old(failed) || r.Failed?) && blocked == r.WouldBlock?
      ensures stalls == old(stalls) + if r.WouldBlock? then 1 else 0
      ensures !r.EndOfStream?
      ensures if r.Moved? then 0 < r.count <= |buf| && sent == old(sent) + buf[..r.count] else sent == old(sent)
    {
      var outcome: nat :| outcome < 3;
      if outcome == 0 {
        r := WouldBlock;
      } else if outcome == 1 || buf == [] {
        r := Failed;
      } else {
        var k: nat :| 0 < k <= |buf|;
        sent := sent + buf[..k];
        r := Moved(k);
      }
      failed := failed || r.Failed?;
      blocked := r.WouldBlock?;
      stalls := stalls + if r.WouldBlock? then 1 else 0;
    }

    /** update_event: may fail. */
    method UpdateEvent() returns (ok: bool)
      modifies this`failed
      ensures failed == (old(failed) || !ok)
    {
      var outcome: nat :| outcome < 2;
      ok := outcome == 0;
      failed := failed || !ok;
    }
  }

  /** Newly allocated memory: no telling what is in it. */
  method Garbage(n: nat) returns (r: bytes)
    ensures |r| == n
  {
    r := seq(n, _ => 0);
  }
}
