/** The request stream of one client, independent of how it arrives: 8-byte headers,
    each followed by a body of the length the header states. */
module Frames {
  import opened Bytes

  const REQ: byte := 0x80
  const RES: byte := 0x81
  const HEADER: nat := 8

  /** The largest body for which every buffer size stays an `int`: the buffer doubles from
      2048 and has to hold the header too. */
  const MAX_BODY: nat := 0x4000_0000 - 8

  /** The body length that a header states, in network order. */
  function BodyLen(h: bytes): nat
    requires HEADER <= |h|
  {
    FromBE32(h[4..8])
  }

  /** A complete frame stands in front. */
  predicate FrameReady(s: bytes) {
    HEADER <= |s| && s[0] == REQ && HEADER + BodyLen(s) <= |s|
  }

  function Body(s: bytes): bytes
    requires FrameReady(s)
  {
    s[HEADER..HEADER + BodyLen(s)]
  }

  function Beyond(s: bytes): bytes
    requires FrameReady(s)
  {
    s[HEADER + BodyLen(s)..]
  }

  /** The bodies of the complete frames in front, up to a header with another magic byte. */
  function FramesOf(s: bytes): seq<bytes>
    decreases |s|
  {
    if FrameReady(s) then [Body(s)] + FramesOf(Beyond(s)) else []
  }

  /** Every header in front announces a body that can hold the result count and that
      the buffer can hold. */
  ghost predicate InScope(s: bytes)
    decreases |s|
  {
    HEADER <= |s| && s[0] == REQ ==>
      && 4 <= BodyLen(s) <= MAX_BODY
      && (FrameReady(s) ==> InScope(Beyond(s)))
  }

  /** `s` is the frames of `bodies` and then `rest`. */
  ghost predicate Split(s: bytes, bodies: seq<bytes>, rest: bytes)
    decreases |bodies|
  {
    if bodies == [] then s == rest
    else FrameReady(s) && Body(s) == bodies[0] && Split(Beyond(s), bodies[1..], rest)
  }

  lemma FirstFrame(s: bytes)
    requires FrameReady(s)
    ensures FramesOf(s) == [Body(s)] + FramesOf(Beyond(s))
    ensures |Beyond(s)| < |s| && (InScope(s) ==> InScope(Beyond(s)))
  {
  }

  lemma Prepended(a: seq<bytes>, b: seq<bytes>)
    requires a != []
    ensures a + b == [a[0]] + (a[1..] + b)
  {
  }

  lemma {:induction false} SplitFrames(s: bytes, bodies: seq<bytes>, rest: bytes)
    requires Split(s, bodies, rest)
    ensures FramesOf(s) == bodies + FramesOf(rest)
    ensures InScope(s) ==> InScope(rest)
    decreases |bodies|
  {
    hide FramesOf, InScope, FrameReady, Body, Beyond;
    if bodies == [] {
      assert bodies + FramesOf(rest) == FramesOf(rest);
    } else {
      FirstFrame(s);
      Prepended(bodies, FramesOf(rest));
      SplitFrames(Beyond(s), bodies[1..], rest);
    }
  }

  lemma FrameExtends(s: bytes, more: bytes)
    requires FrameReady(s)
    ensures FrameReady(s + more) && Body(s + more) == Body(s) && Beyond(s + more) == Beyond(s) + more
  {
    assert (s + more)[4..8] == s[4..8];
  }

  /** Bytes that arrive later go behind the rest. */
  lemma {:induction false} SplitExtends(s: bytes, bodies: seq<bytes>, rest: bytes, more: bytes)
    requires Split(s, bodies, rest)
    ensures Split(s + more, bodies, rest + more)
    decreases |bodies|
  {
    if bodies == [] {
    } else {
      FrameExtends(s, more);
      SplitExtends(Beyond(s), bodies[1..], rest, more);
    }
  }

  /** A frame completed in front of the rest is one more body. */
  lemma {:induction false} SplitSnoc(s: bytes, bodies: seq<bytes>, rest: bytes)
    requires Split(s, bodies, rest) && FrameReady(rest)
    ensures Split(s, bodies + [Body(rest)], Beyond(rest))
    decreases |bodies|
  {
    if bodies != [] {
      SplitSnoc(Beyond(s), bodies[1..], rest);
      assert (bodies + [Body(rest)])[1..] == bodies[1..] + [Body(rest)];
    } else {
      assert ([] + [Body(rest)])[1..] == [];
    }
  }

  /** What is complete stays complete, and in front, as the stream grows. */
  lemma {:induction false} FramesMonotone(s: bytes, more: bytes)
    ensures FramesOf(s) <= FramesOf(s + more)
    decreases |s|
  {
    if !FrameReady(s) {
    } else {
      FrameExtends(s, more);
      FramesMonotone(Beyond(s), more);
    }
  }

  /** What has been taken off a part of the stream are the first frames of the whole. */
  lemma SplitMeans(input: bytes, received: bytes, bodies: seq<bytes>, rest: bytes)
    requires received <= input && Split(received, bodies, rest)
    ensures bodies <= FramesOf(input)
    ensures |rest| < HEADER ==> bodies == FramesOf(received)
  {
    SplitFrames(received, bodies, rest);
    assert input == received + input[|received|..];
    FramesMonotone(received, input[|received|..]);
  }

  /** A complete header with another magic byte stands in front. */
  predicate BadMagic(s: bytes) {
    HEADER <= |s| && s[0] != REQ
  }

  /** Nothing behind such a header is a frame. */
  lemma BadMagicEnds(input: bytes, received: bytes, bodies: seq<bytes>, rest: bytes)
    requires received <= input && Split(received, bodies, rest) && BadMagic(rest)
    ensures bodies == FramesOf(input)
  {
    var more := input[|received|..];
    assert input == received + more;
    SplitExtends(received, bodies, rest, more);
    SplitFrames(input, bodies, rest + more);
    assert FramesOf(rest + more) == [];
  }

  lemma {:induction false} FramesInScope(s: bytes)
    requires InScope(s)
    ensures forall b :: b in FramesOf(s) ==> 4 <= |b|
    decreases |s|
  {
    if !FrameReady(s) {
    } else {
      FramesInScope(Beyond(s));
    }
  }

  /** A part of a frame is no frame. */
  lemma PartEnds(received: bytes, bodies: seq<bytes>, head: bytes, part: bytes)
    requires Split(received, bodies, head + part) && |head| == HEADER && |part| < BodyLen(head)
    ensures bodies == FramesOf(received)
  {
    SplitFrames(received, bodies, head + part);
    assert (head + part)[4..8] == head[4..8];
    assert FramesOf(head + part) == [];
  }

  /** A header that has been buffered in full announces a length within scope. */
  lemma HeaderInScope(input: bytes, received: bytes, bodies: seq<bytes>, rest: bytes)
    requires received <= input && InScope(input) && Split(received, bodies, rest)
    requires HEADER <= |rest| && rest[0] == REQ
    ensures 4 <= BodyLen(rest) <= MAX_BODY
  {
    var more := input[|received|..];
    assert input == received + more;
    SplitExtends(received, bodies, rest, more);
    SplitFrames(input, bodies, rest + more);
    assert (rest + more)[4..8] == rest[4..8];
  }

  /** A header and a body of the length it states are a frame in front of anything. */
  lemma FrameOf(head: bytes, body: bytes, more: bytes)
    requires |head| == HEADER && head[0] == REQ && BodyLen(head) == |body|
    ensures var s := head + body + more; FrameReady(s) && Body(s) == body && Beyond(s) == more
  {
    var s := head + body + more;
    assert s[4..8] == head[4..8];
  }

  // ----- slices of a buffer

  /** The header in front of what is buffered. */
  lemma HeaderSlices(buf: bytes, at: nat, n: nat)
    requires HEADER <= n && at + n <= |buf|
    ensures var b, h := buf[at..at + n], buf[at..at + HEADER];
            && h == b[..HEADER] && h[0] == b[0] == buf[at]
            && h[4..8] == b[4..8] == buf[at + 4..at + 8]
  {
    SliceOfSlice(buf, at, at + n, 0, HEADER);
    SliceOfSlice(buf, at, at + n, 4, 8);
    SliceOfSlice(buf, at, at + HEADER, 4, 8);
  }

  /** Bytes written at `at` follow those from `lo`. */
  lemma Spliced(buf: bytes, lo: nat, at: nat, data: bytes)
    requires lo <= at && at + |data| <= |buf|
    ensures var buf2 := buf[..at] + data + buf[at + |data|..];
            |buf2| == |buf| && buf2[lo..at + |data|] == buf[lo..at] + data
  {
  }
}
