/** The list of pending output of a connection: an array of slices and the messages that
    group them, each pointing into the array. */
module ScatterGather {
  import opened Bytes

  const IOV_MAX: nat := 1024
  const UDP_MAX_PAYLOAD: nat := 1400

  datatype IoVec = IoVec(data: bytes)

  /** A message of `len` slices from index `start` of the array allocated as number `block`. */
  datatype Msg = Msg(block: nat, start: nat, len: nat)

  /** The fields of a connection that make up the list. */
  datatype Out = MakeOut(iov: seq<IoVec>, block: nat, iovUsed: nat, msgs: seq<Msg>, msgUsed: nat, msgCurr: nat, msgBytes: nat)

  function Flat(v: seq<IoVec>): bytes {
    if v == [] then [] else v[0].data + Flat(v[1..])
  }

  lemma {:induction false} FlatConcat(a: seq<IoVec>, b: seq<IoVec>)
    ensures Flat(a + b) == Flat(a) + Flat(b)
  {
    if a == [] {
      assert [] + b == b;
    } else {
      assert (a + b)[1..] == a[1..] + b;
      FlatConcat(a[1..], b);
    }
  }

  lemma FlatSnoc(a: seq<IoVec>, x: IoVec)
    ensures Flat(a + [x]) == Flat(a) + x.data
  {
    FlatConcat(a, [x]);
    assert Flat([x]) == x.data + Flat([x][1..]);
  }

  /** The slices from `lo` up to `hi` as bytes. */
  function Span(iov: seq<IoVec>, lo: nat, hi: nat): bytes
    requires lo <= hi <= |iov|
  {
    Flat(iov[lo..hi])
  }

  lemma SpanSplit(iov: seq<IoVec>, lo: nat, mid: nat, hi: nat)
    requires lo <= mid <= hi <= |iov|
    ensures Span(iov, lo, hi) == Span(iov, lo, mid) + Span(iov, mid, hi)
  {
    assert iov[lo..hi] == iov[lo..mid] + iov[mid..hi];
    FlatConcat(iov[lo..mid], iov[mid..hi]);
  }

  /** Where message `i` ends. */
  function End(o: Out, i: nat): nat
    requires i < o.msgUsed <= |o.msgs|
  {
    if i + 1 < o.msgUsed then o.msgs[i + 1].start else o.iovUsed
  }

  ghost predicate MsgOk(o: Out, i: nat)
    requires i < o.msgUsed <= |o.msgs|
  {
    && o.msgs[i].block == o.block
    && o.msgs[i].start + o.msgs[i].len == End(o, i) <= o.iovUsed
  }

  /** The messages from the current one on point into the present array, and their slices
      follow each other up to the last slice used. */
  ghost predicate Slices(o: Out) {
    && o.iovUsed <= |o.iov| && o.msgCurr <= o.msgUsed <= |o.msgs|
    && forall i: nat {:trigger MsgOk(o, i)} :: o.msgCurr <= i < o.msgUsed ==> MsgOk(o, i)
  }

  /** The list while it is being put together. */
  ghost predicate Building(o: Out) {
    && Slices(o)
    && o.msgCurr == 0 < o.msgUsed && o.msgs[0].start == 0 && 0 < |o.iov|
    && (forall i :: 0 <= i < o.msgUsed ==> o.msgs[i].len <= IOV_MAX)
    && o.msgs[o.msgUsed - 1].start <= o.iovUsed
    && o.msgBytes == |Span(o.iov, o.msgs[o.msgUsed - 1].start, o.iovUsed)|
    && End(o, 0) <= o.iovUsed && |Span(o.iov, 0, End(o, 0))| <= UDP_MAX_PAYLOAD
  }

  /** No message has more than 1024 slices, and the first has no more than 1400 bytes. */
  lemma MessageLimits(o: Out)
    requires Building(o)
    ensures 0 < o.msgUsed <= |o.msgs| && forall i :: 0 <= i < o.msgUsed ==> o.msgs[i].len <= 1024
    ensures o.msgs[0].start == 0 && o.msgs[0].len <= |o.iov| && |Flat(o.iov[..o.msgs[0].len])| <= 1400
  {
    hide Flat;
    assert MsgOk(o, 0);
    assert o.iov[0..o.msgs[0].len] == o.iov[..o.msgs[0].len];
  }

  /** Everything added so far. */
  function Content(o: Out): bytes {
    if o.iovUsed <= |o.iov| then Span(o.iov, 0, o.iovUsed) else []
  }

  /** The list while it is being sent: no slice to come is empty, nor is any message but the current one. */
  ghost predicate Sending(o: Out) {
    && Slices(o)
    && (forall i :: o.msgCurr < i < o.msgUsed ==> 0 < o.msgs[i].len)
    && (o.msgCurr < o.msgUsed ==>
          (o.msgs[o.msgCurr].start <= o.iovUsed &&
           forall k :: o.msgs[o.msgCurr].start <= k < o.iovUsed ==> o.iov[k].data != []))
  }

  /** What is still to be sent. */
  function Pending(o: Out): bytes {
    if o.msgCurr < o.msgUsed <= |o.msgs| && o.msgs[o.msgCurr].start <= o.iovUsed <= |o.iov|
    then Span(o.iov, o.msgs[o.msgCurr].start, o.iovUsed)
    else []
  }

  /** All slices are non-empty and every message has one: ready to be sent. */
  ghost predicate Filled(o: Out) {
    && Building(o)
    && (forall i :: 0 <= i < o.msgUsed ==> 0 < o.msgs[i].len)
    && (forall k :: 0 <= k < o.iovUsed ==> o.iov[k].data != [])
  }

  lemma FilledSends(o: Out)
    requires Filled(o)
    ensures Sending(o) && Pending(o) == Content(o)
  {
  }

  // ----- the messages partition what was added

  /** The bytes of the messages numbered from `i` on, one message after the other. */
  ghost function Messages(o: Out, i: nat): bytes
    requires Slices(o) && o.msgCurr <= i
    decreases o.msgUsed - i
  {
    if i < o.msgUsed then
      assert MsgOk(o, i);
      Span(o.iov, o.msgs[i].start, o.msgs[i].start + o.msgs[i].len) + Messages(o, i + 1)
    else []
  }

  /** Message after message gives the bytes from the first slice of the current one to the last. */
  lemma {:induction false} MessagesPartition(o: Out, i: nat)
    requires Slices(o) && o.msgCurr <= i
    ensures i < o.msgUsed ==> o.msgs[i].start <= o.iovUsed && Messages(o, i) == Span(o.iov, o.msgs[i].start, o.iovUsed)
    decreases o.msgUsed - i
  {
    if o.msgUsed <= i {
    } else {
      assert MsgOk(o, i);
      MessagesPartition(o, i + 1);
      var end := o.msgs[i].start + o.msgs[i].len;
      SpanSplit(o.iov, o.msgs[i].start, end, o.iovUsed);
      if i + 1 == o.msgUsed {
        assert o.iov[end..o.iovUsed] == [];
      }
    }
  }

  // ----- one slice more

  /** `o2` is `o` with slice `x` put at the end and counted to the last message. */
  ghost predicate Appends(o: Out, o2: Out, x: IoVec) {
    && 0 < o.msgUsed <= |o.msgs| && o.iovUsed < |o.iov|
    && var last := o.msgUsed - 1;
       o2 == o.(iov := o.iov[o.iovUsed := x], iovUsed := o.iovUsed + 1,
                msgs := o.msgs[last := o.msgs[last].(len := o.msgs[last].len + 1)],
                msgBytes := o.msgBytes + |x.data|)
  }

  lemma AppendSpan(iov: seq<IoVec>, lo: nat, hi: nat, x: IoVec)
    requires lo <= hi < |iov|
    ensures Span(iov[hi := x], lo, hi + 1) == Span(iov, lo, hi) + x.data
  {
    assert iov[hi := x][lo..hi + 1] == iov[lo..hi] + [x];
    FlatSnoc(iov[lo..hi], x);
  }

  lemma AppendBuilds(o: Out, o2: Out, x: IoVec)
    requires Building(o) && Appends(o, o2, x)
    requires o.msgs[o.msgUsed - 1].len < IOV_MAX
    requires o.msgUsed == 1 ==> o.msgBytes + |x.data| <= UDP_MAX_PAYLOAD
    ensures Building(o2) && Content(o2) == Content(o) + x.data
  {
    var last := o.msgUsed - 1;
    assert MsgOk(o, last);
    forall i: nat | i < o2.msgUsed ensures MsgOk(o2, i) {
      assert MsgOk(o, i);
    }
    AppendSpan(o.iov, 0, o.iovUsed, x);
    AppendSpan(o.iov, o.msgs[last].start, o.iovUsed, x);
    if last > 0 {
      assert MsgOk(o, 0);
      assert o2.iov[0..End(o2, 0)] == o.iov[0..End(o, 0)];
    }
  }

  // ----- a message more

  ghost predicate StartsMessage(o: Out, o2: Out) {
    && o.msgUsed <= |o.msgs| <= |o2.msgs| && o.msgUsed < |o2.msgs|
    && o2.msgs[..o.msgUsed] == o.msgs[..o.msgUsed]
    && o2.msgs[o.msgUsed] == Msg(o.block, o.iovUsed, 0)
    && o2 == o.(msgs := o2.msgs, msgUsed := o.msgUsed + 1, msgBytes := 0)
  }

  lemma StartBuilds(o: Out, o2: Out)
    requires Building(o) && StartsMessage(o, o2)
    ensures Building(o2) && Content(o2) == Content(o)
  {
    forall i: nat | i < o.msgUsed ensures o2.msgs[i] == o.msgs[i] {
      assert o2.msgs[i] == o2.msgs[..o.msgUsed][i];
    }
    forall i: nat | i < o2.msgUsed ensures MsgOk(o2, i) {
      if i < o.msgUsed {
        assert MsgOk(o, i);
      }
    }
    assert o2.iov[o2.iovUsed..o2.iovUsed] == [];
    assert MsgOk(o, 0);
    if o.msgUsed == 1 {
      assert End(o2, 0) == o.iovUsed == End(o, 0);
    }
  }

  /** The first message of a fresh list. */
  lemma FreshBuilds(o: Out, o2: Out)
    requires o.msgUsed == 0 && o.msgCurr == 0 && o.iovUsed == 0 && 0 < |o.iov| && StartsMessage(o, o2)
    ensures Building(o2) && Content(o2) == []
  {
    assert MsgOk(o2, 0);
    assert o2.iov[0..0] == [];
  }

  // ----- a larger array

  /** `o2` has a new, larger array with the same slices; message `i` points at the sum of
      the lengths before it for every `i` below `n`. */
  ghost predicate Repointed(o: Out, o2: Out, n: nat, next: nat) {
    && o.msgUsed <= |o.msgs| == |o2.msgs| && n <= o.msgUsed
    && o.iovUsed <= |o.iov| <= |o2.iov| && o2.iov[..o.iovUsed] == o.iov[..o.iovUsed]
    && o2 == o.(iov := o2.iov, block := o2.block, msgs := o2.msgs)
    && (forall i :: 0 <= i < n ==> o2.msgs[i] == o.msgs[i].(block := o2.block))
    && (forall i :: n <= i < |o.msgs| ==> o2.msgs[i] == o.msgs[i])
    && next == if n < o.msgUsed then o.msgs[n].start else o.iovUsed
  }

  lemma RepointStep(o: Out, o2: Out, o3: Out, n: nat, next: nat)
    requires Building(o) && Repointed(o, o2, n, next) && n < o.msgUsed
    requires o3 == o2.(msgs := o2.msgs[n := o2.msgs[n].(block := o2.block, start := next)])
    ensures Repointed(o, o3, n + 1, next + o3.msgs[n].len)
  {
    assert MsgOk(o, n);
  }

  lemma RepointBuilds(o: Out, o2: Out, next: nat)
    requires Building(o) && Repointed(o, o2, o.msgUsed, next)
    ensures Building(o2) && Content(o2) == Content(o)
  {
    forall i: nat | i < o2.msgUsed ensures MsgOk(o2, i) {
      assert MsgOk(o, i);
    }
    SameSpan(o.iov, o2.iov, o.iovUsed, 0, o.iovUsed);
    SameSpan(o.iov, o2.iov, o.iovUsed, o.msgs[o.msgUsed - 1].start, o.iovUsed);
    SameSpan(o.iov, o2.iov, o.iovUsed, 0, End(o, 0));
  }

  lemma SameSpan(a: seq<IoVec>, b: seq<IoVec>, n: nat, lo: nat, hi: nat)
    requires n <= |a| && n <= |b| && a[..n] == b[..n] && lo <= hi <= n
    ensures Span(a, lo, hi) == Span(b, lo, hi)
  {
    assert a[lo..hi] == a[..n][lo..hi] && b[lo..hi] == b[..n][lo..hi];
  }

  // ----- a partial send

  /** The slices `lo` up to `hi` are non-empty, so their bytes are as many at least. */
  lemma {:induction false} SpanFront(iov: seq<IoVec>, lo: nat, hi: nat)
    requires lo < hi <= |iov|
    ensures Span(iov, lo, hi) == iov[lo].data + Span(iov, lo + 1, hi)
  {
    SpanSplit(iov, lo, lo + 1, hi);
    assert iov[lo..lo + 1] == [iov[lo]];
    assert Flat([iov[lo]]) == iov[lo].data + Flat([iov[lo]][1..]);
  }

  /** `o2` is `o` with the current message advanced to slice `at` and `cut` bytes of it gone. */
  ghost predicate Advances(o: Out, o2: Out, at: nat, cut: nat) {
    && o.msgCurr < o.msgUsed <= |o.msgs|
    && var m := o.msgs[o.msgCurr];
       && m.start <= at <= m.start + m.len <= |o.iov|
       && (cut > 0 ==> at < m.start + m.len && cut < |o.iov[at].data|)
       && o2 == o.(msgs := o.msgs[o.msgCurr := m.(start := at, len := m.start + m.len - at)],
                   iov := if cut > 0 then o.iov[at := IoVec(o.iov[at].data[cut..])] else o.iov)
  }

  /** What a partial send of `k` bytes leaves to be sent. */
  lemma AdvanceSends(o: Out, o2: Out, at: nat, cut: nat)
    requires Sending(o) && Advances(o, o2, at, cut)
    ensures Sending(o2)
    ensures var sent := |Span(o.iov, o.msgs[o.msgCurr].start, at)| + cut;
            sent <= |Pending(o)| && Pending(o2) == Pending(o)[sent..]
  {
    hide Flat;
    var m := o.msgs[o.msgCurr];
    assert MsgOk(o, o.msgCurr);
    forall i: nat | o2.msgCurr <= i < o2.msgUsed ensures MsgOk(o2, i) {
      assert MsgOk(o, i);
    }
    SpanSplit(o.iov, m.start, at, o.iovUsed);
    if cut > 0 {
      SpanFront(o.iov, at, o.iovUsed);
      SpanFront(o2.iov, at, o.iovUsed);
      assert o2.iov[at + 1..o.iovUsed] == o.iov[at + 1..o.iovUsed];
    }
  }

  /** A message that has been sent is followed by the next one. */
  lemma NextSends(o: Out)
    requires Sending(o) && o.msgCurr < o.msgUsed && o.msgs[o.msgCurr].len == 0
    ensures Sending(o.(msgCurr := o.msgCurr + 1))
    ensures Pending(o.(msgCurr := o.msgCurr + 1)) == Pending(o)
    ensures o.msgCurr + 1 < o.msgUsed ==> 0 < o.msgs[o.msgCurr + 1].len
  {
    var o2 := o.(msgCurr := o.msgCurr + 1);
    assert MsgOk(o, o.msgCurr);
    forall i: nat | o2.msgCurr <= i < o2.msgUsed ensures MsgOk(o2, i) {
      assert MsgOk(o, i);
    }
    if o2.msgCurr == o2.msgUsed {
      assert o.iov[o.iovUsed..o.iovUsed] == [];
    }
  }

  // ----- facts about a list being built, for use where its definition is hidden

  lemma BuildingFacts(o: Out)
    requires Building(o)
    ensures 0 < o.msgUsed <= |o.msgs| && o.iovUsed <= |o.iov| && 0 < |o.iov| && o.msgCurr == 0
    ensures var m := o.msgs[o.msgUsed - 1];
            m.block == o.block && m.start + m.len == o.iovUsed && m.len <= IOV_MAX
    ensures o.msgs[0].start == 0
    ensures o.msgUsed == 1 ==> o.msgBytes <= UDP_MAX_PAYLOAD
  {
    assert MsgOk(o, o.msgUsed - 1);
  }

  /** No slice is empty, nor any message but perhaps the last. */
  ghost predicate AlmostFilled(o: Out) {
    && Building(o)
    && (forall i :: 0 <= i < o.msgUsed - 1 ==> 0 < o.msgs[i].len)
    && (forall k :: 0 <= k < o.iovUsed ==> o.iov[k].data != [])
  }

  /** A message is started only after one that is full. */
  lemma StartAlmost(o: Out, o2: Out)
    requires Building(o) && StartsMessage(o, o2)
    requires o.msgs[o.msgUsed - 1].len == IOV_MAX || o.msgBytes >= UDP_MAX_PAYLOAD
    ensures AlmostFilled(o) ==> AlmostFilled(o2)
    ensures o2.msgs[o2.msgUsed - 1].len < IOV_MAX && o2.msgBytes == 0
  {
    StartBuilds(o, o2);
    var last := o.msgUsed - 1;
    assert MsgOk(o, last);
    assert o.iov[o.iovUsed..o.iovUsed] == [];
    forall i: nat | i < o.msgUsed ensures o2.msgs[i] == o.msgs[i] {
      assert o2.msgs[i] == o2.msgs[..o.msgUsed][i];
    }
  }

  lemma AlmostSame(o: Out, o2: Out)
    requires Building(o2) && o2.msgUsed == o.msgUsed <= |o.msgs| == |o2.msgs| && o2.iovUsed == o.iovUsed <= |o.iov|
    requires forall i :: 0 <= i < o.msgUsed ==> o2.msgs[i].len == o.msgs[i].len
    requires o2.iovUsed <= |o2.iov| && o2.iov[..o.iovUsed] == o.iov[..o.iovUsed]
    ensures AlmostFilled(o) ==> AlmostFilled(o2)
  {
    forall k | 0 <= k < o.iovUsed ensures o2.iov[k] == o.iov[k] {
      assert o2.iov[..o.iovUsed][k] == o.iov[..o.iovUsed][k];
    }
  }

  lemma AppendFills(o: Out, o2: Out, x: IoVec)
    requires Appends(o, o2, x) && Building(o2)
    ensures x.data != [] && AlmostFilled(o) ==> Filled(o2) && AlmostFilled(o2)
  {
  }

  lemma FreshAlmost(o: Out, o2: Out)
    requires o.msgUsed == 0 && o.msgCurr == 0 && o.iovUsed == 0 && 0 < |o.iov| && StartsMessage(o, o2)
    ensures AlmostFilled(o2) && Content(o2) == []
  {
    FreshBuilds(o, o2);
  }

  lemma FilledAlmost(o: Out)
    requires Filled(o)
    ensures AlmostFilled(o) && Building(o)
  {
  }

  // ----- facts about a list being sent

  lemma SendingFacts(o: Out)
    requires Sending(o)
    ensures o.msgCurr <= o.msgUsed <= |o.msgs| && o.iovUsed <= |o.iov|
    ensures o.msgCurr == o.msgUsed ==> Pending(o) == []
    ensures o.msgCurr < o.msgUsed ==>
              var m := o.msgs[o.msgCurr];
              m.block == o.block && m.start + m.len <= o.iovUsed && Pending(o) == Span(o.iov, m.start, o.iovUsed)
  {
    if o.msgCurr < o.msgUsed {
      assert MsgOk(o, o.msgCurr);
    }
  }

  lemma AdvanceStart(o: Out)
    requires Sending(o) && o.msgCurr < o.msgUsed
    ensures Advances(o, o, o.msgs[o.msgCurr].start, 0)
  {
    assert MsgOk(o, o.msgCurr);
  }

  /** One slice of the current message is gone entirely. */
  lemma AdvanceSlice(o: Out, p: Out, q: Out, at: nat)
    requires Advances(o, p, at, 0) && p.msgs[p.msgCurr].len > 0
    requires var m := p.msgs[p.msgCurr]; q == p.(msgs := p.msgs[p.msgCurr := m.(start := m.start + 1, len := m.len - 1)])
    ensures Advances(o, q, at + 1, 0) && p.msgs[p.msgCurr].start == at && p.iov == o.iov
    ensures |Span(o.iov, o.msgs[o.msgCurr].start, at + 1)| == |Span(o.iov, o.msgs[o.msgCurr].start, at)| + |o.iov[at].data|
  {
    var start := o.msgs[o.msgCurr].start;
    SpanSplit(o.iov, start, at, at + 1);
    SpanFront(o.iov, at, at + 1);
    assert o.iov[at + 1..at + 1] == [];
  }

  /** No more can have been accepted than the message holds. */
  lemma AdvanceBound(o: Out, p: Out, at: nat, res: nat, k: nat)
    requires Advances(o, p, at, 0)
    requires var m := o.msgs[o.msgCurr];
             res + |Span(o.iov, m.start, at)| == k <= |Span(o.iov, m.start, m.start + m.len)|
    ensures p.msgs[p.msgCurr].start == at && p.iov == o.iov && (res > 0 ==> p.msgs[p.msgCurr].len > 0)
  {
  }

  lemma AdvanceCut(o: Out, p: Out, q: Out, at: nat, res: nat)
    requires Advances(o, p, at, 0) && 0 < res && p.msgs[p.msgCurr].len > 0 && at < |p.iov| && res < |p.iov[at].data|
    requires q == p.(iov := p.iov[at := IoVec(p.iov[at].data[res..])])
    ensures Advances(o, q, at, res)
  {
  }
}
