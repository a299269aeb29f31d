/** The hand-off of new connections from the dispatcher to the workers as interleaved
    steps: each critical section, pipe write and pipe read is one step of one thread. */
module Handoff {

  type Item = nat
  type Sfd = int

  /** Where the dispatcher is within `dispatch_conn_new`. */
  datatype DispatcherPc =
    | Idle
    | Allocating(sfd: Sfd)                        // the free list was empty
    | Linking(sfd: Sfd, batch: seq<Item>)         // a new batch is not on the free list yet
    | Filling(sfd: Sfd, item: Item)
    | Pushing(item: Item, tid: nat)
    | Signalling(tid: nat)

  /** Where a worker is within `thread_libevent_process`. */
  datatype WorkerPc = Sleeping | Popping | Opening(item: Item) | Freeing(item: Item)

  /** A worker's queue, the bytes in its wakeup pipe, and the connections it has opened. */
  datatype Worker = Worker(queue: seq<Item>, pipe: nat, pc: WorkerPc, served: seq<Sfd>)

  /** `contents` is the descriptor that was stored in an item last; `given` logs, per
      worker, the connections dispatched to it. */
  datatype State = State(
    freelist: seq<Item>, nextNew: nat, contents: map<Item, Sfd>,
    pc: DispatcherPc, lastThread: int, workers: seq<Worker>,
    given: seq<seq<Sfd>>, dispatched: seq<Sfd>)

  const ITEMS_PER_ALLOC: nat := 64

  // ----- the steps

  datatype Event =
    | Accept(sfd: Sfd) | TakeFree | Allocate | Link | Fill | Push | Signal
    | Wake(w: nat) | Pop(w: nat) | Open(w: nat) | Free(w: nat)

  function Range(lo: nat, n: nat): (s: seq<Item>)
    ensures |s| == n && forall i :: 0 <= i < n ==> s[i] == lo + i
  {
    seq(n, i requires 0 <= i < n => lo + i)
  }

  ghost predicate Enabled(s: State, e: Event) {
    match e
    case Accept(_) => s.pc.Idle? && 0 < |s.workers|
    case TakeFree => s.pc.Allocating? && s.freelist != []
    case Allocate => s.pc.Allocating? && s.freelist == []
    case Link => s.pc.Linking? && |s.pc.batch| == ITEMS_PER_ALLOC
    case Fill => s.pc.Filling? && 0 < |s.workers| && |s.given| == |s.workers|
    case Push => s.pc.Pushing? && s.pc.tid < |s.workers|
    case Signal => s.pc.Signalling? && s.pc.tid < |s.workers|
    case Wake(w) => w < |s.workers| && s.workers[w].pc.Sleeping? && 0 < s.workers[w].pipe
    case Pop(w) => w < |s.workers| && s.workers[w].pc.Popping?
    case Open(w) => w < |s.workers| && s.workers[w].pc.Opening? && s.workers[w].pc.item in s.contents
    case Free(w) => w < |s.workers| && s.workers[w].pc.Freeing?
  }

  /** The worker the next connection goes to. */
  function NextThread(s: State): nat
    requires 0 < |s.workers|
  {
    (s.lastThread + 1) % |s.workers|
  }

  ghost function Apply(s: State, e: Event): State
    requires Enabled(s, e)
  {
    match e
    case Accept(sfd) => s.(pc := Allocating(sfd))
    case TakeFree => s.(pc := Filling(s.pc.sfd, s.freelist[0]), freelist := s.freelist[1..])
    case Allocate =>
      s.(pc := Linking(s.pc.sfd, Range(s.nextNew, ITEMS_PER_ALLOC)), nextNew := s.nextNew + ITEMS_PER_ALLOC)
    case Link => s.(pc := Filling(s.pc.sfd, s.pc.batch[0]), freelist := s.pc.batch[1..] + s.freelist)
    case Fill =>
      var tid := NextThread(s);
      s.(pc := Pushing(s.pc.item, tid), lastThread := tid, contents := s.contents[s.pc.item := s.pc.sfd],
         given := s.given[tid := s.given[tid] + [s.pc.sfd]], dispatched := s.dispatched + [s.pc.sfd])
    case Push =>
      var w := s.workers[s.pc.tid];
      s.(pc := Signalling(s.pc.tid), workers := s.workers[s.pc.tid := w.(queue := w.queue + [s.pc.item])])
    case Signal =>
      var w := s.workers[s.pc.tid];
      s.(pc := Idle, workers := s.workers[s.pc.tid := w.(pipe := w.pipe + 1)])
    case Wake(w) =>
      s.(workers := s.workers[w := s.workers[w].(pipe := s.workers[w].pipe - 1, pc := Popping)])
    case Pop(w) =>
      var k := s.workers[w];
      if k.queue == [] then s.(workers := s.workers[w := k.(pc := Sleeping)])
      else s.(workers := s.workers[w := k.(pc := Opening(k.queue[0]), queue := k.queue[1..])])
    case Open(w) =>
      var k := s.workers[w];
      s.(workers := s.workers[w := k.(pc := Freeing(k.pc.item), served := k.served + [s.contents[k.pc.item]])])
    case Free(w) =>
      var k := s.workers[w];
      s.(workers := s.workers[w := k.(pc := Sleeping)], freelist := [k.pc.item] + s.freelist)
  }

  ghost predicate Init(s: State) {
    && s.freelist == [] && s.nextNew == 0 && s.contents == map[] && s.pc == Idle && s.lastThread == -1
    && s.dispatched == [] && |s.given| == |s.workers|
    && forall w :: 0 <= w < |s.workers| ==> s.workers[w] == Worker([], 0, Sleeping, []) && s.given[w] == []
  }

  /** The events `es` lead from `s0` to `s`. */
  ghost predicate Run(s0: State, es: seq<Event>, s: State)
    decreases |es|
  {
    if es == [] then s == s0
    else Enabled(s0, es[0]) && Run(Apply(s0, es[0]), es[1..], s)
  }

  // ----- every item is in one place

  function InHands(pc: DispatcherPc): multiset<Item> {
    match pc
    case Linking(_, batch) => multiset(batch)
    case Filling(_, item) => multiset{item}
    case Pushing(item, _) => multiset{item}
    case _ => multiset{}
  }

  function WorkerItems(w: Worker): multiset<Item> {
    multiset(w.queue)
    + match w.pc
      case Opening(item) => multiset{item}
      case Freeing(item) => multiset{item}
      case _ => multiset{}
  }

  function AllWorkerItems(ws: seq<Worker>): multiset<Item> {
    if ws == [] then multiset{} else AllWorkerItems(ws[..|ws| - 1]) + WorkerItems(ws[|ws| - 1])
  }

  /** All places an item can be in: the free list, the dispatcher's hands, a queue, a worker's hands. */
  function Places(s: State): multiset<Item> {
    multiset(s.freelist) + InHands(s.pc) + AllWorkerItems(s.workers)
  }

  lemma AddToBoth(a: multiset<Item>, b: multiset<Item>, c: multiset<Item>, d: multiset<Item>, x: multiset<Item>)
    requires a + b == c + d
    ensures a + x + b == c + x + d
  {
    forall i: Item ensures (a + x + b)[i] == (c + x + d)[i] {
      assert (a + b)[i] == (c + d)[i];
    }
  }

  lemma {:induction false} WorkerItemsUpdate(ws: seq<Worker>, w: nat, k: Worker)
    requires w < |ws|
    ensures AllWorkerItems(ws[w := k]) + WorkerItems(ws[w]) == AllWorkerItems(ws) + WorkerItems(k)
  {
    hide WorkerItems;
    var n := |ws| - 1;
    if w < n {
      WorkerItemsUpdate(ws[..n], w, k);
      assert ws[w := k][..n] == ws[..n][w := k];
      AddToBoth(AllWorkerItems(ws[w := k][..n]), WorkerItems(ws[w]), AllWorkerItems(ws[..n]), WorkerItems(k), WorkerItems(ws[n]));
    } else {
      assert ws[w := k][..n] == ws[..n];
    }
  }

  lemma {:induction false} WorkerItemsHas(ws: seq<Worker>, w: nat)
    requires w < |ws|
    ensures WorkerItems(ws[w]) <= AllWorkerItems(ws)
  {
    hide WorkerItems;
    var n := |ws| - 1;
    if w == n {
    } else {
      WorkerItemsHas(ws[..n], w);
    }
  }

  lemma {:induction false} NoWorkerItems(ws: seq<Worker>)
    requires forall w :: 0 <= w < |ws| ==> ws[w].queue == [] && ws[w].pc.Sleeping?
    ensures AllWorkerItems(ws) == multiset{}
  {
    if ws == [] {
    } else {
      NoWorkerItems(ws[..|ws| - 1]);
    }
  }

  /** Each item allocated so far is in exactly one place, and no other item is anywhere. */
  ghost predicate OnePlace(s: State) {
    forall i: Item :: Places(s)[i] == if i < s.nextNew then 1 else 0
  }

  // ----- wakeups and connections

  function One(b: bool): nat {
    if b then 1 else 0
  }

  /** A worker's queue holds one item per byte in its pipe, per push not signalled yet,
      and per wakeup not popped yet. */
  ghost predicate Awaited(s: State, w: nat)
    requires w < |s.workers|
  {
    |s.workers[w].queue| == s.workers[w].pipe + One(s.pc == Signalling(w)) + One(s.workers[w].pc.Popping?)
  }

  function Contents(items: seq<Item>, contents: map<Item, Sfd>): seq<Sfd>
    requires forall i :: i in items ==> i in contents
  {
    seq(|items|, k requires 0 <= k < |items| => contents[items[k]])
  }

  /** The items on their way to worker `w`, the first to be served first. */
  function OnTheWay(s: State, w: nat): seq<Item>
    requires w < |s.workers|
  {
    (if s.workers[w].pc.Opening? then [s.workers[w].pc.item] else [])
    + s.workers[w].queue
    + (if s.pc.Pushing? && s.pc.tid == w then [s.pc.item] else [])
  }

  /** The connections dispatched to a worker are those it has opened and then those on
      their way, in order. */
  ghost predicate Delivered(s: State, w: nat)
    requires w < |s.workers| == |s.given|
  {
    && (forall i :: i in OnTheWay(s, w) ==> i in s.contents)
    && s.given[w] == s.workers[w].served + Contents(OnTheWay(s, w), s.contents)
  }

  // ----- round robin

  /** Every `n`-th connection from number `from` on. */
  ghost function EveryNth(all: seq<Sfd>, n: nat, w: nat): seq<Sfd>
    requires 0 < n
  {
    if all == [] then []
    else
      EveryNth(all[..|all| - 1], n, w)
      + if (|all| - 1) % n == w then [all[|all| - 1]] else []
  }

  /** Connection number `k` was dispatched to worker `k` modulo their number. */
  ghost predicate RoundRobin(s: State)
    requires 0 < |s.workers| == |s.given|
  {
    && (s.lastThread + 1) % |s.workers| == |s.dispatched| % |s.workers|
    && forall w :: 0 <= w < |s.workers| ==> s.given[w] == EveryNth(s.dispatched, |s.workers|, w)
  }

  ghost predicate Inv(s: State) {
    && |s.given| == |s.workers|
    && OnePlace(s)
    && (!s.pc.Idle? ==> 0 < |s.workers|)
    && (s.pc.Linking? ==> |s.pc.batch| == ITEMS_PER_ALLOC)
    && (s.pc.Pushing? || s.pc.Signalling? ==> s.pc.tid < |s.workers|)
    && (forall w :: 0 <= w < |s.workers| ==> Awaited(s, w) && Delivered(s, w))
    && (|s.workers| > 0 ==> RoundRobin(s))
  }

  // ----- the invariant holds initially and is kept by every step

  lemma InitInv(s: State)
    requires Init(s)
    ensures Inv(s)
  {
    NoWorkerItems(s.workers);
    forall w | 0 <= w < |s.workers| ensures Awaited(s, w) && Delivered(s, w) {
      assert s.workers[w] == Worker([], 0, Sleeping, []);
    }
  }

  /** Taking an element off the front. */
  lemma TakeFront(q: seq<Item>)
    requires q != []
    ensures multiset(q) == multiset{q[0]} + multiset(q[1..])
  {
    assert q == [q[0]] + q[1..];
  }

  /** Replacing a worker changes the places by what it holds. */
  lemma PlacesUpdate(s: State, t: State, w: nat)
    requires w < |s.workers| && |t.workers| == |s.workers| && t.workers == s.workers[w := t.workers[w]]
    requires multiset(t.freelist) + InHands(t.pc) + WorkerItems(t.workers[w])
          == multiset(s.freelist) + InHands(s.pc) + WorkerItems(s.workers[w])
    ensures Places(t) == Places(s)
  {
    hide WorkerItems, InHands, AllWorkerItems;
    WorkerItemsUpdate(s.workers, w, t.workers[w]);
    var rest := multiset(s.freelist) + InHands(s.pc);
    var rest2 := multiset(t.freelist) + InHands(t.pc);
    forall i: Item ensures Places(t)[i] == Places(s)[i] {
      assert (rest2 + WorkerItems(t.workers[w]))[i] == (rest + WorkerItems(s.workers[w]))[i];
      assert (AllWorkerItems(t.workers) + WorkerItems(s.workers[w]))[i]
          == (AllWorkerItems(s.workers) + WorkerItems(t.workers[w]))[i];
    }
  }

  lemma PlacesAcceptFill(s: State, e: Event)
    requires Enabled(s, e) && (e.Accept? || e.Fill?)
    ensures Places(Apply(s, e)) == Places(s)
  {
    hide AllWorkerItems, Range, WorkerItems;
  }

  lemma PlacesTakeFree(s: State)
    requires Enabled(s, TakeFree)
    ensures Places(Apply(s, TakeFree)) == Places(s)
  {
    hide AllWorkerItems, Range, WorkerItems;
    TakeFront(s.freelist);
    assert InHands(s.pc) == multiset{};
    Exchanged(multiset{s.freelist[0]}, multiset(s.freelist[1..]), AllWorkerItems(s.workers));
  }

  lemma Rotated(a: multiset<Item>, b: multiset<Item>, c: multiset<Item>, d: multiset<Item>)
    ensures a + (b + c) + d == (c + a) + b + d
  {
  }

  lemma Exchanged(a: multiset<Item>, b: multiset<Item>, c: multiset<Item>)
    ensures (a + b) + multiset{} + c == b + a + c
  {
  }

  lemma PlacesLink(s: State)
    requires Enabled(s, Link)
    ensures Places(Apply(s, Link)) == Places(s)
  {
    hide AllWorkerItems, Range, WorkerItems;
    TakeFront(s.pc.batch);
    assert multiset(Apply(s, Link).freelist) == multiset(s.pc.batch[1..]) + multiset(s.freelist);
    Rotated(multiset(s.freelist), multiset{s.pc.batch[0]}, multiset(s.pc.batch[1..]), AllWorkerItems(s.workers));
  }

  lemma PlacesAllocate(s: State)
    requires Enabled(s, Allocate)
    ensures Places(Apply(s, Allocate)) == Places(s) + multiset(Range(s.nextNew, ITEMS_PER_ALLOC))
  {
    hide AllWorkerItems;
  }

  lemma PlacesPush(s: State)
    requires Enabled(s, Push)
    ensures Places(Apply(s, Push)) == Places(s)
  {
    hide AllWorkerItems, Places;
    var t, w, x := Apply(s, Push), s.workers[s.pc.tid], s.pc.item;
    assert WorkerItems(w.(queue := w.queue + [x])) == WorkerItems(w) + multiset{x};
    assert InHands(s.pc) == multiset{x} && InHands(t.pc) == multiset{};
    hide WorkerItems, InHands;
    PlacesUpdate(s, t, s.pc.tid);
  }

  lemma PlacesSignal(s: State)
    requires Enabled(s, Signal)
    ensures Places(Apply(s, Signal)) == Places(s)
  {
    hide AllWorkerItems, Places;
    PlacesUpdate(s, Apply(s, Signal), s.pc.tid);
  }

  lemma PlacesPop(s: State, w: nat)
    requires Enabled(s, Pop(w))
    ensures Places(Apply(s, Pop(w))) == Places(s)
  {
    hide AllWorkerItems, Places, InHands;
    var t, k := Apply(s, Pop(w)), s.workers[w];
    if k.queue != [] {
      TakeFront(k.queue);
    }
    assert WorkerItems(t.workers[w]) == WorkerItems(k);
    hide WorkerItems;
    PlacesUpdate(s, t, w);
  }

  lemma PlacesFree(s: State, w: nat)
    requires Enabled(s, Free(w))
    ensures Places(Apply(s, Free(w))) == Places(s)
  {
    hide AllWorkerItems, Places, InHands;
    var t, k, x := Apply(s, Free(w)), s.workers[w], s.workers[w].pc.item;
    assert multiset(t.freelist) == multiset{x} + multiset(s.freelist);
    assert WorkerItems(k) == WorkerItems(t.workers[w]) + multiset{x};
    hide WorkerItems;
    PlacesUpdate(s, t, w);
  }

  lemma PlacesWakeOpen(s: State, e: Event, w: nat)
    requires Enabled(s, e) && (e == Wake(w) || e == Open(w))
    ensures Places(Apply(s, e)) == Places(s)
  {
    hide AllWorkerItems, Places, InHands;
    var t := Apply(s, e);
    assert WorkerItems(t.workers[w]) == WorkerItems(s.workers[w]);
    hide WorkerItems;
    PlacesUpdate(s, t, w);
  }

  /** Only an allocation adds to the places. */
  lemma PlacesStep(s: State, e: Event)
    requires Enabled(s, e)
    ensures e.Allocate? ==> Places(Apply(s, e)) == Places(s) + multiset(Range(s.nextNew, ITEMS_PER_ALLOC))
    ensures !e.Allocate? ==> Places(Apply(s, e)) == Places(s)
  {
    hide Places, Apply, Enabled;
    match e {
      case Accept(_) => PlacesAcceptFill(s, e);
      case TakeFree => PlacesTakeFree(s);
      case Allocate => PlacesAllocate(s);
      case Link => PlacesLink(s);
      case Fill => PlacesAcceptFill(s, e);
      case Push => PlacesPush(s);
      case Signal => PlacesSignal(s);
      case Wake(w) => PlacesWakeOpen(s, e, w);
      case Pop(w) => PlacesPop(s, w);
      case Open(w) => PlacesWakeOpen(s, e, w);
      case Free(w) => PlacesFree(s, w);
    }
  }

  lemma {:induction false} RangeCount(lo: nat, n: nat, i: Item)
    ensures multiset(Range(lo, n))[i] == if lo <= i < lo + n then 1 else 0
    decreases n
  {
    if n == 0 {
    } else {
      RangeCount(lo, n - 1, i);
      assert Range(lo, n) == Range(lo, n - 1) + [lo + n - 1];
    }
  }

  lemma OnePlaceStep(s: State, e: Event)
    requires OnePlace(s) && Enabled(s, e)
    ensures OnePlace(Apply(s, e))
  {
    hide Places, Apply, Enabled, Range;
    PlacesStep(s, e);
    NextNewStep(s, e);
    forall i: Item ensures Places(Apply(s, e))[i] == if i < Apply(s, e).nextNew then 1 else 0 {
      if e.Allocate? {
        RangeCount(s.nextNew, ITEMS_PER_ALLOC, i);
      }
    }
  }

  lemma NextNewStep(s: State, e: Event)
    requires Enabled(s, e)
    ensures Apply(s, e).nextNew == s.nextNew + if e.Allocate? then ITEMS_PER_ALLOC else 0
  {
  }

  lemma AwaitedStep(s: State, e: Event, w: nat)
    requires Inv(s) && Enabled(s, e) && w < |s.workers|
    ensures |Apply(s, e).workers| == |s.workers| && Awaited(Apply(s, e), w)
  {
    hide OnePlace, Delivered, RoundRobin;
    assert Awaited(s, w);
  }

  /** An item in the dispatcher's hands is on its way to no worker. */
  lemma NotOnTheWay(s: State, w: nat)
    requires OnePlace(s) && s.pc.Filling? && w < |s.workers|
    ensures s.pc.item !in OnTheWay(s, w)
  {
    var i := s.pc.item;
    WorkerItemsHas(s.workers, w);
    assert Places(s)[i] == 1;
  }

  lemma SameContents(items: seq<Item>, a: map<Item, Sfd>, b: map<Item, Sfd>)
    requires forall i :: i in items ==> i in a && i in b && a[i] == b[i]
    ensures Contents(items, a) == Contents(items, b)
  {
    forall k | 0 <= k < |items| ensures Contents(items, a)[k] == Contents(items, b)[k] {
      assert items[k] in items;
    }
  }

  lemma ContentsSnoc(items: seq<Item>, x: Item, c: map<Item, Sfd>)
    requires x in c && forall i :: i in items ==> i in c
    ensures Contents(items + [x], c) == Contents(items, c) + [c[x]]
  {
  }

  lemma ContentsFront(items: seq<Item>, c: map<Item, Sfd>)
    requires items != [] && forall i :: i in items ==> i in c
    ensures Contents(items, c) == [c[items[0]]] + Contents(items[1..], c)
  {
  }

  /** Storing the descriptor counts as dispatching; the item comes last on its worker's way. */
  lemma DeliveredFill(s: State, w: nat)
    requires Inv(s) && Enabled(s, Fill) && w < |s.workers|
    ensures Delivered(Apply(s, Fill), w)
  {
    hide RoundRobin, Awaited;
    var t, x := Apply(s, Fill), s.pc.item;
    assert Delivered(s, w);
    NotOnTheWay(s, w);
    SameContents(OnTheWay(s, w), s.contents, t.contents);
    if w == NextThread(s) {
      assert OnTheWay(t, w) == OnTheWay(s, w) + [x];
      ContentsSnoc(OnTheWay(s, w), x, t.contents);
    } else {
      assert OnTheWay(t, w) == OnTheWay(s, w);
    }
  }

  /** Opening a connection takes the first item off the way. */
  lemma DeliveredOpen(s: State, w: nat)
    requires Inv(s) && Enabled(s, Open(w))
    ensures Delivered(Apply(s, Open(w)), w)
  {
    hide RoundRobin, Awaited, OnePlace;
    var t, x := Apply(s, Open(w)), s.workers[w].pc.item;
    assert Delivered(s, w);
    var way := OnTheWay(s, w);
    assert way == [x] + OnTheWay(t, w);
    assert way[0] == x && way[1..] == OnTheWay(t, w);
    ContentsFront(way, s.contents);
  }

  /** The other steps leave the way of a worker as it is. */
  lemma DeliveredOther(s: State, e: Event, w: nat)
    requires Inv(s) && Enabled(s, e) && w < |s.workers| && !e.Fill? && e != Open(w)
    ensures |Apply(s, e).workers| == |s.workers| == |Apply(s, e).given| && Delivered(Apply(s, e), w)
  {
    hide RoundRobin, Awaited, OnePlace, Enabled, Apply, OnTheWay;
    OtherSteps(s, e, w);
    assert Delivered(s, w);
  }

  /** What worker `w` has been given, what it has opened, and its way are the same in `t`. */
  predicate SameWay(s: State, t: State, w: nat)
    requires w < |s.workers|
  {
    && |t.workers| == |s.workers| && t.contents == s.contents && t.given == s.given
    && t.workers[w].served == s.workers[w].served && OnTheWay(t, w) == OnTheWay(s, w)
  }

  lemma OtherDispatcherSteps(s: State, e: Event, w: nat)
    requires Enabled(s, e) && w < |s.workers| && (e.Accept? || e.TakeFree? || e.Allocate? || e.Link?)
    ensures SameWay(s, Apply(s, e), w)
  {
    hide Range;
  }

  lemma OtherQueueSteps(s: State, e: Event, w: nat)
    requires Enabled(s, e) && w < |s.workers| && (e.Push? || e.Signal?)
    ensures SameWay(s, Apply(s, e), w)
  {
  }

  lemma OtherWorkerSteps(s: State, e: Event, v: nat, w: nat)
    requires Enabled(s, e) && w < |s.workers|
    requires e == Wake(v) || e == Pop(v) || e == Free(v) || (e == Open(v) && v != w)
    ensures SameWay(s, Apply(s, e), w)
  {
  }

  lemma OtherSteps(s: State, e: Event, w: nat)
    requires Enabled(s, e) && w < |s.workers| && !e.Fill? && e != Open(w)
    ensures SameWay(s, Apply(s, e), w)
  {
    hide Enabled, Apply, SameWay;
    match e {
      case Wake(v) => OtherWorkerSteps(s, e, v, w);
      case Pop(v) => OtherWorkerSteps(s, e, v, w);
      case Open(v) => OtherWorkerSteps(s, e, v, w);
      case Free(v) => OtherWorkerSteps(s, e, v, w);
      case Push => OtherQueueSteps(s, e, w);
      case Signal => OtherQueueSteps(s, e, w);
      case _ => OtherDispatcherSteps(s, e, w);
    }
  }

  lemma DeliveredStep(s: State, e: Event, w: nat)
    requires Inv(s) && Enabled(s, e) && w < |s.workers|
    ensures |Apply(s, e).workers| == |s.workers| == |Apply(s, e).given| && Delivered(Apply(s, e), w)
  {
    if e.Fill? {
      DeliveredFill(s, w);
    } else if e == Open(w) {
      DeliveredOpen(s, w);
    } else {
      DeliveredOther(s, e, w);
    }
  }

  lemma NextModulo(a: nat, b: nat, n: nat)
    requires 0 < n && a == b % n
    ensures (a + 1) % n == (b + 1) % n
  {
    var q := b / n;
    assert b + 1 == n * q + (a + 1);
    if a + 1 == n {
      assert b + 1 == n * (q + 1) + 0;
      Modulo(n, q + 1, 0);
      Modulo(n, 1, 0);
    } else {
      Modulo(n, q, a + 1);
      Modulo(n, 0, a + 1);
    }
  }

  lemma Modulo(n: nat, q: nat, r: nat)
    requires r < n
    ensures (n * q + r) % n == r
  {
    var q2 := (n * q + r) / n;
    if q2 < q {
      Multiples(n, q2 + 1, q);
    } else if q < q2 {
      Multiples(n, q + 1, q2);
    }
  }

  lemma Multiples(n: nat, a: nat, b: nat)
    requires a <= b
    ensures n * a <= n * b
  {
  }

  lemma RoundRobinStep(s: State, e: Event)
    requires Inv(s) && Enabled(s, e) && 0 < |s.workers|
    ensures RoundRobin(Apply(s, e))
  {
    hide OnePlace, Awaited, Delivered;
    var t, n := Apply(s, e), |s.workers|;
    if e.Fill? {
      NextModulo(NextThread(s), |s.dispatched|, n);
      assert t.dispatched[..|t.dispatched| - 1] == s.dispatched;
      forall w | 0 <= w < n ensures t.given[w] == EveryNth(t.dispatched, n, w) {
        assert s.given[w] == EveryNth(s.dispatched, n, w);
      }
    }
  }

  lemma StepInv(s: State, e: Event)
    requires Inv(s) && Enabled(s, e)
    ensures Inv(Apply(s, e))
  {
    OnePlaceStep(s, e);
    var t := Apply(s, e);
    forall w | 0 <= w < |t.workers| ensures Awaited(t, w) && Delivered(t, w) {
      AwaitedStep(s, e, w);
      DeliveredStep(s, e, w);
    }
    if 0 < |s.workers| {
      RoundRobinStep(s, e);
    }
    hide OnePlace, Awaited, Delivered, RoundRobin;
  }

  lemma {:induction false} RunInv(s0: State, es: seq<Event>, s: State)
    requires Inv(s0) && Run(s0, es, s)
    ensures Inv(s) && |s.workers| == |s0.workers|
    decreases |es|
  {
    if es == [] {
    } else {
      StepInv(s0, es[0]);
      hide Inv;
      RunInv(Apply(s0, es[0]), es[1..], s);
    }
  }

  // ----- what it means

  /** In every run a worker that was woken finds an item. */
  lemma WakeupFindsItem(s0: State, es: seq<Event>, s: State, w: nat)
    requires Init(s0) && Run(s0, es, s) && w < |s.workers| && s.workers[w].pc.Popping?
    ensures s.workers[w].queue != []
  {
    InitInv(s0);
    RunInv(s0, es, s);
    assert Awaited(s, w);
  }

  /** When a worker has no more wakeups and the dispatcher is between connections, that
      worker has opened every connection dispatched to it, in order: each `n`-th one. */
  lemma QuietWorkerServedAll(s0: State, es: seq<Event>, s: State, w: nat)
    requires Init(s0) && Run(s0, es, s) && w < |s.workers|
    requires s.pc.Idle? && s.workers[w].pipe == 0 && s.workers[w].pc.Sleeping?
    ensures s.workers[w].served == EveryNth(s.dispatched, |s.workers|, w)
  {
    InitInv(s0);
    RunInv(s0, es, s);
    assert Awaited(s, w) && Delivered(s, w);
    assert OnTheWay(s, w) == [];
  }

  /** At any point of any run, what a worker has opened are the first of the connections
      dispatched to it. */
  lemma ServedInOrder(s0: State, es: seq<Event>, s: State, w: nat)
    requires Init(s0) && Run(s0, es, s) && w < |s.workers|
    ensures s.workers[w].served <= EveryNth(s.dispatched, |s.workers|, w)
  {
    InitInv(s0);
    RunInv(s0, es, s);
    assert Delivered(s, w);
  }

  // ----- progress

  /** A worker that is not asleep, or has a wakeup to read. */
  predicate Busy(s: State, w: nat)
    requires w < |s.workers|
  {
    !s.workers[w].pc.Sleeping? || 0 < s.workers[w].pipe
  }

  /** What the dispatcher does next. */
  function DispatcherStep(s: State): Event
    requires !s.pc.Idle?
  {
    match s.pc
    case Allocating(_) => if s.freelist == [] then Allocate else TakeFree
    case Linking(_, _) => Link
    case Filling(_, _) => Fill
    case Pushing(_, _) => Push
    case Signalling(_) => Signal
  }

  /** What worker `w` does next. */
  function WorkerStep(s: State, w: nat): Event
    requires w < |s.workers| && Busy(s, w)
  {
    match s.workers[w].pc
    case Sleeping => Wake(w)
    case Popping => Pop(w)
    case Opening(_) => Open(w)
    case Freeing(_) => Free(w)
  }

  /** No thread is ever stuck on what its next step takes for granted. */
  lemma NextEnabled(s: State)
    requires Inv(s)
    ensures !s.pc.Idle? ==> Enabled(s, DispatcherStep(s)) && !DispatcherStep(s).Accept?
    ensures forall w :: 0 <= w < |s.workers| && Busy(s, w) ==> Enabled(s, WorkerStep(s, w)) && !WorkerStep(s, w).Accept?
  {
    hide OnePlace, RoundRobin, Awaited, Apply;
    forall w | 0 <= w < |s.workers| && Busy(s, w) ensures Enabled(s, WorkerStep(s, w)) && !WorkerStep(s, w).Accept? {
      assert Delivered(s, w);
      if s.workers[w].pc.Opening? {
        assert OnTheWay(s, w)[0] == s.workers[w].pc.item;
      }
    }
  }

  /** How many steps are left at most until all is quiet, if nothing more is accepted. */
  function DispatcherWork(pc: DispatcherPc): nat {
    match pc
    case Idle => 0
    case Signalling(_) => 6
    case Pushing(_, _) => 7
    case Filling(_, _) => 8
    case Linking(_, _) => 9
    case Allocating(_) => 10
  }

  function WorkerWork(w: Worker): nat {
    5 * w.pipe
    + match w.pc
      case Sleeping => 0
      case Freeing(_) => 1
      case Opening(_) => 2
      case Popping => 4
  }

  function WorkersWork(ws: seq<Worker>): nat {
    if ws == [] then 0 else WorkersWork(ws[..|ws| - 1]) + WorkerWork(ws[|ws| - 1])
  }

  function Work(s: State): nat {
    DispatcherWork(s.pc) + WorkersWork(s.workers)
  }

  lemma {:induction false} WorkersWorkUpdate(ws: seq<Worker>, w: nat, k: Worker)
    requires w < |ws|
    ensures WorkersWork(ws[w := k]) + WorkerWork(ws[w]) == WorkersWork(ws) + WorkerWork(k)
  {
    hide WorkerWork;
    var n := |ws| - 1;
    if w < n {
      WorkersWorkUpdate(ws[..n], w, k);
      assert ws[w := k][..n] == ws[..n][w := k];
    } else {
      assert ws[w := k][..n] == ws[..n];
    }
  }

  lemma DispatcherWorkStep(s: State, e: Event)
    requires Enabled(s, e) && (e.TakeFree? || e.Allocate? || e.Link? || e.Fill?)
    ensures Work(Apply(s, e)) < Work(s)
  {
    hide WorkersWork, WorkerWork;
  }

  lemma QueueWorkStep(s: State, e: Event)
    requires Enabled(s, e) && (e.Push? || e.Signal?)
    ensures Work(Apply(s, e)) < Work(s)
  {
    hide WorkersWork;
    WorkersWorkUpdate(s.workers, s.pc.tid, Apply(s, e).workers[s.pc.tid]);
  }

  lemma WorkerWorkStep(s: State, e: Event, w: nat)
    requires Enabled(s, e) && (e == Wake(w) || e == Pop(w) || e == Open(w) || e == Free(w))
    ensures Work(Apply(s, e)) < Work(s)
  {
    hide WorkersWork;
    WorkersWorkUpdate(s.workers, w, Apply(s, e).workers[w]);
  }

  /** Every step but an accepted connection brings the end closer. */
  lemma WorkStep(s: State, e: Event)
    requires Enabled(s, e) && !e.Accept?
    ensures Work(Apply(s, e)) < Work(s)
  {
    hide Enabled, Apply, Work;
    match e {
      case TakeFree => DispatcherWorkStep(s, e);
      case Allocate => DispatcherWorkStep(s, e);
      case Link => DispatcherWorkStep(s, e);
      case Fill => DispatcherWorkStep(s, e);
      case Push => QueueWorkStep(s, e);
      case Signal => QueueWorkStep(s, e);
      case Wake(w) => WorkerWorkStep(s, e, w);
      case Pop(w) => WorkerWorkStep(s, e, w);
      case Open(w) => WorkerWorkStep(s, e, w);
      case Free(w) => WorkerWorkStep(s, e, w);
    }
  }

  ghost predicate NoAccept(es: seq<Event>) {
    forall e :: e in es ==> !e.Accept?
  }

  /** So a run in which nothing is accepted is bounded from its start. */
  lemma {:induction false} RunBounded(s0: State, es: seq<Event>, s: State)
    requires Run(s0, es, s) && NoAccept(es)
    ensures |es| + Work(s) <= Work(s0)
    decreases |es|
  {
    hide Enabled, Apply, Work;
    if es == [] {
    } else {
      assert es[0] in es;
      WorkStep(s0, es[0]);
      RunBounded(Apply(s0, es[0]), es[1..], s);
    }
  }

  ghost predicate Quiet(s: State) {
    s.pc.Idle? && forall w :: 0 <= w < |s.workers| ==> !Busy(s, w)
  }

  /** Nothing can happen but that a connection is accepted. */
  ghost predicate Resting(s: State) {
    forall e: Event :: Enabled(s, e) ==> e.Accept?
  }

  /** Where no thread can go on, none has anything left to do. */
  lemma RestingIsQuiet(s: State)
    requires Inv(s) && Resting(s)
    ensures Quiet(s)
  {
    hide Inv, Enabled, Busy, WorkerStep, DispatcherStep;
    NextEnabled(s);
  }

  /** From every reachable state all becomes quiet when the threads go on. */
  lemma {:induction false} ReachesQuiet(s: State) returns (es: seq<Event>, t: State)
    requires Inv(s)
    ensures Run(s, es, t) && NoAccept(es) && Inv(t) && Quiet(t)
    decreases Work(s)
  {
    hide Inv, Enabled, Apply, Work;
    if Quiet(s) {
      return [], s;
    }
    NextEnabled(s);
    var e: Event;
    if !s.pc.Idle? {
      e := DispatcherStep(s);
    } else {
      var w :| 0 <= w < |s.workers| && Busy(s, w);
      e := WorkerStep(s, w);
    }
    StepInv(s, e);
    WorkStep(s, e);
    var rest;
    rest, t := ReachesQuiet(Apply(s, e));
    es := [e] + rest;
    assert es[1..] == rest;
  }

  // ----- every accepted connection

  /** The connections accepted in a run. */
  ghost function Accepted(es: seq<Event>): seq<Sfd> {
    if es == [] then [] else (if es[0].Accept? then [es[0].sfd] else []) + Accepted(es[1..])
  }

  /** The connection that is accepted and not dispatched yet. */
  function InFlight(pc: DispatcherPc): seq<Sfd> {
    match pc
    case Allocating(sfd) => [sfd]
    case Linking(sfd, _) => [sfd]
    case Filling(sfd, _) => [sfd]
    case _ => []
  }

  lemma AcceptedStep(s: State, e: Event)
    requires Enabled(s, e)
    ensures var t := Apply(s, e);
            t.dispatched + InFlight(t.pc) == s.dispatched + InFlight(s.pc) + if e.Accept? then [e.sfd] else []
  {
  }

  lemma {:induction false} AcceptedRun(s0: State, es: seq<Event>, s: State)
    requires Run(s0, es, s)
    ensures s.dispatched + InFlight(s.pc) == s0.dispatched + InFlight(s0.pc) + Accepted(es)
    decreases |es|
  {
    hide Enabled, Apply, InFlight;
    if es == [] {
    } else {
      var now, t := if es[0].Accept? then [es[0].sfd] else [], Apply(s0, es[0]);
      AcceptedStep(s0, es[0]);
      AcceptedRun(t, es[1..], s);
      Regrouped(s0.dispatched + InFlight(s0.pc), now, Accepted(es[1..]));
    }
  }

  lemma Regrouped(a: seq<Sfd>, b: seq<Sfd>, c: seq<Sfd>)
    ensures a + b + c == a + (b + c)
  {
  }

  /** Number `w + k * n` comes before number `w + q * n` exactly when `k` comes before `q`. */
  lemma Before(n: nat, w: nat, q: nat, k: nat)
    requires 0 < n
    ensures w + k * n < w + q * n <==> k < q
    ensures w + k * n == w + q * n <==> k == q
  {
    if k < q {
      Multiples(n, k + 1, q);
      assert (k + 1) * n == k * n + n;
    } else if q < k {
      Multiples(n, q + 1, k);
      assert (q + 1) * n == q * n + n;
    }
  }

  /** Entry `k` of `e` is entry `w + k * n` of `all`. */
  ghost predicate NthAt(e: seq<Sfd>, all: seq<Sfd>, n: nat, w: nat, k: nat) {
    && w + k * n >= 0
    && (k < |e| <==> w + k * n < |all|) && (k < |e| ==> e[k] == all[w + k * n])
  }

  lemma NthMore(e: seq<Sfd>, all: seq<Sfd>, x: Sfd, n: nat, w: nat, q: nat, k: nat)
    requires 0 < n && |all| == w + q * n && |e| == q && NthAt(e, all, n, w, k)
    ensures NthAt(e + [x], all + [x], n, w, k)
  {
    Before(n, w, q, k);
  }

  lemma NthSkip(e: seq<Sfd>, all: seq<Sfd>, x: Sfd, n: nat, w: nat, k: nat)
    requires w < n && |all| % n != w && NthAt(e, all, n, w, k)
    ensures NthAt(e, all + [x], n, w, k)
  {
    if |all| == w + k * n {
      Modulo(n, k, w);
    }
  }

  lemma Quotient(n: nat, m: nat)
    requires 0 < n
    ensures m == m % n + m / n * n && 0 <= m / n
  {
  }

  /** Entry `k` of every `n`-th connection from number `w` on is connection number `w + k * n`. */
  lemma {:induction false} EveryNthAt(all: seq<Sfd>, n: nat, w: nat, k: nat)
    requires w < n
    ensures NthAt(EveryNth(all, n, w), all, n, w, k)
    decreases |all|, 0
  {
    if all == [] {
      assert k * n >= 0;
    } else {
      var m := |all| - 1;
      var front, x := all[..m], all[m];
      assert all == front + [x];
      EveryNthAt(front, n, w, k);
      hide NthAt;
      if m % n == w {
        Quotient(n, m);
        EveryNthSize(front, n, w, m / n);
        NthMore(EveryNth(front, n, w), front, x, n, w, m / n, k);
      } else {
        NthSkip(EveryNth(front, n, w), front, x, n, w, k);
        assert EveryNth(front, n, w) + [] == EveryNth(front, n, w);
      }
    }
  }

  lemma {:induction false} EveryNthSize(all: seq<Sfd>, n: nat, w: nat, q: nat)
    requires w < n && |all| == w + q * n
    ensures |EveryNth(all, n, w)| == q
    decreases |all|, 1
  {
    if q > 0 {
      EveryNthAt(all, n, w, q - 1);
      Before(n, w, q, q - 1);
    }
    EveryNthAt(all, n, w, q);
  }

  /** When the threads have come to rest, every connection accepted so far has been opened once,
      connection number `k` by worker `k` modulo their number, in order. */
  lemma AllServed(s0: State, es: seq<Event>, s: State, w: nat)
    requires Init(s0) && Run(s0, es, s) && Resting(s) && w < |s.workers|
    ensures var all, n, served := Accepted(es), |s.workers|, s.workers[w].served;
            forall k: nat :: NthAt(served, all, n, w, k)
  {
    ServedEveryNth(s0, es, s, w);
    hide *;
    forall k: nat ensures NthAt(s.workers[w].served, Accepted(es), |s.workers|, w, k) {
      EveryNthAt(Accepted(es), |s.workers|, w, k);
    }
  }

  lemma ServedEveryNth(s0: State, es: seq<Event>, s: State, w: nat)
    requires Init(s0) && Run(s0, es, s) && Resting(s) && w < |s.workers|
    ensures s.workers[w].served == EveryNth(Accepted(es), |s.workers|, w)
  {
    hide Inv, Enabled, Run, Resting, EveryNth, Init;
    InitInv(s0);
    RunInv(s0, es, s);
    RestingIsQuiet(s);
    AcceptedRun(s0, es, s);
    InitEmpty(s0);
    assert !Busy(s, w) && InFlight(s.pc) == [];
    assert s.dispatched + [] == s.dispatched && [] + [] + Accepted(es) == Accepted(es);
    QuietWorkerServedAll(s0, es, s, w);
  }

  lemma InitEmpty(s: State)
    requires Init(s)
    ensures s.dispatched == [] && InFlight(s.pc) == []
  {
  }
}
