/** The buffer-manager thread: fetching events, dropping them while the arbiter queue is
    full, and summarising what was dropped in hole events.

    One step is one access to shared state by the thread, interleaved with a producer
    that writes and destroys the source, a reader that drains the queue, and anyone who
    changes the threshold.  The two rings appear as the FIFOs they were shown to refine:
    the sequence of all that was published, the count consumed, and the lagging views. */
module Autodrop {
  import opened ArbiterQueue
  import opened Words
  import RingIndex
  import SpscRing

  datatype Option<T> = None | Some(value: T)

  /** `hole_handling` stays abstract: a hole is whatever `update` makes of the events. */
  datatype Config<!H> = Config(
    capacity: nat,     // of the arbiter queue
    srcCapacity: nat,  // of the stream's shared buffer
    init: H,
    update: (H, Event) -> H)

  datatype Item<H> = Kept(ev: Event) | Hole(id: nat, summary: H)

  /** Program points of `default_buffer_manager_thrd` and what it calls.  `last` is
      `last_ev_id`, `next` the event to forward once the hole is out, if any. */
  datatype Pc =
    | Fetch(last: nat)                          // get_event: read_events
    | TestDestroyed(last: nat)                  // is_ready: first operand
    | TestSize(last: nat)                       // is_ready: second operand
    | Handle(ev: Event)                         // handle_dropping_event: free space
    | Start(ev: Event)
    | Continue(ev: Event)
    | ConsumeDropped(ev: Event)
    | HoleSlot(next: Option<Event>, id: nat)    // push_dropped_event: write_ptr
    | HoleWrite(next: Option<Event>, id: nat)
    | HoleAccount(next: Option<Event>, id: nat)
    | HoleClear(next: Option<Event>, id: nat)
    | KeepSlot(ev: Event)                       // write_ptr of the thread
    | KeepRefused(ev: Event)                    // write_ptr returned NULL
    | KeepWrite(ev: Event)
    | ConsumeKept(ev: Event)
    | Ending(last: nat)                         // handle_stream_end
    | Ended

  datatype State<H> = State(
    produced: seq<Event>, destroyed: bool, consumed: nat, seen: nat,
    queue: seq<Item<H>>, taken: nat, known: nat, threshold: nat,
    droppedNum: nat, dropBegin: nat, hole: H,
    totalNum: nat, totalTimes: nat, notices: seq<(nat, nat)>,
    pc: Pc)

  datatype Action =
    | Produce(ev: Event) | Destroy            // the monitored program
    | Take(k: nat) | SetThreshold(thr: nat)   // the arbiter
    | Work(patient: bool, origin: bool)       // this thread; `patient` keeps it polling,
                                              // `origin` is `seen_tail == 0`

  // The machine -------------------------------------------------------------------------

  ghost predicate Init<H>(c: Config<H>, s: State<H>) {
    c.capacity >= 3 && c.srcCapacity > 0 && 1 <= s.threshold < c.capacity
    && s.produced == [] && !s.destroyed && s.consumed == s.seen == 0
    && s.queue == [] && s.taken == s.known == 0
    && s.droppedNum == s.totalNum == s.totalTimes == 0 && s.notices == [] && s.pc == Fetch(1)
  }

  /** `shm_arbiter_buffer_free_space`, from the shared offsets. */
  ghost function Free<H>(c: Config<H>, s: State<H>): int {
    c.capacity - (|s.queue| - s.taken)
  }

  /** The writer's cached tail after `write_off_nowrap`. */
  ghost function Refreshed<H>(c: Config<H>, s: State<H>, origin: bool): nat {
    if origin || |s.queue| - s.known == c.capacity then s.taken else s.known
  }

  /** `shm_stream_consume(stream, 1)` */
  ghost function ConsumeOne<H>(s: State<H>): State<H> {
    var seen := if s.seen <= s.consumed then |s.produced| else s.seen;
    if seen > s.consumed then s.(seen := seen, consumed := s.consumed + 1) else s.(seen := seen)
  }

  /** `get_event` and the loop of `handle_stream_end`. */
  ghost function FetchStep<H>(c: Config<H>, s: State<H>, patient: bool): State<H> {
    match s.pc
    case Fetch(last) =>
      var seen := if s.seen == s.consumed then |s.produced| else s.seen;
      if s.consumed < seen && s.consumed < |s.produced| then
        s.(seen := seen, pc := Handle(s.produced[s.consumed]))
      else s.(seen := seen, pc := if patient then Fetch(last) else TestDestroyed(last))
    case TestDestroyed(last) => s.(pc := if s.destroyed then TestSize(last) else Fetch(last))
    case TestSize(last) => s.(pc := if |s.produced| > s.consumed then Fetch(last) else Ending(last))
    case Ending(last) =>
      if s.droppedNum == 0 then s.(pc := Ended)
      else if Free(c, s) > s.threshold then s.(pc := HoleSlot(None, Pred(last)))
      else s
    case _ => s
  }

  /** `handle_dropping_event` with `start_dropping` and `continue_dropping`. */
  ghost function DropStep<H>(c: Config<H>, s: State<H>): State<H> {
    match s.pc
    case Handle(ev) =>
      if s.droppedNum > 0 then
        if Free(c, s) > s.threshold then s.(pc := HoleSlot(Some(ev), Pred(ev.id)))
        else s.(pc := Continue(ev))
      else if Free(c, s) == 0 then s.(pc := Start(ev))
      else s.(pc := KeepSlot(ev))
    case Start(ev) =>
      s.(dropBegin := ev.id, droppedNum := s.droppedNum + 1, hole := c.update(c.init, ev), pc := ConsumeDropped(ev))
    case Continue(ev) =>
      s.(droppedNum := s.droppedNum + 1, hole := c.update(s.hole, ev), pc := ConsumeDropped(ev),
         notices := if (s.droppedNum + 1) % 10000 == 0 then s.notices + [(s.dropBegin, Pred(ev.id))] else s.notices)
    case ConsumeDropped(ev) => ConsumeOne(s).(pc := Fetch(ev.id))
    case _ => s
  }

  /** `push_dropped_event` and the reset of `dropped_num` after it. */
  ghost function HoleStep<H>(c: Config<H>, s: State<H>, origin: bool): State<H> {
    match s.pc
    case HoleSlot(next, id) =>
      s.(known := Refreshed(c, s, origin),
         pc := if |s.queue| - Refreshed(c, s, origin) < c.capacity then HoleWrite(next, id) else HoleAccount(next, id))
    case HoleWrite(next, id) => s.(queue := s.queue + [Hole(id, s.hole)], pc := HoleAccount(next, id))
    case HoleAccount(next, id) =>
      s.(totalNum := s.totalNum + s.droppedNum, totalTimes := s.totalTimes + 1,
         notices := s.notices + [(s.dropBegin, id)], pc := HoleClear(next, id))
    case HoleClear(next, id) =>
      s.(droppedNum := 0, pc := if next.Some? then KeepSlot(next.value) else Ending(id + 1))
    case _ => s
  }

  /** The rest of the thread's loop: write the event, then consume it. */
  ghost function KeepStep<H>(c: Config<H>, s: State<H>, origin: bool): State<H> {
    match s.pc
    case KeepSlot(ev) =>
      s.(known := Refreshed(c, s, origin),
         pc := if |s.queue| - Refreshed(c, s, origin) < c.capacity then KeepWrite(ev) else KeepRefused(ev))
    case KeepWrite(ev) => s.(queue := s.queue + [Kept(ev)], pc := ConsumeKept(ev))
    case ConsumeKept(ev) => ConsumeOne(s).(pc := Fetch(1))
    case _ => s
  }

  ghost function ThreadStep<H>(c: Config<H>, s: State<H>, patient: bool, origin: bool): State<H> {
    match s.pc
    case Fetch(_) | TestDestroyed(_) | TestSize(_) | Ending(_) | Ended => FetchStep(c, s, patient)
    case Handle(_) | Start(_) | Continue(_) | ConsumeDropped(_) => DropStep(c, s)
    case HoleSlot(_, _) | HoleWrite(_, _) | HoleAccount(_, _) | HoleClear(_, _) => HoleStep(c, s, origin)
    case KeepSlot(_) | KeepRefused(_) | KeepWrite(_) | ConsumeKept(_) => KeepStep(c, s, origin)
  }

  ghost predicate Next<H>(c: Config<H>, s: State<H>, a: Action, t: State<H>) {
    match a
    case Produce(ev) =>  // buffer_push: nothing is written to a destroyed or full buffer
      !s.destroyed && |s.produced| - s.consumed < c.srcCapacity && ev.id == |s.produced| + 1
      && t == s.(produced := s.produced + [ev])
    case Destroy => t == s.(destroyed := true)
    case Take(k) => 0 < k <= |s.queue| - s.taken && t == s.(taken := s.taken + k)
    case SetThreshold(thr) => 1 <= thr < c.capacity && t == s.(threshold := thr)
    case Work(patient, origin) =>
      origin == (s.known % (c.capacity + 1) == 0) && t == ThreadStep(c, s, patient, origin)
  }

  // What a queue says about the source ------------------------------------------------------

  /** `init` and then `update` with each event in turn. */
  ghost function Fold<H>(c: Config<H>, evs: seq<Event>): H {
    if evs == [] then c.init else c.update(Fold(c, evs[..|evs| - 1]), evs[|evs| - 1])
  }

  /** A hole that stands for exactly the events `seg`; its id is that of the last of
      them, less `slack`. */
  ghost predicate HoleOf<H>(c: Config<H>, it: Item<H>, seg: seq<Event>, slack: nat) {
    it.Hole? && seg != [] && it.id + slack == seg[|seg| - 1].id && it.summary == Fold(c, seg)
  }

  /** Replacing each hole by the segment it stands for turns `items` into `evs`.  Only a
      final hole may have slack. */
  ghost predicate Explains<H>(c: Config<H>, items: seq<Item<H>>, evs: seq<Event>, slack: nat)
    decreases |items|
  {
    if items == [] then evs == [] && slack == 0
    else
      var m := |items| - 1;
      match items[m]
      case Kept(ev) =>
        slack == 0 && evs != [] && evs[|evs| - 1] == ev && Explains(c, items[..m], evs[..|evs| - 1], 0)
      case Hole(_, _) =>
        exists k :: 0 <= k < |evs| && HoleOf(c, items[m], evs[k..], slack) && Explains(c, items[..m], evs[..k], 0)
  }

  lemma SplitAt<T>(s: seq<T>, k: nat, n: nat)
    requires k <= n <= |s|
    ensures s[..k] + s[k..n] == s[..n]
  {}

  lemma AppendKept<H>(c: Config<H>, items: seq<Item<H>>, evs: seq<Event>, ev: Event)
    requires Explains(c, items, evs, 0)
    ensures Explains(c, items + [Kept(ev)], evs + [ev], 0)
  {
    assert (items + [Kept(ev)])[..|items|] == items;
    assert (evs + [ev])[..|evs|] == evs;
  }

  lemma AppendHole<H>(c: Config<H>, items: seq<Item<H>>, evs: seq<Event>, it: Item<H>, seg: seq<Event>, slack: nat)
    requires Explains(c, items, evs, 0) && HoleOf(c, it, seg, slack)
    ensures Explains(c, items + [it], evs + seg, slack)
  {
    assert (items + [it])[..|items|] == items;
    assert (evs + seg)[..|evs|] == evs && (evs + seg)[|evs|..] == seg;
  }

  ghost function KeptCount<H>(items: seq<Item<H>>): nat {
    if items == [] then 0
    else KeptCount(items[..|items| - 1]) + if items[|items| - 1].Kept? then 1 else 0
  }

  lemma KeptCountAppend<H>(items: seq<Item<H>>, it: Item<H>)
    ensures KeptCount(items + [it]) == KeptCount(items) + if it.Kept? then 1 else 0
  {
    assert (items + [it])[..|items|] == items;
  }

  // The invariant -----------------------------------------------------------------------

  /** Source events accounted for so far: one more than consumed just before a consume. */
  ghost function Accounted<H>(s: State<H>): nat {
    s.consumed + if s.pc.ConsumeDropped? || s.pc.ConsumeKept? then 1 else 0
  }

  /** Of these, the dropped ones that no queued hole covers yet. */
  ghost function Pending<H>(s: State<H>): nat {
    if s.pc.HoleAccount? || s.pc.HoleClear? then 0 else s.droppedNum
  }

  ghost predicate AtEnd(pc: Pc) {
    pc.Ending? || pc.Ended?
    || ((pc.HoleSlot? || pc.HoleWrite? || pc.HoleAccount? || pc.HoleClear?) && pc.next.None?)
  }

  /** Whether the hole that ends the stream is already in the queue. */
  ghost predicate Closed<H>(s: State<H>) {
    AtEnd(s.pc) && Pending(s) == 0
  }

  ghost predicate Shape<H>(c: Config<H>, s: State<H>) {
    c.capacity >= 3 && 1 <= s.threshold < c.capacity
    && s.consumed <= s.seen <= |s.produced| && s.droppedNum <= Accounted(s) <= |s.produced|
    && s.known <= s.taken <= |s.queue| <= s.known + c.capacity
    && forall i :: 0 <= i < |s.produced| ==> s.produced[i].id == i + 1
  }

  /** The event in hand is the next one of the source. */
  ghost predicate InHand<H>(s: State<H>, ev: Event) {
    s.consumed < s.seen <= |s.produced| && ev == s.produced[s.consumed] && ev.id == s.consumed + 1
  }

  /** The id a hole is about to carry: the last dropped one, one less at the end. */
  ghost predicate HoleId<H>(s: State<H>, next: Option<Event>, id: nat) {
    match next
    case Some(ev) => InHand(s, ev) && id == s.consumed
    case None => id + 1 == s.consumed
  }

  ghost predicate AtPc<H>(c: Config<H>, s: State<H>) {
    (AtEnd(s.pc) ==> s.destroyed && s.consumed == |s.produced|)
    && match s.pc
       case Fetch(last) => s.droppedNum > 0 ==> last == s.consumed
       case TestDestroyed(last) => s.droppedNum > 0 ==> last == s.consumed
       case TestSize(last) => s.destroyed && (s.droppedNum > 0 ==> last == s.consumed)
       case Ending(last) => s.droppedNum > 0 ==> last == s.consumed
       case Handle(ev) => InHand(s, ev)
       case Start(ev) => InHand(s, ev) && s.droppedNum == 0
       case Continue(ev) => InHand(s, ev) && s.droppedNum > 0
       case ConsumeDropped(ev) => InHand(s, ev) && s.droppedNum > 0
       case HoleSlot(next, id) => s.droppedNum > 0 && HoleId(s, next, id) && Free(c, s) >= 2
       case HoleWrite(next, id) =>
         s.droppedNum > 0 && HoleId(s, next, id) && Free(c, s) >= 2 && |s.queue| - s.known < c.capacity
       case HoleAccount(next, id) => s.droppedNum > 0 && HoleId(s, next, id) && Free(c, s) >= 1
       case HoleClear(next, id) => s.droppedNum > 0 && HoleId(s, next, id) && Free(c, s) >= 1
       case KeepSlot(ev) => InHand(s, ev) && s.droppedNum == 0 && Free(c, s) >= 1
       case KeepRefused(ev) => false
       case KeepWrite(ev) => InHand(s, ev) && s.droppedNum == 0 && |s.queue| - s.known < c.capacity
       case ConsumeKept(ev) => InHand(s, ev) && s.droppedNum == 0
       case Ended => s.droppedNum == 0
  }

  /** Conservation: the queue explains what is accounted for and not pending, the hole
      under construction summarises just the pending events, and the counters agree. */
  ghost predicate Conserved<H>(c: Config<H>, s: State<H>) {
    Tells(c, s.queue, s.produced, Accounted(s), Pending(s), Closed(s), s.hole)
  }

  /** The queue tells the first n events, the last p of them only in the hole. */
  ghost predicate Tells<H>(c: Config<H>, queue: seq<Item<H>>, evs: seq<Event>, n: nat, p: nat, closed: bool, hole: H) {
    p <= n <= |evs|
    && (Explains(c, queue, evs[..n - p], 0) || (closed && Explains(c, queue, evs[..n - p], 1)))
    && (p > 0 ==> hole == Fold(c, evs[n - p..n]))
  }

  ghost predicate Counted<H>(s: State<H>) {
    KeptCount(s.queue) + s.totalNum + (if s.pc.HoleClear? then 0 else s.droppedNum) == Accounted(s)
    && |s.queue| - KeptCount(s.queue) == s.totalTimes + if s.pc.HoleAccount? then 1 else 0
  }

  /** Ranges notified as dropped contain no kept event, and are not empty, except
      possibly the very last one. */
  ghost predicate Noticed<H>(s: State<H>) {
    (s.droppedNum > 0 ==> 1 <= s.dropBegin && s.dropBegin + s.droppedNum == Accounted(s) + 1)
    && (forall i :: 0 <= i < |s.queue| && s.queue[i].Kept? ==>
          1 <= s.queue[i].ev.id <= Accounted(s) && (s.droppedNum > 0 ==> s.queue[i].ev.id < s.dropBegin))
    && (forall j :: 0 <= j < |s.notices| ==>
          1 <= s.notices[j].0 && s.notices[j].1 <= Accounted(s)
          && (s.notices[j].0 <= s.notices[j].1 || (j == |s.notices| - 1 && Closed(s) && !s.pc.HoleAccount?)))
    && (forall i, j :: 0 <= i < |s.queue| && s.queue[i].Kept? && 0 <= j < |s.notices| ==>
          !(s.notices[j].0 <= s.queue[i].ev.id <= s.notices[j].1))
  }

  ghost predicate Inv<H>(c: Config<H>, s: State<H>) {
    Shape(c, s) && AtPc(c, s) && Conserved(c, s) && Counted(s) && Noticed(s)
  }

  // Every step keeps it -------------------------------------------------------------------

  lemma {:induction false} FetchKeepsPlace<H>(c: Config<H>, s: State<H>, patient: bool)
    requires Shape(c, s) && AtPc(c, s)
    ensures Shape(c, FetchStep(c, s, patient)) && AtPc(c, FetchStep(c, s, patient))
  {}

  lemma {:induction false} DropKeepsShape<H>(c: Config<H>, s: State<H>)
    requires Shape(c, s) && AtPc(c, s)
    ensures Shape(c, DropStep(c, s))
  {}

  lemma {:induction false} DropKeepsPc<H>(c: Config<H>, s: State<H>)
    requires Shape(c, s) && AtPc(c, s)
    ensures AtPc(c, DropStep(c, s))
  {}

  lemma {:induction false} HoleKeepsShape<H>(c: Config<H>, s: State<H>, origin: bool)
    requires Shape(c, s) && AtPc(c, s)
    ensures Shape(c, HoleStep(c, s, origin))
  {}

  lemma {:induction false} HoleKeepsPc<H>(c: Config<H>, s: State<H>, origin: bool)
    requires Shape(c, s) && AtPc(c, s)
    ensures AtPc(c, HoleStep(c, s, origin))
  {}

  lemma {:induction false} KeepKeepsPlace<H>(c: Config<H>, s: State<H>, origin: bool)
    requires Shape(c, s) && AtPc(c, s)
    ensures Shape(c, KeepStep(c, s, origin)) && AtPc(c, KeepStep(c, s, origin))
  {}

  lemma {:induction false} ProduceKeepsPlace<H>(c: Config<H>, s: State<H>, ev: Event, t: State<H>)
    requires Shape(c, s) && AtPc(c, s) && Next(c, s, Produce(ev), t)
    ensures Shape(c, t) && AtPc(c, t)
  {}

  /** Draining only makes room; nothing else of the thread's state changes. */
  lemma {:induction false} OthersKeepPlace<H>(c: Config<H>, s: State<H>, t: State<H>)
    requires Shape(c, s) && AtPc(c, s)
    requires s.taken <= t.taken <= |s.queue| && 1 <= t.threshold < c.capacity && (s.destroyed ==> t.destroyed)
    requires t == s.(taken := t.taken, threshold := t.threshold, destroyed := t.destroyed)
    ensures Shape(c, t) && AtPc(c, t)
  {
    assert Free(c, t) >= Free(c, s);
  }

  lemma {:induction false} StepKeepsPlace<H>(c: Config<H>, s: State<H>, a: Action, t: State<H>)
    requires Shape(c, s) && AtPc(c, s) && Next(c, s, a, t)
    ensures Shape(c, t) && AtPc(c, t)
  {
    match a
    case Work(patient, origin) =>
      FetchKeepsPlace(c, s, patient);
      DropKeepsShape(c, s);
      DropKeepsPc(c, s);
      HoleKeepsShape(c, s, origin);
      HoleKeepsPc(c, s, origin);
      KeepKeepsPlace(c, s, origin);
    case Produce(ev) => ProduceKeepsPlace(c, s, ev, t);
    case _ => OthersKeepPlace(c, s, t);
  }

  /** Nothing that conservation speaks of changed. */
  ghost predicate SameAccount<H>(s: State<H>, t: State<H>) {
    Accounted(t) == Accounted(s) && Pending(t) == Pending(s) && t.queue == s.queue && t.hole == s.hole
    && (Closed(s) ==> Closed(t)) && s.produced <= t.produced
  }

  lemma {:induction false} SameAccountConserves<H>(c: Config<H>, s: State<H>, t: State<H>)
    requires SameAccount(s, t) && Conserved(c, s)
    ensures Conserved(c, t)
  {
    MoreEvents(c, s.queue, s.produced, t.produced, Accounted(s), Pending(s), Closed(s), Closed(t), s.hole);
  }

  lemma {:induction false} MoreEvents<H>(c: Config<H>, queue: seq<Item<H>>, evs: seq<Event>, more: seq<Event>,
                                         n: nat, p: nat, closed: bool, closed': bool, hole: H)
    requires Tells(c, queue, evs, n, p, closed, hole) && evs <= more && (closed ==> closed')
    ensures Tells(c, queue, more, n, p, closed', hole)
  {
    assert more[..n - p] == evs[..n - p] && more[n - p..n] == evs[n - p..n];
  }

  /** Only four thread steps change the account. */
  ghost predicate Accounting(pc: Pc) {
    pc.Start? || pc.Continue? || pc.HoleWrite? || pc.KeepWrite?
  }

  lemma {:induction false} FetchSame<H>(c: Config<H>, s: State<H>, patient: bool)
    requires Shape(c, s) && AtPc(c, s)
    ensures SameAccount(s, FetchStep(c, s, patient))
  {}

  lemma {:induction false} DropSame<H>(c: Config<H>, s: State<H>)
    requires Shape(c, s) && AtPc(c, s) && !Accounting(s.pc)
    ensures SameAccount(s, DropStep(c, s))
  {}

  lemma {:induction false} HoleSame<H>(c: Config<H>, s: State<H>, origin: bool)
    requires Shape(c, s) && AtPc(c, s) && !Accounting(s.pc)
    ensures SameAccount(s, HoleStep(c, s, origin))
  {}

  lemma {:induction false} KeepSame<H>(c: Config<H>, s: State<H>, origin: bool)
    requires Shape(c, s) && AtPc(c, s) && !Accounting(s.pc)
    ensures SameAccount(s, KeepStep(c, s, origin))
  {}

  lemma {:induction false} ThreadSame<H>(c: Config<H>, s: State<H>, patient: bool, origin: bool)
    requires Shape(c, s) && AtPc(c, s) && !Accounting(s.pc)
    ensures SameAccount(s, ThreadStep(c, s, patient, origin))
  {
    match s.pc
    case Fetch(_) | TestDestroyed(_) | TestSize(_) | Ending(_) | Ended => FetchSame(c, s, patient);
    case Handle(_) | Start(_) | Continue(_) | ConsumeDropped(_) => DropSame(c, s);
    case HoleSlot(_, _) | HoleWrite(_, _) | HoleAccount(_, _) | HoleClear(_, _) => HoleSame(c, s, origin);
    case KeepSlot(_) | KeepRefused(_) | KeepWrite(_) | ConsumeKept(_) => KeepSame(c, s, origin);
  }

  lemma {:induction false} FoldExtends<H>(c: Config<H>, evs: seq<Event>, k: nat, n: nat)
    requires k <= n < |evs|
    ensures Fold(c, evs[k..n + 1]) == c.update(Fold(c, evs[k..n]), evs[n])
    ensures k == n ==> Fold(c, evs[k..n]) == c.init
  {
    var seg := evs[k..n + 1];
    assert seg[..|seg| - 1] == evs[k..n];
  }

  /** One more event is only in the hole. */
  lemma {:induction false} TellsDropped<H>(c: Config<H>, queue: seq<Item<H>>, evs: seq<Event>, n: nat, p: nat, hole: H, hole': H)
    requires Tells(c, queue, evs, n, p, false, hole) && n < |evs|
    requires hole' == c.update(if p > 0 then hole else c.init, evs[n])
    ensures Tells(c, queue, evs, n + 1, p + 1, false, hole')
  {
    FoldExtends(c, evs, n - p, n);
  }

  /** What starting or continuing to drop does to the account. */
  ghost predicate DropsNext<H>(c: Config<H>, s: State<H>, t: State<H>) {
    var n, p := Accounted(s), Pending(s);
    n < |s.produced| && !Closed(s) && !Closed(t) && t.queue == s.queue && t.produced == s.produced
    && Accounted(t) == n + 1 && Pending(t) == p + 1
    && t.hole == c.update(if p > 0 then s.hole else c.init, s.produced[n])
  }

  lemma {:induction false} DroppingDropsNext<H>(c: Config<H>, s: State<H>, patient: bool, origin: bool, t: State<H>)
    requires AtPc(c, s) && (s.pc.Start? || s.pc.Continue?) && t == ThreadStep(c, s, patient, origin)
    ensures DropsNext(c, s, t)
  {}

  lemma {:induction false} DropsNextConserves<H>(c: Config<H>, s: State<H>, t: State<H>)
    requires DropsNext(c, s, t) && Conserved(c, s)
    ensures Conserved(c, t)
  {
    TellsDropped(c, s.queue, s.produced, Accounted(s), Pending(s), s.hole, t.hole);
  }

  lemma {:induction false} DroppingConserves<H>(c: Config<H>, s: State<H>, patient: bool, origin: bool, t: State<H>)
    requires AtPc(c, s) && Conserved(c, s) && (s.pc.Start? || s.pc.Continue?) && t == ThreadStep(c, s, patient, origin)
    ensures Conserved(c, t)
  {
    DroppingDropsNext(c, s, patient, origin, t);
    DropsNextConserves(c, s, t);
  }

  /** Pushing the hole tells its events. */
  lemma {:induction false} TellsHole<H>(c: Config<H>, queue: seq<Item<H>>, evs: seq<Event>, n: nat, p: nat, id: nat, hole: H, closed: bool)
    requires Tells(c, queue, evs, n, p, false, hole) && p > 0
    requires id + (if closed then 1 else 0) == evs[n - 1].id
    ensures Tells(c, queue + [Hole(id, hole)], evs, n, 0, closed, hole)
  {
    AppendHole(c, queue, evs[..n - p], Hole(id, hole), evs[n - p..n], if closed then 1 else 0);
    SplitAt(evs, n - p, n);
  }

  lemma {:induction false} HoleWriteConserves<H>(c: Config<H>, s: State<H>, patient: bool, origin: bool, t: State<H>)
    requires Shape(c, s) && AtPc(c, s) && Conserved(c, s) && s.pc.HoleWrite? && t == ThreadStep(c, s, patient, origin)
    ensures Conserved(c, t)
  {
    TellsHole(c, s.queue, s.produced, s.consumed, s.droppedNum, s.pc.id, s.hole, s.pc.next.None?);
  }

  /** Forwarding an event tells it. */
  lemma {:induction false} TellsKept<H>(c: Config<H>, queue: seq<Item<H>>, evs: seq<Event>, n: nat, hole: H)
    requires Tells(c, queue, evs, n, 0, false, hole) && n < |evs|
    ensures Tells(c, queue + [Kept(evs[n])], evs, n + 1, 0, false, hole)
  {
    AppendKept(c, queue, evs[..n], evs[n]);
    assert evs[..n] + [evs[n]] == evs[..n + 1];
  }

  lemma {:induction false} KeepWriteConserves<H>(c: Config<H>, s: State<H>, patient: bool, origin: bool, t: State<H>)
    requires Shape(c, s) && AtPc(c, s) && Conserved(c, s) && s.pc.KeepWrite? && t == ThreadStep(c, s, patient, origin)
    ensures Conserved(c, t)
  {
    TellsKept(c, s.queue, s.produced, s.consumed, s.hole);
  }

  lemma {:induction false} ThreadConserves<H>(c: Config<H>, s: State<H>, patient: bool, origin: bool, t: State<H>)
    requires Shape(c, s) && AtPc(c, s) && Conserved(c, s) && t == ThreadStep(c, s, patient, origin)
    ensures Conserved(c, t)
  {
    match s.pc
    case Start(_) | Continue(_) => DroppingConserves(c, s, patient, origin, t);
    case HoleWrite(_, _) => HoleWriteConserves(c, s, patient, origin, t);
    case KeepWrite(_) => KeepWriteConserves(c, s, patient, origin, t);
    case _ => QuietConserves(c, s, patient, origin, t);
  }

  lemma {:induction false} QuietConserves<H>(c: Config<H>, s: State<H>, patient: bool, origin: bool, t: State<H>)
    requires Shape(c, s) && AtPc(c, s) && Conserved(c, s) && t == ThreadStep(c, s, patient, origin) && !Accounting(s.pc)
    ensures Conserved(c, t)
  {
    ThreadSame(c, s, patient, origin);
    SameAccountConserves(c, s, t);
  }

  lemma {:induction false} StepConserves<H>(c: Config<H>, s: State<H>, a: Action, t: State<H>)
    requires Shape(c, s) && AtPc(c, s) && Conserved(c, s) && Next(c, s, a, t)
    ensures Conserved(c, t)
  {
    if a.Work? {
      ThreadConserves(c, s, a.patient, a.origin, t);
    } else {
      SameAccountConserves(c, s, t);
    }
  }

  lemma {:induction false} FetchCounts<H>(c: Config<H>, s: State<H>, patient: bool)
    requires Shape(c, s) && AtPc(c, s) && Counted(s)
    ensures Counted(FetchStep(c, s, patient))
  {}

  lemma {:induction false} DropCounts<H>(c: Config<H>, s: State<H>)
    requires Shape(c, s) && AtPc(c, s) && Counted(s)
    ensures Counted(DropStep(c, s))
  {}

  lemma {:induction false} HoleCounts<H>(c: Config<H>, s: State<H>, origin: bool)
    requires Shape(c, s) && AtPc(c, s) && Counted(s)
    ensures Counted(HoleStep(c, s, origin))
  {
    if s.pc.HoleWrite? {
      KeptCountAppend(s.queue, Hole(s.pc.id, s.hole));
    }
  }

  lemma {:induction false} KeepCounts<H>(c: Config<H>, s: State<H>, origin: bool)
    requires Shape(c, s) && AtPc(c, s) && Counted(s)
    ensures Counted(KeepStep(c, s, origin))
  {
    if s.pc.KeepWrite? {
      KeptCountAppend(s.queue, Kept(s.pc.ev));
    }
  }

  lemma {:induction false} StepCounts<H>(c: Config<H>, s: State<H>, a: Action, t: State<H>)
    requires Shape(c, s) && AtPc(c, s) && Counted(s) && Next(c, s, a, t)
    ensures Counted(t)
  {
    if a.Work? {
      FetchCounts(c, s, a.patient);
      DropCounts(c, s);
      HoleCounts(c, s, a.origin);
      KeepCounts(c, s, a.origin);
    }
  }

  lemma {:induction false} FetchNotices<H>(c: Config<H>, s: State<H>, patient: bool)
    requires Shape(c, s) && AtPc(c, s) && Noticed(s)
    ensures Noticed(FetchStep(c, s, patient))
  {}

  lemma {:induction false} ContinueNotices<H>(c: Config<H>, s: State<H>)
    requires s.pc.Continue? && InHand(s, s.pc.ev) && s.droppedNum > 0 && Noticed(s)
    ensures Noticed(DropStep(c, s))
  {}

  lemma {:induction false} DropNotices<H>(c: Config<H>, s: State<H>)
    requires Shape(c, s) && AtPc(c, s) && Noticed(s)
    ensures Noticed(DropStep(c, s))
  {
    if s.pc.Continue? {
      ContinueNotices(c, s);
    }
  }

  lemma {:induction false} HoleNotices<H>(c: Config<H>, s: State<H>, origin: bool)
    requires Shape(c, s) && AtPc(c, s) && Noticed(s)
    ensures Noticed(HoleStep(c, s, origin))
  {}

  lemma {:induction false} KeepNotices<H>(c: Config<H>, s: State<H>, origin: bool)
    requires Shape(c, s) && AtPc(c, s) && Noticed(s)
    ensures Noticed(KeepStep(c, s, origin))
  {}

  lemma {:induction false} ThreadNotices<H>(c: Config<H>, s: State<H>, patient: bool, origin: bool)
    requires Shape(c, s) && AtPc(c, s) && Noticed(s)
    ensures Noticed(ThreadStep(c, s, patient, origin))
  {
    match s.pc
    case Fetch(_) | TestDestroyed(_) | TestSize(_) | Ending(_) | Ended => FetchNotices(c, s, patient);
    case Handle(_) | Start(_) | Continue(_) | ConsumeDropped(_) => DropNotices(c, s);
    case HoleSlot(_, _) | HoleWrite(_, _) | HoleAccount(_, _) | HoleClear(_, _) => HoleNotices(c, s, origin);
    case KeepSlot(_) | KeepRefused(_) | KeepWrite(_) | ConsumeKept(_) => KeepNotices(c, s, origin);
  }

  /** The others change nothing that the notices speak of. */
  lemma {:induction false} OthersNotice<H>(s: State<H>, t: State<H>)
    requires Noticed(s) && t.queue == s.queue && t.notices == s.notices && t.pc == s.pc
    requires t.consumed == s.consumed && t.droppedNum == s.droppedNum && t.dropBegin == s.dropBegin
    ensures Noticed(t)
  {}

  lemma {:induction false} StepNotices<H>(c: Config<H>, s: State<H>, a: Action, t: State<H>)
    requires Shape(c, s) && AtPc(c, s) && Noticed(s) && Next(c, s, a, t)
    ensures Noticed(t)
  {
    if a.Work? {
      ThreadNotices(c, s, a.patient, a.origin);
    } else {
      OthersNotice(s, t);
    }
  }

  lemma {:induction false} StepKeepsInv<H>(c: Config<H>, s: State<H>, a: Action, t: State<H>)
    requires Inv(c, s) && Next(c, s, a, t)
    ensures Inv(c, t)
  {
    StepKeepsPlace(c, s, a, t);
    StepConserves(c, s, a, t);
    StepCounts(c, s, a, t);
    StepNotices(c, s, a, t);
  }

  // The queue of this machine is the ring ----------------------------------------------------

  /** Every decision the thread takes from the queue is the one the ring's offsets and
      cached tail give: the free space, whether the cache is refreshed, and whether a
      slot is granted. */
  lemma {:induction false} RingDecides<H>(c: Config<H>, s: State<H>, r: SpscRing.Ring<Item<H>>, q: SpscRing.Fifo<Item<H>>)
    requires SpscRing.Simulates(r, q) && r.capacity == c.capacity + 1
    requires q.log == s.queue && q.taken == s.taken && q.known == s.known
    ensures SpscRing.WellSized(r)
    ensures RingIndex.FreeNum(r.head, r.tail, r.capacity) == Free(c, s)
    ensures var origin := s.known % (c.capacity + 1) == 0;
            var refresh := r.seenTail == 0 || RingIndex.WriteOff(r.head, r.seenTail, r.capacity).total == 0;
            var cached := if refresh then r.tail else r.seenTail;
            (refresh <==> origin || |s.queue| - s.known == c.capacity)
            && cached == Refreshed(c, s, origin) % r.capacity
            && (RingIndex.WriteOff(r.head, cached, r.capacity).n > 0
                <==> |s.queue| - Refreshed(c, s, origin) < c.capacity)
  {
    SpscRing.CountersGiveViews(r, q);
  }

  // Whole runs ------------------------------------------------------------------------------

  ghost predicate IsRun<H>(c: Config<H>, states: seq<State<H>>, acts: seq<Action>) {
    |states| == |acts| + 1 && Init(c, states[0])
    && forall i :: 0 <= i < |acts| ==> Next(c, states[i], acts[i], states[i + 1])
  }

  lemma {:induction false} RunKeepsInv<H>(c: Config<H>, states: seq<State<H>>, acts: seq<Action>)
    requires IsRun(c, states, acts)
    ensures Inv(c, states[|acts|])
  {
    var m := |acts| - 1;
    if acts == [] {
      assert states[0].produced[..0] == [];
    } else {
      RunKeepsInv(c, states[..m + 1], acts[..m]);
      StepKeepsInv(c, states[m], acts[m], states[m + 1]);
    }
  }

  /** Reachable in some run, with any producer, reader and schedule. */
  ghost predicate Reachable<H(!new)>(c: Config<H>, s: State<H>) {
    exists states: seq<State<H>>, acts: seq<Action> :: IsRun(c, states, acts) && states[|acts|] == s
  }

  lemma {:induction false} ReachableInv<H(!new)>(c: Config<H>, s: State<H>)
    requires Reachable(c, s)
    ensures Inv(c, s)
  {
    var states: seq<State<H>>, acts: seq<Action> :| IsRun(c, states, acts) && states[|acts|] == s;
    RunKeepsInv(c, states, acts);
  }

  lemma {:induction false} ReachableStep<H(!new)>(c: Config<H>, s: State<H>, a: Action, t: State<H>)
    requires Reachable(c, s) && Next(c, s, a, t)
    ensures Reachable(c, t)
  {
    var states: seq<State<H>>, acts: seq<Action> :| IsRun(c, states, acts) && states[|acts|] == s;
    var states', acts' := states + [t], acts + [a];
    assert IsRun(c, states', acts') && states'[|acts'|] == t;
  }

  /** Hole conservation.  Expanding every queued hole to the segment it summarises, and
      adding the drops still pending, gives exactly the accounted prefix of the source. */
  lemma {:induction false} HoleConservation<H(!new)>(c: Config<H>, s: State<H>)
    requires Reachable(c, s)
    ensures s.consumed <= Accounted(s) <= s.consumed + 1 && Pending(s) <= Accounted(s) <= |s.produced|
    ensures var settled := s.produced[..Accounted(s) - Pending(s)];
            Explains(c, s.queue, settled, 0) || (Closed(s) && Explains(c, s.queue, settled, 1))
    ensures Pending(s) > 0 ==> s.hole == Fold(c, s.produced[Accounted(s) - Pending(s)..Accounted(s)])
  {
    ReachableInv(c, s);
  }

  /** Whenever an event is to be forwarded nothing is pending and the slot is granted; and
      the hole push, whose result the code ignores, is never refused. */
  lemma {:induction false} NeverRefused<H(!new)>(c: Config<H>, s: State<H>, patient: bool, origin: bool)
    requires Reachable(c, s)
    ensures !s.pc.KeepRefused?
    ensures s.pc.KeepSlot? ==> s.droppedNum == 0 && ThreadStep(c, s, patient, origin).pc == KeepWrite(s.pc.ev)
    ensures s.pc.HoleSlot? ==> ThreadStep(c, s, patient, origin).pc == HoleWrite(s.pc.next, s.pc.id)
  {
    ReachableInv(c, s);
  }

  /** The condition of `shm_arbiter_buffer_is_done`, read as one snapshot. */
  ghost predicate IsDone<H>(s: State<H>) {
    |s.queue| - s.taken == 0 && s.droppedNum == 0 && !(!s.destroyed || |s.produced| - s.consumed > 0)
  }

  /** A buffer that looks done has delivered everything: each source event was handed
      out, itself or inside a hole. */
  lemma {:induction false} DoneMeansDelivered<H(!new)>(c: Config<H>, s: State<H>)
    requires Reachable(c, s) && IsDone(s)
    ensures s.destroyed && s.consumed == |s.produced|
    ensures Explains(c, s.queue[..s.taken], s.produced, 0) || Explains(c, s.queue[..s.taken], s.produced, 1)
  {
    ReachableInv(c, s);
    assert s.queue[..s.taken] == s.queue && s.produced[..|s.produced|] == s.produced;
  }

  /** Any number of leading items stands for a prefix of the source. */
  lemma {:induction false} PrefixExplains<H>(c: Config<H>, items: seq<Item<H>>, evs: seq<Event>, slack: nat, k: nat)
    returns (m: nat, slack': nat)
    requires Explains(c, items, evs, slack) && k <= |items|
    ensures m <= |evs| && Explains(c, items[..k], evs[..m], slack') && slack' <= slack
    decreases |items|
  {
    m, slack' := |evs|, slack;
    if k == |items| {
      assert items[..k] == items && evs[..m] == evs;
    } else {
      var n := |items| - 1;
      if items[n].Kept? {
        m := |evs| - 1;
      } else {
        m :| 0 <= m < |evs| && HoleOf(c, items[n], evs[m..], slack) && Explains(c, items[..n], evs[..m], 0);
      }
      var m0 := m;
      m, slack' := PrefixExplains(c, items[..n], evs[..m0], 0, k);
      assert items[..n][..k] == items[..k] && evs[..m0][..m] == evs[..m];
    }
  }

  /** At every moment, what the reader has taken is a faithful account of a source prefix. */
  lemma {:induction false} TakenExplainsPrefix<H(!new)>(c: Config<H>, s: State<H>) returns (m: nat, slack: nat)
    requires Reachable(c, s)
    ensures s.taken <= |s.queue| && m <= |s.produced| && slack <= 1
    ensures Explains(c, s.queue[..s.taken], s.produced[..m], slack)
  {
    ReachableInv(c, s);
    var evs := s.produced[..Accounted(s) - Pending(s)];
    m, slack := PrefixExplains(c, s.queue, evs, if Explains(c, s.queue, evs, 0) then 0 else 1, s.taken);
    assert evs[..m] == s.produced[..m];
  }

  /** `get_event` gives up only when the source is destroyed and was read to its end. */
  lemma {:induction false} EndOfStreamIsSound<H(!new)>(c: Config<H>, s: State<H>, a: Action, t: State<H>)
    requires Reachable(c, s) && Next(c, s, a, t)
    ensures AtEnd(s.pc) ==> s.destroyed && s.consumed == |s.produced| && t.produced == s.produced
    ensures s.pc.TestSize? && t.pc.Ending? ==> t.destroyed && t.consumed == |t.produced|
  {
    ReachableInv(c, s);
  }

  /** When the thread has ended, the statistics add up: kept plus dropped is everything,
      and every hole was counted once. */
  lemma {:induction false} EndStatistics<H(!new)>(c: Config<H>, s: State<H>)
    requires Reachable(c, s) && s.pc.Ended?
    ensures KeptCount(s.queue) + s.totalNum == |s.produced|
    ensures KeptCount(s.queue) + s.totalTimes == |s.queue|
  {
    ReachableInv(c, s);
  }

  /** No kept event lies in a range notified as dropped, and only the last range can be empty. */
  lemma {:induction false} NoticesAreDropped<H(!new)>(c: Config<H>, s: State<H>, j: nat)
    requires Reachable(c, s) && j < |s.notices|
    ensures forall i :: 0 <= i < |s.queue| && s.queue[i].Kept? ==>
              !(s.notices[j].0 <= s.queue[i].ev.id <= s.notices[j].1)
    ensures 1 <= s.notices[j].0 <= s.notices[j].1 || (j == |s.notices| - 1 && AtEnd(s.pc))
  {
    ReachableInv(c, s);
  }

  // What the thread does when left alone ------------------------------------------------------

  /** One step of the thread. */
  ghost predicate Alone<H>(c: Config<H>, s: State<H>, t: State<H>) {
    exists patient: bool, origin: bool :: Next(c, s, Work(patient, origin), t)
  }

  ghost predicate IsWork<H>(c: Config<H>, run: seq<State<H>>) {
    run != []
    && forall i, j {:trigger Alone(c, run[i], run[j])} :: 0 <= i && j == i + 1 && j < |run| ==> Alone(c, run[i], run[j])
  }

  /** Any number of uninterrupted steps. */
  ghost predicate Works<H(!new)>(c: Config<H>, s: State<H>, t: State<H>) {
    exists run: seq<State<H>> :: IsWork(c, run) && run[0] == s && run[|run| - 1] == t
  }

  lemma {:induction false} WorkNone<H(!new)>(c: Config<H>, s: State<H>)
    ensures Works(c, s, s)
  {
    assert IsWork(c, [s]) && [s][0] == s;
  }

  lemma {:induction false} WorkFirst<H(!new)>(c: Config<H>, s: State<H>, m: State<H>, t: State<H>)
    requires Alone(c, s, m) && Works(c, m, t)
    ensures Works(c, s, t)
  {
    var run: seq<State<H>> :| IsWork(c, run) && run[0] == m && run[|run| - 1] == t;
    var longer := [s] + run;
    forall i, j | 0 <= i && j == i + 1 && j < |longer| ensures Alone(c, longer[i], longer[j]) {
      if i > 0 {
        assert longer[i] == run[i - 1] && longer[j] == run[j - 1];
      }
    }
    assert IsWork(c, longer) && longer[0] == s && longer[|longer| - 1] == t;
  }

  /** The cached tail is at offset 0. */
  ghost predicate AtOrigin<H>(c: Config<H>, s: State<H>) {
    s.known % (c.capacity + 1) == 0
  }

  /** One step more in front, for each part of the thread. */
  lemma {:induction false} WorkFetch<H(!new)>(c: Config<H>, s: State<H>, m: State<H>, t: State<H>)
    requires (s.pc.Fetch? || s.pc.TestDestroyed? || s.pc.TestSize? || s.pc.Ending?) && m == FetchStep(c, s, false) && Works(c, m, t)
    ensures Works(c, s, t)
  {
    assert Next(c, s, Work(false, AtOrigin(c, s)), m);
    WorkFirst(c, s, m, t);
  }

  lemma {:induction false} WorkDrop<H(!new)>(c: Config<H>, s: State<H>, m: State<H>, t: State<H>)
    requires (s.pc.Handle? || s.pc.Start? || s.pc.Continue? || s.pc.ConsumeDropped?) && m == DropStep(c, s) && Works(c, m, t)
    ensures Works(c, s, t)
  {
    assert Next(c, s, Work(false, AtOrigin(c, s)), m);
    WorkFirst(c, s, m, t);
  }

  lemma {:induction false} WorkHole<H(!new)>(c: Config<H>, s: State<H>, m: State<H>, t: State<H>)
    requires (s.pc.HoleWrite? || s.pc.HoleAccount? || s.pc.HoleClear?) && m == HoleStep(c, s, false) && Works(c, m, t)
    ensures Works(c, s, t)
  {
    assert Next(c, s, Work(false, AtOrigin(c, s)), m);
    WorkFirst(c, s, m, t);
  }

  lemma {:induction false} WorkKeep<H(!new)>(c: Config<H>, s: State<H>, m: State<H>, t: State<H>)
    requires (s.pc.KeepWrite? || s.pc.ConsumeKept?) && m == KeepStep(c, s, false) && Works(c, m, t)
    ensures Works(c, s, t)
  {
    assert Next(c, s, Work(false, AtOrigin(c, s)), m);
    WorkFirst(c, s, m, t);
  }

  /** The writer's view of the queue. */
  ghost predicate InBounds<H>(c: Config<H>, s: State<H>) {
    s.known <= s.taken <= |s.queue| <= s.known + c.capacity
  }

  /** What `write_ptr` leaves when there is room: some cached tail, and the slot is granted. */
  ghost function Granted<H>(s: State<H>, known: nat): State<H>
    requires s.pc.KeepSlot? || s.pc.HoleSlot?
  {
    s.(known := known, pc := if s.pc.KeepSlot? then KeepWrite(s.pc.ev) else HoleWrite(s.pc.next, s.pc.id))
  }

  lemma {:induction false} SlotIsGranted<H(!new)>(c: Config<H>, s: State<H>) returns (known: nat)
    requires (s.pc.KeepSlot? || s.pc.HoleSlot?) && InBounds(c, s) && Free(c, s) >= 1
    ensures s.known <= known <= s.taken && |s.queue| < known + c.capacity
    ensures forall t :: Works(c, Granted(s, known), t) ==> Works(c, s, t)
  {
    known := Refreshed(c, s, AtOrigin(c, s));
    assert Next(c, s, Work(false, AtOrigin(c, s)), Granted(s, known));
    forall t | Works(c, Granted(s, known), t) ensures Works(c, s, t) {
      WorkFirst(c, s, Granted(s, known), t);
    }
  }

  /** The dropped events that no hole covers yet. */
  ghost function PendingEvents<H>(s: State<H>): seq<Event>
    requires s.droppedNum <= s.consumed <= |s.produced|
  {
    s.produced[s.consumed - s.droppedNum..s.consumed]
  }

  /** What becomes of the event at hand.  Once more than the threshold is free the drops end
      with a hole before the event; without drops it is forwarded if there is room at all;
      otherwise it joins the dropped ones, and every ten thousand of them are reported. */
  ghost predicate Handled<H>(c: Config<H>, s: State<H>, ev: Event, t: State<H>)
    requires s.droppedNum <= s.consumed < |s.produced| && s.droppedNum < ev.id
  {
    var d, free := s.droppedNum, c.capacity - (|s.queue| - s.taken);
    t.pc.Fetch? && t.produced == s.produced && t.consumed == s.consumed + 1 && t.taken == s.taken
    && if d > 0 && free > s.threshold then
         t.queue == s.queue + [Hole(ev.id - 1, Fold(c, PendingEvents(s))), Kept(ev)] && t.droppedNum == 0
         && t.notices == s.notices + [(ev.id - d, ev.id - 1)]
         && t.totalNum == s.totalNum + d && t.totalTimes == s.totalTimes + 1
       else if d == 0 && free > 0 then
         t.queue == s.queue + [Kept(ev)] && t.droppedNum == 0
         && t.notices == s.notices && t.totalNum == s.totalNum && t.totalTimes == s.totalTimes
       else
         t.queue == s.queue && t.droppedNum == d + 1 && t.hole == Fold(c, s.produced[s.consumed - d..s.consumed + 1])
         && t.notices == s.notices + (if d > 0 && (d + 1) % 10000 == 0 then [(ev.id - d, ev.id - 1)] else [])
         && t.totalNum == s.totalNum && t.totalTimes == s.totalTimes
  }

  /** What the invariant says where an event is at hand or the stream ends. */
  ghost predicate Ready<H>(c: Config<H>, s: State<H>) {
    s.threshold >= 1 && InBounds(c, s) && s.droppedNum <= s.consumed <= |s.produced|
    && (s.droppedNum > 0 ==> s.hole == Fold(c, PendingEvents(s)) && s.dropBegin + s.droppedNum == s.consumed + 1)
  }

  lemma {:induction false} InvIsReady<H>(c: Config<H>, s: State<H>)
    requires Inv(c, s) && (s.pc.Handle? || s.pc.Ending?)
    ensures Ready(c, s) && (s.pc.Handle? ==> InHand(s, s.pc.ev))
    ensures s.pc.Ending? ==> s.consumed == |s.produced| && (s.droppedNum > 0 ==> s.pc.last == s.consumed)
  {
  }

  lemma {:induction false} KeepingWorks<H(!new)>(c: Config<H>, s: State<H>) returns (t: State<H>)
    requires InBounds(c, s) && s.pc.KeepSlot? && s.consumed < s.seen && Free(c, s) >= 1
    ensures Works(c, s, t)
    ensures t == s.(queue := s.queue + [Kept(s.pc.ev)], known := t.known, consumed := s.consumed + 1, pc := Fetch(1))
  {
    var ev := s.pc.ev;
    var known := SlotIsGranted(c, s);
    var s1 := Granted(s, known);
    var s2 := s1.(queue := s.queue + [Kept(ev)], pc := ConsumeKept(ev));
    t := s2.(consumed := s.consumed + 1, pc := Fetch(1));
    WorkNone(c, t);
    WorkKeep(c, s2, t, t);
    WorkKeep(c, s1, s2, t);
  }

  /** The state once the hole is out and accounted for. */
  ghost function HoleOut<H>(s: State<H>, known: nat): State<H>
    requires s.pc.HoleSlot?
  {
    s.(queue := s.queue + [Hole(s.pc.id, s.hole)], known := known,
       totalNum := s.totalNum + s.droppedNum, totalTimes := s.totalTimes + 1,
       notices := s.notices + [(s.dropBegin, s.pc.id)], droppedNum := 0,
       pc := if s.pc.next.Some? then KeepSlot(s.pc.next.value) else Ending(s.pc.id + 1))
  }

  lemma {:induction false} HoleWorks<H(!new)>(c: Config<H>, s: State<H>, known: nat, u: State<H>)
    requires s.pc.HoleSlot? && Works(c, HoleOut(s, known), u)
    ensures Works(c, Granted(s, known), u)
  {
    var next, id := s.pc.next, s.pc.id;
    var s1 := Granted(s, known);
    var s2 := s1.(queue := s.queue + [Hole(id, s.hole)], pc := HoleAccount(next, id));
    var s3 := s2.(totalNum := s.totalNum + s.droppedNum, totalTimes := s.totalTimes + 1,
                  notices := s.notices + [(s.dropBegin, id)], pc := HoleClear(next, id));
    WorkHole(c, s3, HoleOut(s, known), u);
    WorkHole(c, s2, s3, u);
    WorkHole(c, s1, s2, u);
  }

  lemma {:induction false} ForwardOutcome<H(!new)>(c: Config<H>, s: State<H>) returns (t: State<H>)
    requires s.pc.Handle? && Ready(c, s) && InHand(s, s.pc.ev) && s.droppedNum == 0 && Free(c, s) > 0
    ensures Works(c, s, t) && Handled(c, s, s.pc.ev, t)
  {
    var s1 := s.(pc := KeepSlot(s.pc.ev));
    t := KeepingWorks(c, s1);
    WorkDrop(c, s, s1, t);
  }

  lemma {:induction false} HoleOutcome<H(!new)>(c: Config<H>, s: State<H>) returns (t: State<H>)
    requires s.pc.Handle? && Ready(c, s) && InHand(s, s.pc.ev) && s.droppedNum > 0 && Free(c, s) > s.threshold
    ensures Works(c, s, t) && Handled(c, s, s.pc.ev, t)
  {
    var ev := s.pc.ev;
    var s1 := s.(pc := HoleSlot(Some(ev), ev.id - 1));
    var known := SlotIsGranted(c, s1);
    t := KeepingWorks(c, HoleOut(s1, known));
    HoleWorks(c, s1, known, t);
    WorkDrop(c, s, s1, t);
    assert s.queue + [Hole(ev.id - 1, s.hole)] + [Kept(ev)] == s.queue + [Hole(ev.id - 1, s.hole), Kept(ev)];
  }

  /** The last two steps for a dropped event. */
  lemma {:induction false} DroppingWorks<H(!new)>(c: Config<H>, s: State<H>, ev: Event) returns (t: State<H>)
    requires (s.pc == Start(ev) || s.pc == Continue(ev)) && s.consumed < s.seen
    ensures Works(c, s, t) && t == DropStep(c, s).(consumed := s.consumed + 1, pc := Fetch(ev.id))
  {
    var s2 := DropStep(c, s);
    t := s2.(consumed := s.consumed + 1, pc := Fetch(ev.id));
    WorkNone(c, t);
    WorkDrop(c, s2, t, t);
    WorkDrop(c, s, s2, t);
  }

  lemma {:induction false} DropOutcome<H(!new)>(c: Config<H>, s: State<H>) returns (t: State<H>)
    requires s.pc.Handle? && Ready(c, s) && InHand(s, s.pc.ev)
    requires if s.droppedNum > 0 then Free(c, s) <= s.threshold else Free(c, s) == 0
    ensures Works(c, s, t)
    ensures t == DropStep(c, s.(pc := if s.droppedNum > 0 then Continue(s.pc.ev) else Start(s.pc.ev)))
                 .(consumed := s.consumed + 1, pc := Fetch(s.pc.ev.id))
  {
    var s1 := s.(pc := if s.droppedNum > 0 then Continue(s.pc.ev) else Start(s.pc.ev));
    t := DroppingWorks(c, s1, s.pc.ev);
    WorkDrop(c, s, s1, t);
  }

  lemma {:induction false} DropHandles<H>(c: Config<H>, s: State<H>, t: State<H>)
    requires s.pc.Handle? && Ready(c, s) && InHand(s, s.pc.ev)
    requires if s.droppedNum > 0 then Free(c, s) <= s.threshold else Free(c, s) == 0
    requires t == DropStep(c, s.(pc := if s.droppedNum > 0 then Continue(s.pc.ev) else Start(s.pc.ev)))
                  .(consumed := s.consumed + 1, pc := Fetch(s.pc.ev.id))
    ensures Handled(c, s, s.pc.ev, t)
  {
    FoldExtends(c, s.produced, s.consumed - s.droppedNum, s.consumed);
  }

  /** From every reachable state with an event at hand, the thread alone deals with it. */
  lemma {:induction false} HandleOutcome<H(!new)>(c: Config<H>, s: State<H>) returns (t: State<H>)
    requires Reachable(c, s) && s.pc.Handle?
    ensures s.droppedNum <= s.consumed < |s.produced| && s.droppedNum < s.pc.ev.id == s.consumed + 1
    ensures s.pc.ev == s.produced[s.consumed] && Works(c, s, t) && Handled(c, s, s.pc.ev, t)
  {
    ReachableInv(c, s);
    InvIsReady(c, s);
    if s.droppedNum > 0 && Free(c, s) > s.threshold {
      t := HoleOutcome(c, s);
    } else if s.droppedNum == 0 && Free(c, s) > 0 {
      t := ForwardOutcome(c, s);
    } else {
      t := DropOutcome(c, s);
      DropHandles(c, s, t);
    }
  }

  /** What becomes of a stream at its end.  With drops the thread waits until more than the
      threshold is free, then pushes the last hole and ends; without, it ends at once. */
  ghost predicate Finished<H>(c: Config<H>, s: State<H>, t: State<H>)
    requires s.droppedNum <= s.consumed <= |s.produced|
  {
    var d, last, free := s.droppedNum, |s.produced|, c.capacity - (|s.queue| - s.taken);
    if d == 0 then t == s.(pc := Ended)
    else if free <= s.threshold then t == s
    else
      t.pc == Ended && t.droppedNum == 0 && t.produced == s.produced && t.consumed == s.consumed
      && t.queue == s.queue + [Hole(last - 1, Fold(c, PendingEvents(s)))]
      && t.notices == s.notices + [(last + 1 - d, last - 1)]
      && t.totalNum == s.totalNum + d && t.totalTimes == s.totalTimes + 1
  }

  lemma {:induction false} EndOutcome<H(!new)>(c: Config<H>, s: State<H>) returns (t: State<H>)
    requires Reachable(c, s) && s.pc.Ending?
    ensures s.droppedNum <= s.consumed == |s.produced| && Works(c, s, t) && Finished(c, s, t)
    ensures t == s ==> Next(c, s, Work(false, AtOrigin(c, s)), s)
  {
    ReachableInv(c, s);
    InvIsReady(c, s);
    if s.droppedNum > 0 && Free(c, s) > s.threshold {
      t := LastHoleOutcome(c, s);
      LastHoleFinishes(c, s, t);
    } else {
      t := if s.droppedNum == 0 then s.(pc := Ended) else s;
      WorkNone(c, t);
      WorkFetch(c, s, t, t);
    }
  }

  lemma {:induction false} LastHoleOutcome<H(!new)>(c: Config<H>, s: State<H>) returns (t: State<H>)
    requires s.pc.Ending? && Ready(c, s) && s.droppedNum > 0 && Free(c, s) > s.threshold
    requires s.consumed == |s.produced| && s.pc.last == s.consumed
    ensures Works(c, s, t) && t == HoleOut(s.(pc := HoleSlot(None, s.consumed - 1)), t.known).(pc := Ended)
  {
    var s1 := s.(pc := HoleSlot(None, s.consumed - 1));
    t := LastHoleWorks(c, s1);
    WorkFetch(c, s, s1, t);
  }

  lemma {:induction false} LastHoleFinishes<H>(c: Config<H>, s: State<H>, t: State<H>)
    requires Ready(c, s) && s.droppedNum > 0 && Free(c, s) > s.threshold && s.consumed == |s.produced|
    requires t == HoleOut(s.(pc := HoleSlot(None, s.consumed - 1)), t.known).(pc := Ended)
    ensures Finished(c, s, t)
  {
  }

  lemma {:induction false} LastHoleWorks<H(!new)>(c: Config<H>, s: State<H>) returns (t: State<H>)
    requires s.pc.HoleSlot? && s.pc.next.None? && InBounds(c, s) && Free(c, s) >= 1
    ensures Works(c, s, t) && t == HoleOut(s, t.known).(pc := Ended)
  {
    var known := SlotIsGranted(c, s);
    var s2 := HoleOut(s, known);
    t := s2.(pc := Ended);
    WorkNone(c, t);
    WorkFetch(c, s2, t, t);
    HoleWorks(c, s, known, t);
  }

  /** An event that is there is taken up by the next step; without one the thread goes on
      polling until the source is destroyed, and then turns to the end of the stream. */
  lemma {:induction false} FetchOutcome<H(!new)>(c: Config<H>, s: State<H>) returns (t: State<H>)
    requires Reachable(c, s) && s.pc.Fetch?
    ensures s.consumed <= |s.produced| && Works(c, s, t) && t == s.(seen := t.seen, pc := t.pc)
    ensures t.pc == if s.consumed < |s.produced| then Handle(s.produced[s.consumed])
                    else if s.destroyed then Ending(s.pc.last) else Fetch(s.pc.last)
  {
    ReachableInv(c, s);
    var last := s.pc.last;
    if s.consumed < |s.produced| {
      t := s.(seen := if s.seen == s.consumed then |s.produced| else s.seen, pc := Handle(s.produced[s.consumed]));
      WorkNone(c, t);
      WorkFetch(c, s, t, t);
    } else if s.destroyed {
      var s1, s2 := s.(pc := TestDestroyed(last)), s.(pc := TestSize(last));
      t := s.(pc := Ending(last));
      WorkNone(c, t);
      WorkFetch(c, s2, t, t);
      WorkFetch(c, s1, s2, t);
      WorkFetch(c, s, s1, t);
    } else {
      t := s;
      WorkNone(c, t);
    }
  }

  /** A stream that has ended and whose queue is drained looks done. */
  lemma {:induction false} EndedIsDone<H(!new)>(c: Config<H>, s: State<H>)
    requires Reachable(c, s) && s.pc.Ended? && s.taken == |s.queue|
    ensures IsDone(s)
  {
    ReachableInv(c, s);
  }

  // Ids in the queue ------------------------------------------------------------------------

  /** Both kinds of item as the arbiter reads them; a hole has kind 1. */
  ghost function AsEvent<H>(it: Item<H>): Event {
    match it
    case Kept(ev) => ev
    case Hole(id, _) => Event(1, id, 0)
  }

  ghost function AsEvents<H>(items: seq<Item<H>>): (evs: seq<Event>)
    ensures |evs| == |items| && forall i :: 0 <= i < |items| ==> evs[i] == AsEvent(items[i])
  {
    seq(|items|, i requires 0 <= i < |items| => AsEvent(items[i]))
  }

  ghost predicate Numbered(evs: seq<Event>) {
    forall i :: 0 <= i < |evs| ==> evs[i].id == i + 1
  }

  /** Along an explanation ids increase up to the number of events explained. */
  ghost predicate IdsRise<H>(items: seq<Item<H>>, top: nat) {
    (forall i, j :: 0 <= i < j < |items| ==> AsEvent(items[i]).id < AsEvent(items[j]).id)
    && forall i :: 0 <= i < |items| ==> AsEvent(items[i]).id <= top
  }

  lemma {:induction false} ExplainedIdsRise<H>(c: Config<H>, items: seq<Item<H>>, evs: seq<Event>)
    requires Explains(c, items, evs, 0) && Numbered(evs)
    ensures IdsRise(items, |evs|)
    decreases |items|
  {
    if items != [] {
      var m := |items| - 1;
      var k := SettledBefore(c, items, evs, 0);
      ExplainedIdsRise(c, items[..m], evs[..k]);
      assert forall i :: 0 <= i < m ==> items[..m][i] == items[i];
    }
  }

  /** The events the items before the last one stand for. */
  lemma {:induction false} SettledBefore<H>(c: Config<H>, items: seq<Item<H>>, evs: seq<Event>, slack: nat) returns (k: nat)
    requires items != [] && Explains(c, items, evs, slack) && Numbered(evs)
    ensures k < |evs| && Explains(c, items[..|items| - 1], evs[..k], 0)
    ensures AsEvent(items[|items| - 1]).id + slack == |evs|
  {
    var m := |items| - 1;
    match items[m]
    case Kept(ev) => k := |evs| - 1;
    case Hole(_, _) =>
      k :| 0 <= k < |evs| && HoleOf(c, items[m], evs[k..], slack) && Explains(c, items[..m], evs[..k], 0);
      assert evs[k..][|evs| - k - 1] == evs[|evs| - 1];
  }

  lemma {:induction false} ExplainedIdsOrdered<H>(c: Config<H>, items: seq<Item<H>>, evs: seq<Event>, slack: nat)
    requires Explains(c, items, evs, slack) && slack <= 1 && Numbered(evs)
    ensures AlmostIncreasing(AsEvents(items)) && Ordered(0, AsEvents(items))
  {
    if items != [] {
      var m := |items| - 1;
      var k := SettledBefore(c, items, evs, slack);
      ExplainedIdsRise(c, items[..m], evs[..k]);
      var s := AsEvents(items);
      forall i | 0 <= i < m ensures s[i] == AsEvent(items[..m][i]) {}
      EndOrdered(s, k);
    }
  }

  lemma {:induction false} EndOrdered(s: seq<Event>, k: nat)
    requires s != [] && k <= s[|s| - 1].id
    requires forall i, j :: 0 <= i < j < |s| - 1 ==> s[i].id < s[j].id
    requires forall i :: 0 <= i < |s| - 1 ==> s[i].id <= k
    ensures AlmostIncreasing(s) && Ordered(0, s)
  {
    forall i | 0 <= i < |s| - 2 ensures s[i].id < s[|s| - 1].id {
      assert s[i].id < s[|s| - 2].id;
    }
  }

  /** What the reader finds in the queue is always ordered the way `drop` and
      `drop_older_than` need it: strictly, until the hole that ends the stream. */
  lemma {:induction false} QueueIdsOrdered<H(!new)>(c: Config<H>, s: State<H>)
    requires Reachable(c, s)
    ensures s.taken <= |s.queue| && AlmostIncreasing(AsEvents(s.queue)[s.taken..])
    ensures AlmostIncreasing(AsEvents(s.queue))
    ensures Ordered(0, AsEvents(s.queue))
    ensures !Closed(s) ==> IdsRise(s.queue, |s.produced|)
  {
    ReachableInv(c, s);
    var evs := s.produced[..Accounted(s) - Pending(s)];
    var slack := if Explains(c, s.queue, evs, 0) then 0 else 1;
    ExplainedIdsOrdered(c, s.queue, evs, slack);
    SuffixAlmostIncreasing(AsEvents(s.queue), s.taken);
    if slack == 0 {
      ExplainedIdsRise(c, s.queue, evs);
    }
  }

  /** The id that `shm_arbiter_buffer_drop` reported last, if events are only taken by it. */
  ghost function LastProcessed<H>(s: State<H>): nat
    requires s.taken <= |s.queue|
  {
    if s.taken == 0 then 0 else AsEvent(s.queue[s.taken - 1]).id
  }

  /** It never decreases along a run, whoever moves; while the stream is open, every drop
      raises it. */
  lemma {:induction false} LastProcessedRises<H(!new)>(c: Config<H>, s: State<H>, a: Action, t: State<H>)
    requires Reachable(c, s) && Next(c, s, a, t)
    ensures s.taken <= |s.queue| <= |t.queue| && t.taken <= |t.queue| && LastProcessed(s) <= LastProcessed(t)
    ensures a.Take? && s.taken > 0 && !Closed(s) ==> LastProcessed(s) < LastProcessed(t)
  {
    QueueIdsOrdered(c, s);
    QueueGrows(c, s, a, t);
    if a.Take? && s.taken > 0 {
      LaterIdsRise(s.queue, s.taken - 1, t.taken - 1, |s.produced|);
    }
  }

  lemma {:induction false} LaterIdsRise<H>(queue: seq<Item<H>>, i: nat, j: nat, top: nat)
    requires i < j < |queue| && Ordered(0, AsEvents(queue))
    ensures AsEvent(queue[i]).id <= AsEvent(queue[j]).id
    ensures IdsRise(queue, top) ==> AsEvent(queue[i]).id < AsEvent(queue[j]).id
  {
    var evs := AsEvents(queue);
    assert evs[i].id <= evs[j].id;
  }

  /** The queue as the reader accounts for it, with any reported id. */
  ghost function Reader<H>(s: State<H>, last: nat): Mark {
    Mark(AsEvents(s.queue), s.taken, last)
  }

  /** Whatever the thread and the producer do, they never queue an event below a reported id
      that was behind: so `drop` and permitted calls of `drop_older_than`, mixed in any way,
      never move it back. */
  lemma {:induction false} ThreadKeepsBehind<H(!new)>(c: Config<H>, s: State<H>, a: Action, t: State<H>, last: nat)
    requires Reachable(c, s) && Next(c, s, a, t) && !a.Take? && Behind(Reader(s, last))
    ensures Behind(Reader(t, last))
  {
    ReachableStep(c, s, a, t);
    QueueIdsOrdered(c, t);
    QueueGrows(c, s, a, t);
    GrowthKeepsBehind(s.queue, t.queue, s.taken, last);
  }

  lemma {:induction false} GrowthKeepsBehind<H>(queue: seq<Item<H>>, longer: seq<Item<H>>, taken: nat, last: nat)
    requires queue <= longer && AlmostIncreasing(AsEvents(longer)) && Behind(Mark(AsEvents(queue), taken, last))
    ensures Behind(Mark(AsEvents(longer), taken, last))
  {
    var evs, more := AsEvents(queue), AsEvents(longer[|queue|..]);
    assert AsEvents(longer) == evs + more;
    MoreKeepsBehind(Mark(evs, taken, last), more);
  }

  lemma {:induction false} QueueGrows<H>(c: Config<H>, s: State<H>, a: Action, t: State<H>)
    requires Next(c, s, a, t)
    ensures s.queue <= t.queue && t.taken == s.taken + if a.Take? then a.k else 0
    ensures a.Take? ==> t.queue == s.queue && 0 < a.k <= |s.queue| - s.taken
  {
    if a.Work? {
      FetchGrows(c, s, a.patient);
      DropGrows(c, s);
      HoleGrows(c, s, a.origin);
      KeepGrows(c, s, a.origin);
    }
  }

  lemma {:induction false} FetchGrows<H>(c: Config<H>, s: State<H>, patient: bool)
    ensures FetchStep(c, s, patient).queue == s.queue && FetchStep(c, s, patient).taken == s.taken
  {}

  lemma {:induction false} DropGrows<H>(c: Config<H>, s: State<H>)
    ensures DropStep(c, s).queue == s.queue && DropStep(c, s).taken == s.taken
  {}

  lemma {:induction false} HoleGrows<H>(c: Config<H>, s: State<H>, origin: bool)
    ensures s.queue <= HoleStep(c, s, origin).queue && HoleStep(c, s, origin).taken == s.taken
  {}

  lemma {:induction false} KeepGrows<H>(c: Config<H>, s: State<H>, origin: bool)
    ensures s.queue <= KeepStep(c, s, origin).queue && KeepStep(c, s, origin).taken == s.taken
  {}

  // Two runs ----------------------------------------------------------------------------------

  /** An empty source, an open stream, nothing dropped. */
  ghost predicate Calm<H>(c: Config<H>, s: State<H>) {
    c.srcCapacity > 0 && s.pc.Fetch? && s.droppedNum == 0 && !s.destroyed && s.consumed == s.seen == |s.produced|
    && s.known == 0 && s.taken <= |s.queue|
  }

  /** The next event of the source. */
  ghost function NextEvent<H>(s: State<H>): Event {
    Event(2, |s.produced| + 1, 0)
  }

  /** The source after the next event was produced and consumed. */
  ghost function Advanced<H>(s: State<H>): State<H> {
    s.(produced := s.produced + [NextEvent(s)], consumed := s.consumed + 1, seen := s.seen + 1)
  }

  lemma {:induction false} NextIsHandled<H(!new)>(c: Config<H>, s: State<H>) returns (t: State<H>)
    requires Reachable(c, s) && Calm(c, s)
    ensures Reachable(c, t)
    ensures t == s.(produced := s.produced + [NextEvent(s)], seen := s.seen + 1, pc := Handle(NextEvent(s)))
  {
    var s1 := s.(produced := s.produced + [NextEvent(s)]);
    ReachableStep(c, s, Produce(NextEvent(s)), s1);
    t := s1.(seen := s.seen + 1, pc := Handle(NextEvent(s)));
    ReachableStep(c, s1, Work(false, true), t);
  }

  lemma {:induction false} NextIsKept<H(!new)>(c: Config<H>, s: State<H>) returns (t: State<H>)
    requires Reachable(c, s) && Calm(c, s) && Free(c, s) > 0
    ensures Reachable(c, t)
    ensures t == Advanced(s).(queue := s.queue + [Kept(NextEvent(s))], known := s.taken, pc := Fetch(1))
  {
    var ev := NextEvent(s);
    var s1 := NextIsHandled(c, s);
    var s2 := s1.(pc := KeepSlot(ev));
    ReachableStep(c, s1, Work(false, true), s2);
    var s3 := s2.(known := s.taken, pc := KeepWrite(ev));
    ReachableStep(c, s2, Work(false, true), s3);
    var s4 := s3.(queue := s.queue + [Kept(ev)], pc := ConsumeKept(ev));
    var origin := s.taken % (c.capacity + 1) == 0;
    ReachableStep(c, s3, Work(false, origin), s4);
    t := s4.(consumed := s.consumed + 1, pc := Fetch(1));
    ReachableStep(c, s4, Work(false, origin), t);
  }

  lemma {:induction false} NextIsDropped<H(!new)>(c: Config<H>, s: State<H>) returns (t: State<H>)
    requires Reachable(c, s) && Calm(c, s) && Free(c, s) == 0
    ensures Reachable(c, t)
    ensures t == Advanced(s).(droppedNum := 1, dropBegin := NextEvent(s).id, hole := c.update(c.init, NextEvent(s)),
                              pc := Fetch(NextEvent(s).id))
  {
    var ev := NextEvent(s);
    var s1 := NextIsHandled(c, s);
    var s2 := s1.(pc := Start(ev));
    ReachableStep(c, s1, Work(false, true), s2);
    var s3 := s2.(droppedNum := 1, dropBegin := ev.id, hole := c.update(c.init, ev), pc := ConsumeDropped(ev));
    ReachableStep(c, s2, Work(false, true), s3);
    t := s3.(consumed := s.consumed + 1, pc := Fetch(ev.id));
    ReachableStep(c, s3, Work(false, true), t);
  }

  lemma {:induction false} StreamEnds<H(!new)>(c: Config<H>, s: State<H>) returns (t: State<H>)
    requires Reachable(c, s) && s.pc.Fetch? && s.consumed == s.seen == |s.produced| && s.known == 0
    ensures Reachable(c, t) && t == s.(destroyed := true, pc := Ending(s.pc.last))
  {
    var s1 := s.(destroyed := true);
    ReachableStep(c, s, Destroy, s1);
    var s2 := s1.(pc := TestDestroyed(s.pc.last));
    ReachableStep(c, s1, Work(false, true), s2);
    var s3 := s2.(pc := TestSize(s.pc.last));
    ReachableStep(c, s2, Work(false, true), s3);
    t := s3.(pc := Ending(s.pc.last));
    ReachableStep(c, s3, Work(false, true), t);
  }

  lemma {:induction false} EndIsReported<H(!new)>(c: Config<H>, s: State<H>) returns (t: State<H>)
    requires Reachable(c, s) && s.pc.Ending? && s.droppedNum > 0 && s.known == 0 && Free(c, s) > s.threshold
    requires s.taken <= |s.queue| && Free(c, s) > 0
    ensures Reachable(c, t) && t.taken == s.taken && t.queue == s.queue + [Hole(Pred(s.pc.last), s.hole)]
  {
    var id := Pred(s.pc.last);
    var s1 := s.(pc := HoleSlot(None, id));
    ReachableStep(c, s, Work(false, true), s1);
    var s2 := s1.(known := s.taken, pc := HoleWrite(None, id));
    ReachableStep(c, s1, Work(false, true), s2);
    t := s2.(queue := s.queue + [Hole(id, s.hole)], pc := HoleAccount(None, id));
    ReachableStep(c, s2, Work(false, s.taken % (c.capacity + 1) == 0), t);
  }

  /** `drop_older_than` fails in a run: a queue of three is filled with the events 1, 2 and 3,
      event 4 is dropped, the program ends and the reader takes two events; then the hole,
      whose id is one short, repeats the id 3, and the search finds one event instead of two. */
  lemma {:induction false} RepeatedEndIsReached<H(!new)>(c: Config<H>, start: State<H>) returns (s: State<H>)
    requires Init(c, start) && c.capacity == 3 && start.threshold == 1
    ensures Reachable(c, s) && s.taken <= |s.queue|
    ensures var rest := AsEvents(s.queue)[s.taken..];
            RepeatedAtEnd(rest, 3) && Found(rest, 3) == 1 && CountUpTo(rest, 3) == 2
  {
    assert IsRun(c, [start], []);
    var s1 := NextIsKept(c, start);
    var s2 := NextIsKept(c, s1);
    var s3 := NextIsKept(c, s2);
    var s4 := NextIsDropped(c, s3);
    var s5 := StreamEnds(c, s4);
    var s6 := s5.(taken := 2);
    ReachableStep(c, s5, Take(2), s6);
    s := EndIsReported(c, s6);
    var rest := AsEvents(s.queue)[s.taken..];
    assert rest == [Event(2, 3, 0), Event(1, 3, 0)];
    CountOfPrefix(rest, 3, 2);
  }

  /** And `drop_older_than` overshoots in a run: event 1 is queued and taken with the argument
      100, which is reported; event 2 is then still to come. */
  lemma {:induction false} OvershootIsReached<H(!new)>(c: Config<H>, start: State<H>) returns (s: State<H>, t: State<H>)
    requires Init(c, start)
    ensures Reachable(c, s) && Reachable(c, t) && s.taken <= |s.queue| && t.taken <= |t.queue|
    ensures var m := Do(Reader(s, 0), OlderCall(100));
            Behind(Reader(s, 0)) && m.last == 100
            && t.taken == m.taken && AsEvents(s.queue) <= AsEvents(t.queue) && Do(Reader(t, m.last), DropCall(1)).last == 2
  {
    assert IsRun(c, [start], []);
    s := NextIsKept(c, start);
    var taken := s.(taken := 1);
    ReachableStep(c, s, Take(1), taken);
    t := NextIsKept(c, taken);
    var e1, e2 := Event(2, 1, 0), Event(2, 2, 0);
    assert AsEvents(s.queue) == [e1] && AsEvents(t.queue) == [e1, e2];
    OlderThanOvershoots(e1, e2);
  }

  // Holes and notices ----------------------------------------------------------------------------

  /** The id of the item before position i, 0 at the front. */
  ghost function IdBefore<H>(queue: seq<Item<H>>, i: nat): nat
    requires i <= |queue|
  {
    if i == 0 then 0 else AsEvent(queue[i - 1]).id
  }

  /** Each hole among the first n items was reported as dropped, from the event after the item
      before it up to its own id. */
  ghost predicate Reported<H>(queue: seq<Item<H>>, n: nat, notices: seq<(nat, nat)>) {
    n <= |queue|
    && forall i :: 0 <= i < n && queue[i].Hole? ==> (IdBefore(queue, i) + 1, queue[i].id) in notices
  }

  lemma {:induction false} ReportedLonger<H>(queue: seq<Item<H>>, longer: seq<Item<H>>, n: nat,
                                             notices: seq<(nat, nat)>, more: seq<(nat, nat)>)
    requires Reported(queue, n, notices) && queue <= longer && notices <= more
    ensures Reported(longer, n, more)
  {
    forall i | 0 <= i < n && longer[i].Hole? ensures (IdBefore(longer, i) + 1, longer[i].id) in more {
      assert longer[i] == queue[i] && IdBefore(longer, i) == IdBefore(queue, i);
    }
  }

  lemma ReportedOne<H>(queue: seq<Item<H>>, n: nat, notices: seq<(nat, nat)>)
    requires Reported(queue, n, notices) && n < |queue|
    requires queue[n].Hole? ==> (IdBefore(queue, n) + 1, queue[n].id) in notices
    ensures Reported(queue, n + 1, notices)
  {
  }

  /** All holes are, but for one that is just being accounted for. */
  ghost predicate HolesReported<H>(s: State<H>) {
    if s.pc.HoleAccount? then
      s.queue != [] && Reported(s.queue, |s.queue| - 1, s.notices)
      && s.queue[|s.queue| - 1].Hole? && s.queue[|s.queue| - 1].id == s.pc.id
      && s.dropBegin == IdBefore(s.queue, |s.queue| - 1) + 1
    else Reported(s.queue, |s.queue|, s.notices)
  }

  /** The queue ends where the pending drops begin. */
  lemma {:induction false} DropsBeginAfterQueue<H>(c: Config<H>, s: State<H>)
    requires Inv(c, s) && s.pc.HoleWrite?
    ensures s.dropBegin == IdBefore(s.queue, |s.queue|) + 1
  {
    var evs := s.produced[..s.consumed - s.droppedNum];
    if s.queue != [] {
      var k := SettledBefore(c, s.queue, evs, 0);
    }
  }

  lemma {:induction false} HoleWriteReports<H>(s: State<H>, t: State<H>)
    requires HolesReported(s) && s.pc.HoleWrite? && s.dropBegin == IdBefore(s.queue, |s.queue|) + 1
    requires t == s.(queue := s.queue + [Hole(s.pc.id, s.hole)], pc := HoleAccount(s.pc.next, s.pc.id))
    ensures HolesReported(t)
  {
    ReportedLonger(s.queue, t.queue, |s.queue|, s.notices, s.notices);
  }

  lemma {:induction false} HoleAccountReports<H>(s: State<H>, t: State<H>)
    requires HolesReported(s) && s.pc.HoleAccount? && !t.pc.HoleAccount?
    requires t.queue == s.queue && t.notices == s.notices + [(s.dropBegin, s.pc.id)]
    ensures HolesReported(t)
  {
    var n := |s.queue| - 1;
    ReportedLonger(s.queue, t.queue, n, s.notices, t.notices);
    assert t.notices[|s.notices|] == (s.dropBegin, s.pc.id);
    ReportedOne(t.queue, n, t.notices);
  }

  /** Nothing is added, or an event that is kept, and no notice is taken back. */
  ghost predicate NoNewHole<H>(s: State<H>, t: State<H>) {
    && !t.pc.HoleAccount? && s.notices <= t.notices && s.queue <= t.queue
    && (|t.queue| == |s.queue| || (|t.queue| == |s.queue| + 1 && t.queue[|s.queue|].Kept?))
  }

  lemma {:induction false} QuietReports<H>(s: State<H>, t: State<H>)
    requires HolesReported(s) && !s.pc.HoleAccount? && NoNewHole(s, t)
    ensures HolesReported(t)
  {
    ReportedLonger(s.queue, t.queue, |s.queue|, s.notices, t.notices);
    if |t.queue| > |s.queue| {
      ReportedOne(t.queue, |s.queue|, t.notices);
    }
  }

  lemma {:induction false} FetchQuiet<H>(c: Config<H>, s: State<H>, patient: bool)
    requires !s.pc.HoleAccount?
    ensures NoNewHole(s, FetchStep(c, s, patient))
  {}

  lemma {:induction false} DropQuiet<H>(c: Config<H>, s: State<H>)
    requires !s.pc.HoleAccount?
    ensures NoNewHole(s, DropStep(c, s))
  {}

  lemma {:induction false} HoleQuiet<H>(c: Config<H>, s: State<H>, origin: bool)
    requires s.pc.HoleClear? || (s.pc.HoleSlot? && |s.queue| - Refreshed(c, s, origin) < c.capacity)
    ensures NoNewHole(s, HoleStep(c, s, origin))
  {}

  lemma {:induction false} KeepQuiet<H>(c: Config<H>, s: State<H>, origin: bool)
    requires !s.pc.HoleAccount?
    ensures NoNewHole(s, KeepStep(c, s, origin))
  {}

  ghost predicate AtHole(pc: Pc) {
    pc.HoleSlot? || pc.HoleWrite? || pc.HoleAccount? || pc.HoleClear?
  }

  lemma {:induction false} HoleReports<H>(c: Config<H>, s: State<H>, origin: bool)
    requires Inv(c, s) && HolesReported(s) && AtHole(s.pc)
    ensures HolesReported(HoleStep(c, s, origin))
  {
    var t := HoleStep(c, s, origin);
    match s.pc
    case HoleWrite(_, _) =>
      DropsBeginAfterQueue(c, s);
      HoleWriteReports(s, t);
    case HoleAccount(_, _) => HoleAccountReports(s, t);
    case _ =>
      HoleQuiet(c, s, origin);
      QuietReports(s, t);
  }

  lemma {:induction false} OthersAreQuiet<H>(c: Config<H>, s: State<H>, patient: bool, origin: bool)
    requires !AtHole(s.pc)
    ensures NoNewHole(s, ThreadStep(c, s, patient, origin))
  {
    FetchQuiet(c, s, patient);
    DropQuiet(c, s);
    KeepQuiet(c, s, origin);
  }

  lemma {:induction false} ThreadReports<H>(c: Config<H>, s: State<H>, patient: bool, origin: bool)
    requires Inv(c, s) && HolesReported(s)
    ensures HolesReported(ThreadStep(c, s, patient, origin))
  {
    if AtHole(s.pc) {
      HoleReports(c, s, origin);
    } else {
      OthersAreQuiet(c, s, patient, origin);
      QuietReports(s, ThreadStep(c, s, patient, origin));
    }
  }

  lemma {:induction false} StepReports<H>(c: Config<H>, s: State<H>, a: Action, t: State<H>)
    requires Inv(c, s) && HolesReported(s) && Next(c, s, a, t)
    ensures HolesReported(t)
  {
    if a.Work? {
      ThreadReports(c, s, a.patient, a.origin);
    }
  }

  lemma {:induction false} RunReports<H>(c: Config<H>, states: seq<State<H>>, acts: seq<Action>)
    requires IsRun(c, states, acts)
    ensures HolesReported(states[|acts|])
  {
    var m := |acts| - 1;
    if acts != [] {
      RunKeepsInv(c, states[..m + 1], acts[..m]);
      RunReports(c, states[..m + 1], acts[..m]);
      StepReports(c, states[m], acts[m], states[m + 1]);
    }
  }

  /** In every reachable state the program was told of every hole in the queue. */
  lemma {:induction false} HolesAreReported<H(!new)>(c: Config<H>, s: State<H>, i: nat)
    requires Reachable(c, s) && i < |s.queue| && s.queue[i].Hole? && !(s.pc.HoleAccount? && i == |s.queue| - 1)
    ensures ((if i == 0 then 0 else AsEvent(s.queue[i - 1]).id) + 1, s.queue[i].id) in s.notices
  {
    var states: seq<State<H>>, acts: seq<Action> :| IsRun(c, states, acts) && states[|acts|] == s;
    RunReports(c, states, acts);
  }

  // The default hole handling ------------------------------------------------------------------

  /** `default_hole_init` and `default_hole_update` */
  ghost predicate CountsEvents(c: Config<nat>) {
    c.init == 0 && forall n: nat, ev: Event :: c.update(n, ev) == n + 1
  }

  lemma {:induction false} DefaultHoleCounts(c: Config<nat>, evs: seq<Event>)
    requires CountsEvents(c)
    ensures Fold(c, evs) == |evs|
  {
    if evs != [] {
      DefaultHoleCounts(c, evs[..|evs| - 1]);
    }
  }

  ghost function HoleTotal(items: seq<Item<nat>>): nat {
    if items == [] then 0
    else HoleTotal(items[..|items| - 1]) + match items[|items| - 1] case Kept(_) => 0 case Hole(_, n) => n
  }

  /** With default holes the numbers in the queue account for every event. */
  lemma {:induction false} DefaultHolesAccount(c: Config<nat>, items: seq<Item<nat>>, evs: seq<Event>, slack: nat)
    requires CountsEvents(c) && Explains(c, items, evs, slack)
    ensures KeptCount(items) + HoleTotal(items) == |evs|
    decreases |items|
  {
    if items != [] {
      var m := |items| - 1;
      match items[m]
      case Kept(ev) => DefaultHolesAccount(c, items[..m], evs[..|evs| - 1], 0);
      case Hole(_, _) =>
        var k :| 0 <= k < |evs| && HoleOf(c, items[m], evs[k..], slack) && Explains(c, items[..m], evs[..k], 0);
        DefaultHoleCounts(c, evs[k..]);
        DefaultHolesAccount(c, items[..m], evs[..k], 0);
    }
  }
}
