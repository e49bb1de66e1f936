/** The single-producer single-consumer ring under every interleaving.

    The concrete machine has one step for each atomic load or store of the C code, for
    the copy into a slot, and for each read of a slot.  Its guards look at nothing but
    the shared offsets and the two private caches.  The specification is a bounded FIFO:
    the sequence of everything ever published and a count of what was consumed. */
module SpscRing {
  import opened RingIndex

  // The concrete machine --------------------------------------------------------------

  /** Where the writer is inside `write_ptr` .. `write_finish`. */
  datatype WriterPc = WIdle | WNeedTail | WReady | WCopied

  /** The reader either holds a view (`seen_head`) or is about to refresh it. */
  datatype ReaderPc = RHolds | RNeedHead

  datatype Ring<T> = Ring(
    capacity: nat,
    data: seq<T>,
    head: nat,
    tail: nat,
    seenHead: nat,
    seenTail: nat,
    w: WriterPc,
    r: ReaderPc)

  /** Labels carry what the step shows to its caller. */
  datatype Step<T> =
    | WBegin                            // load head, test the cached tail
    | WLoadTail(room: bool)             // refresh the cached tail; `room` is `n > 0`
    | WCopy(x: T)                       // memcpy into the slot at head
    | WPublish(x: T)                    // store head
    | WObserveFree(n: nat)              // free_num, from the shared offsets
    | RBegin(want: nat)                 // load tail, test the cached head
    | RLoadHead(n: nat)                 // refresh the cached head; `n` elements are there
    | RRead(n: nat, k: nat, v: T)       // read the k-th element of a peek of n elements
    | RConsume(k: nat)                  // store tail

  ghost predicate WellSized<T>(s: Ring<T>) {
    s.head < s.capacity && s.tail < s.capacity && s.seenHead < s.capacity && s.seenTail < s.capacity
    && |s.data| == s.capacity
  }

  ghost predicate Init<T>(s: Ring<T>) {
    s.capacity > 0 && |s.data| == s.capacity
    && s.head == s.tail == s.seenHead == s.seenTail == 0 && s.w == WIdle && s.r == RHolds
  }

  /** Elements the reader may touch without looking at `head` again. */
  ghost function Avail<T>(s: Ring<T>): nat
    requires WellSized(s)
  {
    WrittenNum(s.seenHead, s.tail, s.capacity)
  }

  /** Offset of the k-th element in the two segments of a peek of n elements. */
  ghost function ReadOffset<T>(s: Ring<T>, n: nat, k: nat): nat
    requires WellSized(s) && k < n <= Avail(s)
  {
    var p := PeekSegments(s.seenHead, s.tail, s.capacity, n);
    if k < p.len1 then p.off + k else k - p.len1
  }

  ghost predicate Next<T>(s: Ring<T>, a: Step<T>, t: Ring<T>)
    requires WellSized(s)
  {
    match a
    case WBegin =>
      s.w == WIdle
      && t == s.(w := if s.seenTail == 0 || WriteOff(s.head, s.seenTail, s.capacity).total == 0
                      then WNeedTail else WReady)
    case WLoadTail(room) =>
      s.w == WNeedTail
      && room == (WriteOff(s.head, s.tail, s.capacity).n > 0)
      && t == s.(seenTail := s.tail, w := if room then WReady else WIdle)
    case WCopy(x) =>
      s.w == WReady && t == s.(data := s.data[s.head := x], w := WCopied)
    case WPublish(x) =>
      s.w == WCopied && x == s.data[s.head]
      && t == s.(head := Advance(s.head, 1, s.capacity), w := WIdle)
    case WObserveFree(n) =>
      n == FreeNum(s.head, s.tail, s.capacity) && t == s
    case RBegin(want) =>
      s.r == RHolds && t == s.(r := if Avail(s) < want || want == 0 then RNeedHead else RHolds)
    case RLoadHead(n) =>
      s.r == RNeedHead && n == WrittenNum(s.head, s.tail, s.capacity)
      && t == s.(seenHead := s.head, r := RHolds)
    case RRead(n, k, v) =>
      s.r == RHolds && k < n <= Avail(s) && ReadOffset(s, n, k) < s.capacity
      && v == s.data[ReadOffset(s, n, k)] && t == s
    case RConsume(k) =>
      s.r == RHolds && 0 < k <= Avail(s) && t == s.(tail := Advance(s.tail, k, s.capacity))
  }

  // The specification: a bounded FIFO ----------------------------------------------------

  /** `log` is all that was published, `taken` how much of it was consumed, `seen` how
      much of it the reader has noticed and `known` how much consumption the writer has
      noticed. */
  datatype Fifo<T> = Fifo(log: seq<T>, taken: nat, seen: nat, known: nat)

  /** What the specification lets each label show. */
  ghost predicate Allowed<T>(capacity: nat, q: Fifo<T>, a: Step<T>) {
    match a
    case WBegin | WCopy(_) | RBegin(_) => true
    case WLoadTail(room) => room <==> |q.log| - q.taken < capacity - 1
    case WPublish(_) => |q.log| - q.taken < capacity - 1
    case WObserveFree(n) => n == capacity - 1 - (|q.log| - q.taken)
    case RLoadHead(n) => n == |q.log| - q.taken
    case RRead(n, k, v) => k < n && q.taken + n <= |q.log| && v == q.log[q.taken + k]
    case RConsume(k) => 0 < k <= |q.log| - q.taken
  }

  ghost function Effect<T>(q: Fifo<T>, a: Step<T>): Fifo<T> {
    match a
    case WLoadTail(_) => q.(known := q.taken)
    case WPublish(x) => q.(log := q.log + [x])
    case RLoadHead(_) => q.(seen := |q.log|)
    case RConsume(k) => q.(taken := q.taken + k)
    case _ => q
  }

  /** The FIFO after a sequence of labels. */
  ghost function After<T>(steps: seq<Step<T>>): Fifo<T> {
    if steps == [] then Fifo([], 0, 0, 0)
    else Effect(After(steps[..|steps| - 1]), steps[|steps| - 1])
  }

  // The simulation ------------------------------------------------------------------------

  /** Both caches lag, in the safe direction, and all four offsets are residues. */
  ghost predicate Counters<T>(s: Ring<T>, q: Fifo<T>) {
    s.capacity > 0
    && q.known <= q.taken <= q.seen <= |q.log| < q.known + s.capacity
    && s.head == |q.log| % s.capacity && s.tail == q.taken % s.capacity
    && s.seenHead == q.seen % s.capacity && s.seenTail == q.known % s.capacity
  }

  /** The slot of the i-th element ever published. */
  ghost function Slot<T>(data: seq<T>, i: nat): T
    requires data != []
  {
    data[i % |data|]
  }

  /** What is published and not consumed is in its slot. */
  ghost predicate Holds<T>(data: seq<T>, q: Fifo<T>) {
    data != [] && forall i {:trigger Slot(data, i)} :: q.taken <= i < |q.log| ==> Slot(data, i) == q.log[i]
  }

  ghost predicate Simulates<T>(s: Ring<T>, q: Fifo<T>) {
    |s.data| == s.capacity && Counters(s, q) && Holds(s.data, q)
    && (s.w == WReady || s.w == WCopied ==> |q.log| - q.known < s.capacity - 1)
  }

  lemma CountersGiveViews<T>(s: Ring<T>, q: Fifo<T>)
    requires Simulates(s, q)
    ensures WellSized(s)
    ensures Avail(s) == q.seen - q.taken
    ensures FreeNum(s.head, s.tail, s.capacity) == s.capacity - 1 - (|q.log| - q.taken)
    ensures WrittenNum(s.head, s.tail, s.capacity) == |q.log| - q.taken
    ensures WriteOff(s.head, s.tail, s.capacity).n > 0 <==> |q.log| - q.taken < s.capacity - 1
    ensures WriteOff(s.head, s.seenTail, s.capacity).n > 0 <==> |q.log| - q.known < s.capacity - 1
  {
    CountersBehindOffsets(q.seen, q.taken, s.capacity);
    CountersBehindOffsets(|q.log|, q.taken, s.capacity);
    CountersBehindOffsets(|q.log|, q.known, s.capacity);
  }

  /** While the writer owns a slot, no offset the reader may touch is that slot. */
  lemma WriterSlotIsPrivate<T>(s: Ring<T>, q: Fifo<T>, n: nat, k: nat)
    requires Simulates(s, q) && (s.w == WReady || s.w == WCopied)
    requires WellSized(s) && k < n <= Avail(s)
    ensures ReadOffset(s, n, k) != s.head
  {
    CountersGiveViews(s, q);
    PeekedOffset(q.seen, q.taken, s.capacity, n, k);
    DistinctOffsets(q.taken + k, |q.log|, s.capacity);
  }

  lemma CopyKeepsContents<T>(s: Ring<T>, q: Fifo<T>, x: T)
    requires Simulates(s, q) && s.w == WReady && WellSized(s)
    ensures Holds(s.data[s.head := x], q)
  {
    forall i | q.taken <= i < |q.log| ensures Slot(s.data[s.head := x], i) == q.log[i] {
      DistinctOffsets(i, |q.log|, s.capacity);
      assert Slot(s.data, i) == q.log[i];
    }
  }

  /** Every concrete step shows only what the FIFO allows. */
  lemma StepShowsFifo<T>(s: Ring<T>, q: Fifo<T>, a: Step<T>, t: Ring<T>)
    requires Simulates(s, q) && WellSized(s) && Next(s, a, t)
    ensures Allowed(s.capacity, q, a)
  {
    CountersGiveViews(s, q);
    if a.RRead? {
      PeekedOffset(q.seen, q.taken, s.capacity, a.n, a.k);
      assert Slot(s.data, q.taken + a.k) == a.v;
    }
  }

  lemma PublishSimulates<T>(s: Ring<T>, q: Fifo<T>, x: T, t: Ring<T>)
    requires Simulates(s, q) && WellSized(s) && Next(s, WPublish(x), t)
    ensures Simulates(t, Effect(q, WPublish(x)))
  {
    AdvanceCounter(|q.log|, 1, s.capacity);
    var q' := Effect(q, WPublish(x));
    forall i {:trigger Slot(s.data, i)} | q'.taken <= i < |q'.log| ensures Slot(s.data, i) == q'.log[i] {}
  }

  lemma ConsumeSimulates<T>(s: Ring<T>, q: Fifo<T>, k: nat, t: Ring<T>)
    requires Simulates(s, q) && WellSized(s) && Next(s, RConsume(k), t)
    ensures Simulates(t, Effect(q, RConsume(k)))
  {
    CountersGiveViews(s, q);
    AdvanceCounter(q.taken, k, s.capacity);
  }

  /** Every concrete step keeps the simulation. */
  lemma StepSimulates<T>(s: Ring<T>, q: Fifo<T>, a: Step<T>, t: Ring<T>)
    requires Simulates(s, q) && WellSized(s) && Next(s, a, t)
    ensures Simulates(t, Effect(q, a)) && t.capacity == s.capacity
  {
    match a
    case WCopy(x) => CopyKeepsContents(s, q, x);
    case WPublish(x) => PublishSimulates(s, q, x, t);
    case RConsume(k) => ConsumeSimulates(s, q, k, t);
    case _ => CountersGiveViews(s, q);
  }

  // Whole runs ------------------------------------------------------------------------------

  ghost predicate IsRun<T>(states: seq<Ring<T>>, steps: seq<Step<T>>) {
    |states| == |steps| + 1 && Init(states[0])
    && forall i :: 0 <= i < |steps| ==> WellSized(states[i]) && Next(states[i], steps[i], states[i + 1])
  }

  lemma {:induction false} RunSimulates<T>(states: seq<Ring<T>>, steps: seq<Step<T>>)
    requires IsRun(states, steps)
    ensures Simulates(states[|steps|], After(steps)) && states[|steps|].capacity == states[0].capacity
  {
    var m := |steps| - 1;
    if steps != [] {
      RunSimulates(states[..m + 1], steps[..m]);
      StepSimulates(states[m], After(steps[..m]), steps[m], states[m + 1]);
    }
  }

  /** Refinement: in every run of one writer and one reader, at every point, the caches
      lag in order, and the next label is one the bounded FIFO allows.  So a read returns
      the element published at that position, a failed push means the queue really was
      full when `tail` was loaded, and nothing is ever overwritten before it is consumed. */
  lemma RunRefinesFifo<T>(states: seq<Ring<T>>, steps: seq<Step<T>>, i: nat)
    requires IsRun(states, steps) && i <= |steps|
    ensures var q := After(steps[..i]);
            Counters(states[i], q) && Holds(states[i].data, q)
            && (i < |steps| ==> Allowed(states[0].capacity, q, steps[i]))
  {
    RunSimulates(states[..i + 1], steps[..i]);
    if i < |steps| {
      StepShowsFifo(states[i], After(steps[..i]), steps[i], states[i + 1]);
    }
  }
}
