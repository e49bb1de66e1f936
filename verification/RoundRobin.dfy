/** `default_process_events`: a round robin over the arbiter buffers. */
module RoundRobin {
  import opened ArbiterQueue

  // The order of service --------------------------------------------------------------------------

  /** The buffer at which a scan from i stops, or the number of buffers.  `ready` says what the
      scan finds when it gets to each buffer. */
  function FirstReady(ready: seq<bool>, i: nat): (j: nat)
    requires i <= |ready|
    ensures i <= j <= |ready| && (j < |ready| ==> ready[j])
    ensures forall k :: i <= k < j ==> !ready[k]
    decreases |ready| - i
  {
    if i == |ready| || ready[i] then i else FirstReady(ready, i + 1)
  }

  /** Where a call starts, if the counter was left at i. */
  function Start(i: nat, n: nat): nat {
    if i >= n then 0 else i
  }

  /** The buffer a call serves, or the number of buffers. */
  function Served(i: nat, ready: seq<bool>): nat {
    FirstReady(ready, Start(i, |ready|))
  }

  function CounterAfter(i: nat, ready: seq<bool>): nat {
    var j := Served(i, ready);
    if j < |ready| then j + 1 else j
  }

  /** How many calls it takes at most until buffer j is reached. */
  function Wait(i: nat, j: nat, n: nat): nat
    requires j < n
  {
    if Start(i, n) <= j then j + 1 - Start(i, n) else n - i + j + 1
  }

  /** The counter after the first t calls. */
  function CounterAt(i: nat, calls: seq<seq<bool>>, t: nat): nat
    requires t <= |calls|
  {
    if t == 0 then i else CounterAfter(CounterAt(i, calls, t - 1), calls[t - 1])
  }

  lemma CallShortensWait(i: nat, j: nat, ready: seq<bool>)
    requires j < |ready| && ready[j] && Served(i, ready) != j
    ensures Wait(CounterAfter(i, ready), j, |ready|) < Wait(i, j, |ready|)
  {
  }

  /** No starvation: whatever the other buffers do and wherever the counter stands, one of n
      calls that all find buffer j non-empty serves it. */
  lemma {:induction false} NoStarvation(i: nat, calls: seq<seq<bool>>, n: nat, j: nat) returns (t: nat)
    requires j < n && |calls| >= Wait(i, j, n)
    requires forall t :: 0 <= t < |calls| ==> |calls[t]| == n && calls[t][j]
    ensures t < Wait(i, j, n) <= n
    ensures Served(CounterAt(i, calls, t), calls[t]) == j
    decreases Wait(i, j, n)
  {
    t := 0;
    if Served(i, calls[0]) != j {
      CallShortensWait(i, j, calls[0]);
      var i' := CounterAfter(i, calls[0]);
      var t' := NoStarvation(i', calls[1..], n, j);
      t := t' + 1;
      CountersShift(i, calls, t');
    }
  }

  lemma {:induction false} CountersShift(i: nat, calls: seq<seq<bool>>, t: nat)
    requires t < |calls|
    ensures CounterAt(i, calls, t + 1) == CounterAt(CounterAfter(i, calls[0]), calls[1..], t)
  {
    if t > 0 {
      CountersShift(i, calls, t - 1);
    }
  }

  /** The bound is the best possible: with every buffer always ready, the one just served
      waits for all n calls. */
  lemma {:induction false} WaitIsTight(calls: seq<seq<bool>>, n: nat, j: nat, t: nat)
    requires j < n && t < n <= |calls|
    requires forall t :: 0 <= t < |calls| ==> |calls[t]| == n && forall k :: 0 <= k < n ==> calls[t][k]
    ensures CounterAt(j + 1, calls, t) == if j + 1 + t <= n then j + 1 + t else j + 1 + t - n
    ensures Served(CounterAt(j + 1, calls, t), calls[t]) == j <==> t == n - 1
  {
    if t > 0 {
      WaitIsTight(calls, n, j, t - 1);
    }
  }

  // The scheduler -----------------------------------------------------------------------------------

  /** What a call returns.  `Hole` is the scheduler's own event with nothing but its id set:
      the rest is left over from the event forwarded before, and the number of lost events
      goes to the stream's statistics only.  `Spins` is a call that does not return. */
  datatype Output =
    | Idle
    | Forward(event: Event, from: nat)
    | Hole(event: Event, lost: nat, from: nat)
    | Spins(at: nat)

  /** The capacity 4/5 of which must be filled before half of it is dropped. */
  predicate Crowded(qsize: nat, capacity: nat) {
    5 * qsize > 4 * capacity
  }

  /** The oldest event is forwarded; from a crowded buffer, half the capacity is dropped
      instead, and what is returned is numbered like the first event lost. */
  method Serve(b: ArbiterBuffer, from: nat, ev: Event) returns (out: Output)
    requires b.Valid() && b.queue.capacity >= 2
    modifies b`lastProcessedId, b.queue`tail, b.queue`seenHead, b.queue`q
    ensures b.Valid()
    ensures Delivers(out, from, ev, old(Look(b)), b.Contents())
    ensures old(b.Contents()) != [] ==> (out.Hole? <==> 5 * old(Look(b)).sighted > 4 * b.queue.capacity)
    ensures out.Hole? ==> out.lost == b.queue.capacity / 2
    ensures b.lastProcessedId == match out
              case Forward(event, _) => event.id
              case Hole(_, lost, _) => old(b.Contents())[lost - 1].id
              case _ => old(b.lastProcessedId)
  {
    var qsize, off := b.queue.Top();
    if qsize == 0 {
      return Idle;
    }
    out := Deliver(b, from, ev, b.queue.data[off], Crowded(qsize, b.queue.capacity));
  }

  method Deliver(b: ArbiterBuffer, from: nat, ev: Event, event: Event, crowded: bool) returns (out: Output)
    requires b.Valid() && b.Contents() != [] && event == b.Contents()[0] && b.queue.capacity >= 2
    requires crowded ==> b.queue.capacity / 2 <= |b.Contents()|
    modifies b`lastProcessedId, b.queue`tail, b.queue`seenHead, b.queue`q
    ensures b.Valid() && out != Idle && (out.Hole? <==> crowded)
    ensures if crowded then out == Hole(ev.(id := event.id), b.queue.capacity / 2, from) && b.Contents() == old(b.Contents())[out.lost..]
            else out == Forward(event, from) && b.Contents() == old(b.Contents())[1..]
    ensures b.lastProcessedId == if crowded then old(b.Contents())[out.lost - 1].id else event.id
  {
    var half := b.queue.capacity / 2;
    var n := b.DropUpTo(if crowded then half else 1);
    out := if crowded then Hole(ev.(id := event.id), half, from) else Forward(event, from);
  }

  /** A buffer as the scheduler meets it: its events, the size that `peek1` reports, which is
      that of a view that may be stale, and its capacity. */
  datatype Snapshot = Snapshot(events: seq<Event>, sighted: nat, capacity: nat)

  ghost function Look(b: ArbiterBuffer): (s: Snapshot)
    requires b.Valid()
    reads b, b.queue, b.queue.data
    ensures s.events == b.Contents() && s.sighted <= |s.events|
  {
    var visible := b.queue.Visible();
    Snapshot(b.Contents(), if visible == [] then |b.Contents()| else |visible|, b.queue.capacity)
  }

  /** Every event of a buffer is forwarded, counted as lost, or still there; half the capacity
      is lost exactly if more than four fifths of it were sighted. */
  ghost predicate Delivers(out: Output, from: nat, ev: Event, was: Snapshot, now: seq<Event>) {
    match out
    case Idle => was.events == [] && now == []
    case Forward(event, f) => f == from && was.events == [event] + now && 5 * was.sighted <= 4 * was.capacity
    case Hole(event, lost, f) =>
      f == from && lost == was.capacity / 2 && 0 < lost <= |was.events| && event == ev.(id := was.events[0].id)
      && now == was.events[lost..] && 5 * was.sighted > 4 * was.capacity
    case Spins(_) => false
  }

  class Scheduler {
    const buffers: seq<ArbiterBuffer>
    var i: nat
    var ev: Event  // the event handed to the caller; at first whatever the memory holds
    ghost const repr: set<object>

    constructor (buffers: seq<ArbiterBuffer>, ghost repr: set<object>)
      requires forall k :: 0 <= k < |buffers| ==>
                 buffers[k] in repr && buffers[k].queue in repr && buffers[k].queue.data in repr
      requires forall k :: 0 <= k < |buffers| ==> buffers[k].Valid() && buffers[k].queue.capacity >= 2
      requires forall k, l :: 0 <= k < l < |buffers| ==>
                 buffers[k] != buffers[l] && buffers[k].queue != buffers[l].queue
                 && buffers[k].queue.data != buffers[l].queue.data
      ensures Valid() && this.buffers == buffers && i == 0
    {
      this.buffers := buffers;
      i := 0;
      this.repr := repr;
      new;
      EachValid(|buffers|);
    }

    ghost predicate Valid()
      reads repr
    {
      this !in repr && Layout() && AllValid(|buffers|)
    }

    /** The buffers are different objects with different queues. */
    ghost predicate Layout() {
      && (forall k :: 0 <= k < |buffers| ==> Owned(k) && buffers[k].queue.capacity >= 2)
      && (forall k, l :: 0 <= k < l < |buffers| ==>
           buffers[k] != buffers[l] && buffers[k].queue != buffers[l].queue
           && buffers[k].queue.data != buffers[l].queue.data)
    }

    ghost predicate Owned(k: nat)
      requires k < |buffers|
    {
      buffers[k] in repr && buffers[k].queue in repr && buffers[k].queue.data in repr
    }

    ghost predicate AllValid(n: nat)
      requires n <= |buffers| && Layout()
      reads repr
    {
      n > 0 ==> Owned(n - 1) && buffers[n - 1].Valid() && AllValid(n - 1)
    }

    lemma {:induction false} EachValid(n: nat)
      requires n <= |buffers| && Layout()
      ensures AllValid(n) <==> forall k :: 0 <= k < n ==> buffers[k].Valid()
    {
      if n > 0 {
        EachValid(n - 1);
      }
    }

    /** The first n buffers. */
    ghost function Upto(n: nat): (c: seq<Snapshot>)
      requires n <= |buffers| && Layout() && AllValid(n)
      reads repr
      ensures |c| == n
    {
      if n == 0 then [] else assert Owned(n - 1); Upto(n - 1) + [Look(buffers[n - 1])]
    }

    lemma {:induction false} EachContents(n: nat)
      requires n <= |buffers| && Layout() && AllValid(n)
      ensures forall k :: 0 <= k < n ==> buffers[k].Valid() && Upto(n)[k] == Look(buffers[k])
    {
      if n > 0 {
        EachContents(n - 1);
      }
    }

    ghost function Contents(): (c: seq<Snapshot>)
      requires Valid()
      reads repr
      ensures |c| == |buffers|
    {
      Upto(|buffers|)
    }

    /** Serving one buffer leaves the others as they are. */
    method ServeApart(k: nat) returns (out: Output)
      requires k < |buffers| && Layout() && this !in repr && forall l :: 0 <= l < |buffers| ==> buffers[l].Valid()
      modifies repr
      ensures forall l :: 0 <= l < |buffers| ==> buffers[l].Valid()
      ensures forall l :: 0 <= l < |buffers| && l != k ==> Look(buffers[l]) == old(Look(buffers[l]))
      ensures Delivers(out, k, ev, old(Look(buffers[k])), buffers[k].Contents())
      ensures out == Idle ==> Look(buffers[k]) == old(Look(buffers[k]))
    {
      out := Serve(buffers[k], k, ev);
    }

    method ServeAt(k: nat) returns (out: Output)
      requires k < |buffers| && Valid()
      modifies repr
      ensures Valid() && (out == Idle <==> old(Contents())[k].events == [])
      ensures if out == Idle then Contents() == old(Contents()) else OneServed(out, k, ev, old(Contents()), Contents())
    {
      EachContents(|buffers|);
      out := ServeApart(k);
      EachValid(|buffers|);
      EachContents(|buffers|);
    }

    /** `default_process_events`.  The scan stops at the first buffer that is ready or not
        active.  On an inactive one it tests the same buffer again and again. */
    method ProcessEvents(active: seq<bool>) returns (out: Output)
      requires Valid() && |active| == |buffers|
      modifies this`i, this`ev, repr
      ensures Valid()
      ensures Returned(out, Served(old(i), Stops(Ready(old(Contents())), active)), active, i, old(ev), ev, old(Contents()), Contents())
    {
      ghost var was, i0 := Contents(), i;
      ghost var stops := Stops(Ready(was), active);
      ghost var j := Served(i, stops);
      if i >= |buffers| {
        i := 0;
      }
      while i < |buffers|
        invariant Valid() && Contents() == was && ev == old(ev)
        invariant Start(i0, |buffers|) <= i <= j == FirstReady(stops, i)
      {
        assert stops[i] == (was[i].events != [] || !active[i]);
        out := Visit(active);
        if out != Idle {
          return;
        }
      }
      out := Idle;
    }

    /** One turn of the loop. */
    method Visit(active: seq<bool>) returns (out: Output)
      requires Valid() && |active| == |buffers| && i < |buffers|
      modifies this`i, this`ev, repr
      ensures Valid() && (out == Idle <==> active[old(i)] && old(Contents())[old(i)].events == [])
      ensures if out == Idle then Contents() == old(Contents()) && i == old(i) + 1 && ev == old(ev)
              else Returned(out, old(i), active, i, old(ev), ev, old(Contents()), Contents())
    {
      if !active[i] {
        return Spins(i);
      }
      i := i + 1;
      out := ServeAt(i - 1);
      if out != Idle {
        ev := out.event;
      }
    }
  }

  /** Buffer j is served and the others keep their events. */
  ghost predicate OneServed(out: Output, j: nat, ev: Event, was: seq<Snapshot>, now: seq<Snapshot>) {
    && j < |was| == |now| && was[j].sighted <= |was[j].events|
    && (out.Forward? || out.Hole?) && Delivers(out, j, ev, was[j], now[j].events)
    && forall k :: 0 <= k < |was| && k != j ==> now[k] == was[k]
  }

  /** How a call ends whose scan stops at buffer j, or at the end. */
  ghost predicate Returned(out: Output, j: nat, active: seq<bool>, i: nat, ev: Event, ev': Event,
                           was: seq<Snapshot>, now: seq<Snapshot>)
  {
    if j < |active| && active[j] then OneServed(out, j, ev, was, now) && i == j + 1 && ev' == out.event
    else out == (if j < |active| then Spins(j) else Idle) && now == was && i == j && ev' == ev
  }

  /** Where a scan stops. */
  function Stops(ready: seq<bool>, active: seq<bool>): (s: seq<bool>)
    requires |ready| == |active|
    ensures |s| == |ready| && forall k :: 0 <= k < |s| ==> s[k] == (ready[k] || !active[k])
  {
    seq(|ready|, k requires 0 <= k < |ready| => ready[k] || !active[k])
  }

  function Ready(c: seq<Snapshot>): (r: seq<bool>)
    ensures |r| == |c| && forall k :: 0 <= k < |c| ==> r[k] == (c[k].events != [])
  {
    seq(|c|, k requires 0 <= k < |c| => c[k].events != [])
  }

  /** A buffer with at most four fifths of its capacity in events loses none: a call that
      serves it forwards its oldest event. */
  lemma RoomyLosesNone(out: Output, j: nat, active: seq<bool>, i: nat, ev: Event, ev': Event,
                       was: seq<Snapshot>, now: seq<Snapshot>)
    requires Returned(out, j, active, i, ev, ev', was, now) && |was| == |active|
    requires j < |was| && active[j] && 5 * |was[j].events| <= 4 * was[j].capacity
    ensures out.Forward? && was[j].events == [out.event] + now[j].events
  {
    assert 5 * was[j].sighted <= 5 * |was[j].events|;
  }

  /** Without inactive buffers the calls are those of `NoStarvation`. */
  lemma ActiveScans(i: nat, ready: seq<bool>, active: seq<bool>)
    requires |ready| == |active| && forall k :: 0 <= k < |active| ==> active[k]
    ensures Stops(ready, active) == ready && Served(i, Stops(ready, active)) == Served(i, ready)
  {
    assert Stops(ready, active) == ready;
  }
}
