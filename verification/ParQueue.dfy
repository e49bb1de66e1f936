/** `shm_par_queue`: the ring with its data array, operation by operation.

    Each operation runs the loads and stores of the C code in order.  `Valid` is the
    simulation relation of `SpscRing`, so the caches may be arbitrarily stale when an
    operation starts: whatever the other side did before is already covered.  The
    `modifies` clauses record that the writer's operations never touch the reader's
    fields and the other way round. */
module ParQueue {
  import opened RingIndex
  import opened SpscRing
  import opened Words

  lemma JoinSegments<T>(data: seq<T>, p: Segments, view: seq<T>)
    requires p.off + p.len1 <= |data| && p.len2 <= |data| && |view| == p.len1 + p.len2
    requires forall k :: 0 <= k < |view| ==> view[k] == data[if k < p.len1 then p.off + k else k - p.len1]
    ensures data[p.off..p.off + p.len1] + data[..p.len2] == view
  {
    var joined := data[p.off..p.off + p.len1] + data[..p.len2];
    forall k | 0 <= k < |view| ensures joined[k] == view[k] {}
  }

  lemma PeekedElement<T>(s: Ring<T>, q: Fifo<T>, n: nat, k: nat)
    requires Simulates(s, q) && WellSized(s) && k < n <= q.seen - q.taken
    ensures Avail(s) == q.seen - q.taken
    ensures var p := PeekSegments(s.seenHead, s.tail, s.capacity, n);
            q.log[q.taken + k] == s.data[if k < p.len1 then p.off + k else k - p.len1]
  {
    CountersGiveViews(s, q);
    PeekedOffset(q.seen, q.taken, s.capacity, n, k);
    assert Slot(s.data, q.taken + k) == q.log[q.taken + k];
  }

  /** The two segments of a peek, joined, are the next elements of the FIFO. */
  lemma SegmentsSpellView<T>(s: Ring<T>, q: Fifo<T>, n: nat)
    requires Simulates(s, q) && WellSized(s) && 0 < n <= q.seen - q.taken
    ensures Avail(s) == q.seen - q.taken
    ensures var p := PeekSegments(s.seenHead, s.tail, s.capacity, n);
            s.data[p.off..p.off + p.len1] + s.data[..p.len2] == q.log[q.taken..q.taken + n]
  {
    CountersGiveViews(s, q);
    var p := PeekSegments(s.seenHead, s.tail, s.capacity, n);
    var view := q.log[q.taken..q.taken + n];
    forall k | 0 <= k < n ensures view[k] == s.data[if k < p.len1 then p.off + k else k - p.len1] {
      PeekedElement(s, q, n, k);
    }
    JoinSegments(s.data, p, view);
  }

  class Queue<T(0)> {
    const capacity: nat
    const data: array<T>
    var head: nat
    var tail: nat
    var seenHead: nat
    var seenTail: nat
    ghost var q: Fifo<T>
    ghost var writing: bool  // between write_ptr and write_finish

    ghost function Fields(): Ring<T>
      reads this, data
    {
      Ring(capacity + 1, data[..], head, tail, seenHead, seenTail, if writing then WReady else WIdle, RHolds)
    }

    ghost predicate Valid()
      reads this, data
    {
      0 < capacity < SIZE_MAX - 2 && data.Length == capacity + 1 && Simulates(Fields(), q)
    }

    /** Everything in the queue, oldest first. */
    ghost function Contents(): seq<T>
      requires q.taken <= |q.log|
      reads this
    {
      q.log[q.taken..]
    }

    /** What the reader can reach without refreshing its view. */
    ghost function Visible(): seq<T>
      requires q.taken <= q.seen <= |q.log|
      reads this
    {
      q.log[q.taken..q.seen]
    }

    constructor (capacity: nat)
      requires 0 < capacity < SIZE_MAX - 2
      ensures Valid() && fresh(data) && this.capacity == capacity
      ensures q == Fifo([], 0, 0, 0) && !writing
    {
      this.capacity := capacity;
      data := new T[capacity + 1];
      head, tail, seenHead, seenTail := 0, 0, 0, 0;
      q := Fifo([], 0, 0, 0);
      writing := false;
    }

    // Writer ----------------------------------------------------------------------------

    /** A slot is handed out exactly when the queue is not full. */
    method WritePtr() returns (ok: bool, off: nat)
      requires Valid() && !writing
      modifies this`seenTail, this`q, this`writing
      ensures Valid() && writing == ok
      ensures ok <==> |Contents()| < capacity
      ensures ok ==> off == head
      ensures seenTail == if old(seenTail) == 0 || |q.log| - old(q.known) == capacity then tail else old(seenTail)
      ensures q.log == old(q.log) && q.taken == old(q.taken) && q.seen == old(q.seen)
    {
      CountersGiveViews(Fields(), q);
      off := head;
      var n := WriteOff(head, seenTail, capacity + 1).n;
      if seenTail == 0 || WriteOff(head, seenTail, capacity + 1).total == 0 {
        seenTail := tail;
        q := q.(known := q.taken);
        n := WriteOff(head, seenTail, capacity + 1).n;
      }
      ok := n > 0;
      writing := ok;
    }

    method WriteFinish()
      requires Valid() && writing
      modifies this`head, this`q, this`writing
      ensures Valid() && !writing
      ensures q == old(q).(log := old(q.log + [data[head]]))
    {
      AdvanceCounter(|q.log|, 1, capacity + 1);
      q := q.(log := q.log + [data[head]]);
      head := Advance(head, 1, capacity + 1);
      writing := false;
    }

    method Push(x: T) returns (ok: bool)
      requires Valid() && !writing
      modifies this`head, this`seenTail, this`q, this`writing, data
      ensures Valid() && !writing
      ensures ok <==> |old(Contents())| < capacity
      ensures Contents() == if ok then old(Contents()) + [x] else old(Contents())
      ensures q.taken == old(q.taken) && q.seen == old(q.seen)
    {
      var off;
      ok, off := WritePtr();
      if ok {
        CountersGiveViews(Fields(), q);
        CopyKeepsContents(Fields(), q, x);
        data[off] := x;
        assert data[..] == old(data[..])[off := x];
        WriteFinish();
      }
    }

    // Reader ----------------------------------------------------------------------------

    /** `shm_spsc_ringbuf_read_acquire`; `read_off_nowrap` is the case `want == 1`.
        The view is refreshed only if it is too short. */
    method Acquire(want: nat) returns (n: nat)
      requires Valid() && want > 0
      modifies this`seenHead, this`q
      ensures Valid() && n == |Visible()|
      ensures q == if |old(Visible())| < want then old(q).(seen := |q.log|) else old(q)
      ensures n < want ==> Visible() == Contents()
    {
      CountersGiveViews(Fields(), q);
      n := WrittenNum(seenHead, tail, capacity + 1);
      if n < want {
        seenHead := head;
        q := q.(seen := |q.log|);
        n := WrittenNum(seenHead, tail, capacity + 1);
      }
    }

    /** `shm_spsc_ringbuf_consume`.  Its callers must have *seen* the k elements. */
    method Drop(k: nat)
      requires Valid() && 0 < k <= |Visible()|
      modifies this`tail, this`q
      ensures Valid()
      ensures q == old(q).(taken := old(q.taken) + k)
      ensures Contents() == old(Contents())[k..] && Visible() == old(Visible())[k..]
    {
      AdvanceCounter(q.taken, k, capacity + 1);
      tail := Advance(tail, k, capacity + 1);
      q := q.(taken := q.taken + k);
    }

    /** `shm_spsc_ringbuf_consume_upto` */
    method ConsumeUpto(n: nat) returns (k: nat)
      requires Valid() && n <= capacity + 1
      modifies this`tail, this`seenHead, this`q
      ensures Valid()
      ensures k == if |old(Contents())| < n then |old(Contents())| else n
      ensures Contents() == old(Contents())[k..] && q.log == old(q.log)
    {
      if n == 0 {
        return 0;
      }
      k := Acquire(n);
      k := if k < n then k else n;
      if k > 0 {
        Drop(k);
      }
    }

    method Pop() returns (ok: bool, v: T)
      requires Valid()
      modifies this`tail, this`seenHead, this`q
      ensures Valid()
      ensures ok <==> old(Contents()) != []
      ensures ok ==> old(Contents()) == [v] + Contents()
      ensures !ok ==> Contents() == []
    {
      v := data[tail];
      var n := Acquire(1);
      ok := n > 0;
      if ok {
        assert Slot(data[..], q.taken) == data[tail];
        Drop(1);
      }
    }

    /** `shm_par_queue_top` and `peek1`: the offset of the oldest element and the size of the view. */
    method Top() returns (n: nat, off: nat)
      requires Valid()
      modifies this`seenHead, this`q
      ensures Valid() && n == |Visible()|
      ensures n == if old(Visible()) == [] then |Contents()| else |old(Visible())|
      ensures Contents() == old(Contents())
      ensures n == 0 <==> Contents() == []
      ensures n > 0 ==> off < data.Length && data[off] == Contents()[0]
    {
      n := Acquire(1);
      off := tail;
      if n > 0 {
        assert Slot(data[..], q.taken) == data[tail];
      }
    }

    /** `shm_par_queue_peek`; `n == 0` asks for everything.  The segments spell out the
        first elements of the queue, and the count is exact unless the stale view
        already satisfied the request. */
    method Peek(n: nat) returns (count: nat, p: Segments)
      requires Valid() && n <= SIZE_MAX
      modifies this`seenHead, this`q
      ensures Valid() && count == |Visible()| && Contents() == old(Contents())
      ensures q == old(q) || q == old(q).(seen := |q.log|)
      ensures n == 0 || count < n ==> Visible() == Contents()
      ensures count == 0 <==> Contents() == []
      ensures count > 0 ==> p.off + p.len1 <= data.Length && p.len2 <= data.Length && p.len1 > 0
      ensures count > 0 ==>
                data[p.off..p.off + p.len1] + data[..p.len2] ==
                Contents()[..if n == 0 || count < n then count else n]
    {
      var want := if n == 0 then SIZE_MAX else n;
      count := Acquire(want);
      p := Segments(0, 0, 0);
      if count > 0 {
        p := Split(if count < want then count else want);
      }
    }

    /** Where the first m visible elements lie. */
    method Split(m: nat) returns (p: Segments)
      requires Valid() && 0 < m <= |Visible()|
      ensures p.off + p.len1 <= data.Length && p.len2 <= data.Length && p.len1 > 0
      ensures data[p.off..p.off + p.len1] + data[..p.len2] == Contents()[..m]
    {
      CountersGiveViews(Fields(), q);
      p := PeekSegments(seenHead, tail, capacity + 1, m);
      SegmentsSpellView(Fields(), q, m);
      assert q.log[q.taken..q.taken + m] == Contents()[..m];
    }

    /** `shm_par_queue_peek_at` */
    method PeekAt(k: nat) returns (ok: bool, off: nat)
      requires Valid() && k <= SIZE_MAX
      modifies this`seenHead, this`q
      ensures Valid() && Contents() == old(Contents())
      ensures ok <==> k < |Contents()|
      ensures ok ==> off < data.Length && data[off] == Contents()[k]
    {
      var n, p := Peek(if k == SIZE_MAX then k else k + 1);
      ok := k < n;
      off := 0;
      if ok {
        off := AtIndex(p, k);
      }
    }

    /** `shm_par_queue_peek_atmost_at`: the k-th element, or the last one if there are fewer. */
    method PeekAtmostAt(wantK: nat) returns (ok: bool, k: nat, off: nat)
      requires Valid() && wantK <= SIZE_MAX
      modifies this`seenHead, this`q
      ensures Valid() && Contents() == old(Contents())
      ensures q == old(q) || q == old(q).(seen := |q.log|)
      ensures ok <==> Contents() != []
      ensures !ok ==> k == 0
      ensures ok ==> k == (if wantK < |Contents()| then wantK else |Contents()| - 1)
      ensures ok ==> k < |Visible()| && off < data.Length && data[off] == Contents()[k]
    {
      var n, p := Peek(if wantK == SIZE_MAX then wantK else wantK + 1);
      ok := n > 0;
      k := 0;
      off := 0;
      if ok {
        k := if n <= wantK then n - 1 else wantK;
        off := AtIndex(p, k);
      }
    }

    /** Picks the segment the k-th peeked element is in. */
    method AtIndex(p: Segments, k: nat) returns (off: nat)
      requires Valid()
      requires p.off + p.len1 <= data.Length && p.len2 <= data.Length
      requires k < p.len1 + p.len2 <= |Contents()|
      requires data[p.off..p.off + p.len1] + data[..p.len2] == Contents()[..p.len1 + p.len2]
      ensures off < data.Length && data[off] == Contents()[k]
    {
      ghost var joined := data[p.off..p.off + p.len1] + data[..p.len2];
      assert joined[k] == Contents()[k];
      off := if k < p.len1 then p.off + k else k - p.len1;
    }
  }
}
