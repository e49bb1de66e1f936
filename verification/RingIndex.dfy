/** Index arithmetic of the single-producer single-consumer ring buffer.

    The ring stores `head` and `tail` as offsets below its capacity.  Every fact about
    it becomes simple once the offsets are read as the residues of two counters that
    only grow: the number of elements ever written and the number ever consumed.  The
    lemmas here translate each offset formula into such counters. */
module RingIndex {

  /** `_is_full` */
  predicate IsFull(head: nat, tail: nat, capacity: nat)
  {
    head + 1 == tail || (head + 1 == capacity && tail == 0)
  }

  /** `_get_written_num` */
  function WrittenNum(head: nat, tail: nat, capacity: nat): (n: nat)
    requires head < capacity && tail < capacity
    ensures n < capacity
    ensures n == 0 <==> head == tail
    ensures n == capacity - 1 <==> IsFull(head, tail, capacity)
  {
    if tail < head then head - tail
    else if tail == head then 0
    else capacity - tail + head
  }

  /** `_get_free_num` */
  function FreeNum(head: nat, tail: nat, capacity: nat): (n: nat)
    requires head < capacity && tail < capacity
    ensures n + WrittenNum(head, tail, capacity) == capacity - 1
  {
    if tail < head then capacity - head - 1 + tail
    else if head == tail then capacity - 1
    else tail - head - 1
  }

  /** Result of `get_write_off`: the two lengths it stores and the total it returns. */
  datatype WriteRoom = WriteRoom(n: nat, wrapN: nat, total: nat)

  /** `get_write_off` */
  function WriteOff(head: nat, tail: nat, capacity: nat): (w: WriteRoom)
    requires head < capacity && tail < capacity
    ensures w.total == w.n + w.wrapN == FreeNum(head, tail, capacity)
    ensures w.n == 0 <==> w.total == 0
  {
    if tail < head then
      if tail == 0 then WriteRoom(capacity - head - 1, 0, capacity - head - 1)
      else WriteRoom(capacity - head, tail - 1, capacity - head + tail - 1)
    else if tail == head then WriteRoom(capacity - 1, 0, capacity - 1)
    else WriteRoom(tail - head - 1, 0, tail - head - 1)
  }

  /** Moving an offset forward by at most one round, as `write_finish` and `consume` do. */
  function Advance(offset: nat, n: nat, capacity: nat): (r: nat)
    requires offset < capacity && n <= capacity
    ensures r < capacity
  {
    if offset + n >= capacity then offset + n - capacity else offset + n
  }

  /** The two contiguous pieces in which `peek` hands out `n` elements. */
  datatype Segments = Segments(off: nat, len1: nat, len2: nat)

  /** The segment computation at the end of `shm_spsc_ringbuf_peek`. */
  function PeekSegments(head: nat, tail: nat, capacity: nat, n: nat): (p: Segments)
    requires head < capacity && tail < capacity
    requires n <= WrittenNum(head, tail, capacity) && tail != head
    ensures p.off == tail && p.len1 + p.len2 == n
    ensures p.off + p.len1 <= capacity
    ensures p.len2 > 0 ==> p.off + p.len1 == capacity && p.len2 <= head
  {
    if tail < head then Segments(tail, n, 0)
    else
      var len1 := if capacity - tail > n then n else capacity - tail;
      Segments(tail, len1, if head < n - len1 then head else n - len1)
  }

  // Counters and their residues -----------------------------------------------------

  lemma QuotientUnique(x: nat, q: int, r: nat, c: nat)
    requires c > 0 && r < c && x == q * c + r
    ensures x / c == q && x % c == r
  {
    var d := x / c - q;
    assert d * c == r - x % c by {
      assert x == (x / c) * c + x % c;
      assert (x / c - q) * c == (x / c) * c - q * c;
    }
    MultipleIsLarge(d, c);
  }

  lemma {:induction false} MultipleIsLarge(d: int, c: nat)
    ensures d > 0 ==> d * c >= c
    ensures d < 0 ==> d * c + c <= 0
    decreases if d < 0 then -d else d
  {
    if d > 1 {
      MultipleIsLarge(d - 1, c);
    } else if d < -1 {
      MultipleIsLarge(d + 1, c);
    }
  }

  /** Advancing an offset is adding to the counter behind it. */
  lemma AdvanceCounter(x: nat, n: nat, c: nat)
    requires c > 0 && n <= c
    ensures (x + n) % c == Advance(x % c, n, c)
  {
    var q, r := x / c, x % c;
    assert x == q * c + r;
    if r + n >= c {
      assert (q + 1) * c == q * c + c;
      QuotientUnique(x + n, q + 1, r + n - c, c);
    } else {
      QuotientUnique(x + n, q, r + n, c);
    }
  }

  /** Counters less than one round apart have different offsets. */
  lemma DistinctOffsets(x: nat, y: nat, c: nat)
    requires c > 0 && x < y < x + c
    ensures x % c != y % c
  {
    AdvanceCounter(x, y - x, c);
  }

  /** The offset formulas compute differences of counters. */
  lemma {:induction false} CountersBehindOffsets(written: nat, consumed: nat, c: nat)
    requires c > 0 && consumed <= written < consumed + c
    ensures WrittenNum(written % c, consumed % c, c) == written - consumed
    ensures FreeNum(written % c, consumed % c, c) == c - 1 - (written - consumed)
    ensures WriteOff(written % c, consumed % c, c).n > 0 <==> written - consumed < c - 1
  {
    AdvanceCounter(consumed, written - consumed, c);
  }

  /** The k-th element handed out by `peek` lies at the offset of the k-th counter. */
  lemma PeekedOffset(written: nat, consumed: nat, c: nat, n: nat, k: nat)
    requires c > 0 && consumed < written < consumed + c
    requires k < n <= written - consumed
    ensures WrittenNum(written % c, consumed % c, c) == written - consumed
    ensures written % c != consumed % c
    ensures var p := PeekSegments(written % c, consumed % c, c, n);
            (consumed + k) % c == if k < p.len1 then p.off + k else k - p.len1
  {
    CountersBehindOffsets(written, consumed, c);
    DistinctOffsets(consumed, written, c);
    AdvanceCounter(consumed, k, c);
    AdvanceCounter(consumed, written - consumed, c);
  }
}
