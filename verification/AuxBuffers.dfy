/** Auxiliary buffers for string payloads, and when their storage may be used again.

    The monitored program appends strings to the current auxiliary buffer and stores a
    handle in the event.  A buffer is recycled once its last event was processed or all
    its events lie in a range reported as dropped.  The monitor reports both while the
    program is looking for a buffer. */
module AuxBuffers {
  import opened Words
  import RingIndex

  type Byte = bv8

  const DROPPED_RANGES_NUM: nat := 5

  // Handles ---------------------------------------------------------------------------------

  /** The 64-bit word stored in the event. */
  function Pack(off: bv64, idx: bv64): bv64 {
    off | (idx << 32)
  }

  /** `buffer_get_str` recovers the buffer index ... */
  lemma UnpackIndex(off: bv64, idx: bv64)
    requires off < 0x1_0000_0000 && idx < 0x1_0000_0000
    ensures Pack(off, idx) >> 32 == idx
  {}

  /** ... and the offset, ... */
  lemma UnpackOffset(off: bv64, idx: bv64)
    requires off < 0x1_0000_0000 && idx < 0x1_0000_0000
    ensures Pack(off, idx) & 0xffff_ffff == off
  {}

  /** ... and `buffer_push_str`, which packs the index a second time, changes nothing. */
  lemma RepackIsHarmless(off: bv64, idx: bv64)
    ensures Pack(Pack(off, idx), idx) == Pack(off, idx)
  {}

  const FOUR_GIB: nat := 0x1_0000_0000

  /** The same word in arithmetic: shifting out of 64 bits takes the index modulo 2^32. */
  function Word(off: nat, idx: nat): (w: nat)
    requires off < FOUR_GIB
    ensures w <= SIZE_MAX && w % FOUR_GIB == off && w / FOUR_GIB == idx % FOUR_GIB
  {
    off + idx % FOUR_GIB * FOUR_GIB
  }

  /** The operations on bits are those on numbers: packing adds, unpacking divides. */
  lemma PackIsArithmetic(off: bv64, idx: bv64, w: bv64)
    requires off < 0x1_0000_0000
    ensures Pack(off, idx) == off + idx * 0x1_0000_0000
    ensures w >> 32 == w / 0x1_0000_0000 && w & 0xffff_ffff == w % 0x1_0000_0000
  {}

  // The table of dropped ranges -------------------------------------------------------------

  datatype Range = Range(begin: nat, end: nat) {
    predicate Covers(lo: nat, hi: nat) {
      begin <= lo && hi <= end
    }

    predicate IsEmpty() {
      end == Pred(begin)
    }
  }

  datatype Table = Table(ranges: seq<Range>, next: nat) {
    ghost predicate Valid() {
      |ranges| == DROPPED_RANGES_NUM && next < DROPPED_RANGES_NUM
    }
  }

  const EMPTY_TABLE := Table([Range(0, 0), Range(0, 0), Range(0, 0), Range(0, 0), Range(0, 0)], 0)

  /** `buffer_notify_dropped` */
  function Notify(t: Table, begin: nat, end: nat): (u: Table)
    requires t.Valid()
    ensures u.Valid()
  {
    var r := t.ranges[t.next];
    if r.begin == begin || r.IsEmpty() then t.(ranges := t.ranges[t.next := r.(end := end)])
    else
      var i := if t.next + 1 == DROPPED_RANGES_NUM then 0 else t.next + 1;
      Table(t.ranges[i := Range(begin, end)], i)
  }

  /** One report changes one slot.  A range that begins like the one last reported extends it;
      any other replaces the oldest, unless the slot last written is empty. */
  lemma NotifyFrame(t: Table, begin: nat, end: nat)
    requires t.Valid()
    ensures var u, slot := Notify(t, begin, end), t.ranges[t.next];
            && (forall k :: 0 <= k < DROPPED_RANGES_NUM && k != u.next ==> u.ranges[k] == t.ranges[k])
            && (slot.begin == begin || slot.IsEmpty() ==> u.next == t.next && u.ranges[u.next] == Range(slot.begin, end))
            && (slot.begin != begin && !slot.IsEmpty() ==>
                u.next == (t.next + 1) % DROPPED_RANGES_NUM && u.ranges[u.next] == Range(begin, end))
  {}

  /** The table after a sequence of notifications. */
  function NotifyAll(notices: seq<Range>): (t: Table)
    ensures t.Valid()
  {
    if notices == [] then EMPTY_TABLE
    else
      var n := notices[|notices| - 1];
      Notify(NotifyAll(notices[..|notices| - 1]), n.begin, n.end)
  }

  /** The table holds, at its current position, the range it was last told about. */
  ghost predicate Faithful(notices: seq<Range>) {
    notices != [] ==> var t := NotifyAll(notices); t.ranges[t.next] == notices[|notices| - 1]
  }

  /** An empty range is extended by whatever comes next, so that a range nobody reported
      enters the table.  This is the exact condition: the table stays faithful at every
      prefix iff no empty range is followed by one that begins elsewhere. */
  ghost predicate NoEmptyExtended(notices: seq<Range>) {
    forall i :: 0 <= i < |notices| - 1 ==> !notices[i].IsEmpty() || notices[i].begin == notices[i + 1].begin
  }

  lemma {:induction false} FaithfulIff(notices: seq<Range>)
    ensures (forall k :: 0 <= k <= |notices| ==> Faithful(notices[..k])) <==> NoEmptyExtended(notices)
  {
    var m := |notices| - 1;
    if notices != [] {
      var front := notices[..m];
      FaithfulIff(front);
      PrefixFacts(notices);
      if NoEmptyExtended(front) {
        assert Faithful(front[..m]);
        FaithfulStep(notices);
      } else {
        var k :| 0 <= k <= m && !Faithful(front[..k]);
        assert !Faithful(notices[..k]);
      }
    }
  }

  lemma PrefixFacts(notices: seq<Range>)
    requires notices != []
    ensures var m := |notices| - 1;
            var front := notices[..m];
            && front[..m] == front && notices[..m + 1] == notices
            && (forall k :: 0 <= k <= m ==> front[..k] == notices[..k])
            && (NoEmptyExtended(notices) <==>
                NoEmptyExtended(front)
                && (m == 0 || !notices[m - 1].IsEmpty() || notices[m - 1].begin == notices[m].begin))
  {
    var m := |notices| - 1;
    var front := notices[..m];
    if NoEmptyExtended(front) {
      forall i | 0 <= i < m - 1
        ensures !notices[i].IsEmpty() || notices[i].begin == notices[i + 1].begin
      {
        assert front[i] == notices[i] && front[i + 1] == notices[i + 1];
      }
    }
  }

  lemma {:induction false} FaithfulStep(notices: seq<Range>)
    requires notices != [] && Faithful(notices[..|notices| - 1])
    ensures Faithful(notices) <==>
              |notices| == 1 || !notices[|notices| - 2].IsEmpty() || notices[|notices| - 2].begin == notices[|notices| - 1].begin
  {
    var m := |notices| - 1;
    var front := notices[..m];
    if m > 0 {
      assert front[m - 1] == notices[m - 1];
    } else {
      assert front == [] && NotifyAll(front) == EMPTY_TABLE && EMPTY_TABLE.ranges[0] == Range(0, 0);
    }
  }

  /** The reports with each range that was extended only as it ended up. */
  ghost function Episodes(reports: seq<Range>): seq<Range> {
    if reports == [] then []
    else
      var e, r := Episodes(reports[..|reports| - 1]), reports[|reports| - 1];
      if e != [] && e[|e| - 1].begin == r.begin then e[|e| - 1 := r] else e + [r]
  }

  lemma {:induction false} EpisodesEnd(reports: seq<Range>)
    requires reports != []
    ensures Episodes(reports) != [] && Episodes(reports)[|Episodes(reports)| - 1] == reports[|reports| - 1]
  {
  }

  /** The slot written d moves before the current one. */
  function Slot(t: Table, d: nat): Range
    requires t.Valid() && d < DROPPED_RANGES_NUM
  {
    t.ranges[(t.next + DROPPED_RANGES_NUM - d) % DROPPED_RANGES_NUM]
  }

  /** The table holds the last five of these ranges, newest first from its current position. */
  ghost predicate Remembers(t: Table, e: seq<Range>) {
    t.Valid() && forall d :: 0 <= d < DROPPED_RANGES_NUM && d < |e| ==> Slot(t, d) == e[|e| - 1 - d]
  }

  lemma {:induction false} RemembersExtended(t: Table, e: seq<Range>, r: Range)
    requires Remembers(t, e) && e != [] && e[|e| - 1].begin == r.begin
    ensures Remembers(Notify(t, r.begin, r.end), e[|e| - 1 := r])
  {
    var u, e' := Notify(t, r.begin, r.end), e[|e| - 1 := r];
    NotifyFrame(t, r.begin, r.end);
    assert Slot(t, 0) == t.ranges[t.next] && Slot(u, 0) == u.ranges[u.next];
    forall d | 0 < d < DROPPED_RANGES_NUM && d < |e'| ensures Slot(u, d) == e'[|e'| - 1 - d] {
      assert Slot(u, d) == Slot(t, d);
    }
  }

  lemma {:induction false} RemembersNew(t: Table, e: seq<Range>, r: Range)
    requires Remembers(t, e)
    requires if e == [] then t == EMPTY_TABLE else e[|e| - 1].begin != r.begin && !e[|e| - 1].IsEmpty()
    ensures Remembers(Notify(t, r.begin, r.end), e + [r])
  {
    var u := Notify(t, r.begin, r.end);
    NotifyFrame(t, r.begin, r.end);
    assert Slot(t, 0) == t.ranges[t.next] && Slot(u, 0) == u.ranges[u.next];
    if e != [] {
      forall d | 0 < d < DROPPED_RANGES_NUM && d < |e| + 1 ensures Slot(u, d) == (e + [r])[|e| - d] {
        assert Slot(u, d) == Slot(t, d - 1);
      }
    }
  }

  /** Where the condition holds the table remembers the last five episodes. */
  lemma {:induction false} TableRemembers(reports: seq<Range>)
    requires NoEmptyExtended(reports)
    ensures Remembers(NotifyAll(reports), Episodes(reports))
  {
    if reports != [] {
      var m := |reports| - 1;
      var front, r := reports[..m], reports[m];
      PrefixFacts(reports);
      TableRemembers(front);
      var e := Episodes(front);
      if m > 0 {
        EpisodesEnd(front);
      }
      if e != [] && e[|e| - 1].begin == r.begin {
        RemembersExtended(NotifyAll(front), e, r);
      } else {
        RemembersNew(NotifyAll(front), e, r);
      }
    }
  }

  /** Consecutive reports begin differently. */
  ghost predicate Apart(reports: seq<Range>) {
    forall i :: 0 < i < |reports| ==> reports[i].begin != reports[i - 1].begin
  }

  /** So reports of different ranges are found until five more have come. */
  lemma {:induction false} LastFiveAreFound(reports: seq<Range>, j: nat)
    requires Apart(reports) && forall i :: 0 <= i < |reports| ==> !reports[i].IsEmpty()
    requires |reports| - 5 <= j < |reports|
    ensures reports[j] in NotifyAll(reports).ranges
  {
    assert NoEmptyExtended(reports);
    AllEpisodes(reports);
    TableRemembers(reports);
    RememberedIsFound(NotifyAll(reports), reports, |reports| - 1 - j);
  }

  lemma RememberedIsFound(t: Table, e: seq<Range>, d: nat)
    requires Remembers(t, e) && d < DROPPED_RANGES_NUM && d < |e|
    ensures e[|e| - 1 - d] in t.ranges
  {
    assert Slot(t, d) == e[|e| - 1 - d];
  }

  lemma {:induction false} AllEpisodes(reports: seq<Range>)
    requires Apart(reports)
    ensures Episodes(reports) == reports
  {
    if reports != [] {
      var m := |reports| - 1;
      var front := reports[..m];
      forall i | 0 < i < m ensures front[i].begin != front[i - 1].begin {
        assert reports[i].begin != reports[i - 1].begin;
      }
      AllEpisodes(front);
      assert m > 0 ==> front[m - 1] == reports[m - 1];
    }
  }

  /** Every range that was at the current position at some time. */
  ghost function Entered(reports: seq<Range>): set<Range> {
    if reports == [] then {}
    else
      var t := NotifyAll(reports);
      Entered(reports[..|reports| - 1]) + {t.ranges[t.next]}
  }

  /** Where the condition holds, only reported ranges enter the table. */
  lemma {:induction false} EnteredAreReported(reports: seq<Range>, r: Range)
    requires NoEmptyExtended(reports) && r in Entered(reports)
    ensures r in reports
  {
    var m := |reports| - 1;
    PrefixFacts(reports);
    FaithfulIff(reports);
    assert Faithful(reports[..m + 1]);
    if r in Entered(reports[..m]) {
      EnteredAreReported(reports[..m], r);
    }
  }

  /** What is in the table entered it. */
  lemma {:induction false} SlotEntered(reports: seq<Range>, k: nat)
    requires k < DROPPED_RANGES_NUM && NotifyAll(reports).ranges[k].end != 0
    ensures NotifyAll(reports).ranges[k] in Entered(reports)
  {
    if reports != [] && k != NotifyAll(reports).next {
      SlotEntered(reports[..|reports| - 1], k);
    }
  }

  lemma EnteredMore(reports: seq<Range>, r: Range)
    ensures NotifyAll(reports + [r]) == Notify(NotifyAll(reports), r.begin, r.end)
    ensures var t := NotifyAll(reports + [r]);
            Entered(reports + [r]) == Entered(reports) + {t.ranges[t.next]}
  {
    assert (reports + [r])[..|reports|] == reports;
  }

  /** A misfiled range: event 5 was never reported as dropped, yet after the empty report
      (4, 3) and the report (9, 12) the table holds a range that covers it. */
  lemma MisfiledRange()
    ensures var notices := [Range(4, 3), Range(9, 12)];
            var t := NotifyAll(notices);
            !NoEmptyExtended(notices) && t.ranges[t.next] == Range(4, 12) && t.ranges[t.next].Covers(5, 5)
            && forall r :: r in notices ==> !r.Covers(5, 5)
  {
    var notices := [Range(4, 3), Range(9, 12)];
    assert notices[..1] == [Range(4, 3)] && [Range(4, 3)][..0] == [];
    assert NotifyAll([]) == EMPTY_TABLE && EMPTY_TABLE.ranges[0] == Range(0, 0);
    assert NotifyAll(notices[..1]).ranges[1] == Range(4, 3);
    assert notices[0].IsEmpty() && notices[0].begin != notices[1].begin;
  }

  // Buffers and handles -----------------------------------------------------------------------

  datatype Aux = Aux(size: nat, head: nat, first: nat, last: nat, reusable: bool, data: seq<Byte>)

  /** A string handed out: where it is, for which event, and what it said. */
  datatype Handle = Handle(idx: nat, off: nat, id: nat, bytes: seq<Byte>)

  /** The event was processed, or lies in a range that entered the table. */
  ghost predicate Retired(h: Handle, lastProcessed: nat, recorded: set<Range>) {
    h.id <= lastProcessed || exists r :: r in recorded && r.Covers(h.id, h.id)
  }

  ghost predicate Stored(h: Handle, bufs: seq<Aux>) {
    h.idx < |bufs|
    && var b := bufs[h.idx];
       h.off + |h.bytes| <= b.head <= |b.data| && b.data[h.off..h.off + |h.bytes|] == h.bytes
       && 0 < b.first <= h.id <= b.last && !b.reusable
  }

  ghost predicate Safe(issued: seq<Handle>, bufs: seq<Aux>, lastProcessed: nat, recorded: set<Range>) {
    forall j :: 0 <= j < |issued| ==> Retired(issued[j], lastProcessed, recorded) || Stored(issued[j], bufs)
  }

  function Reset(b: Aux): Aux {
    b.(reusable := true, head := 0, first := 0, last := SIZE_MAX)
  }

  /** What `writer_get_aux_buffer` tests before it resets a buffer. */
  ghost predicate Reclaimable(b: Aux, lastProcessed: nat, recorded: set<Range>) {
    b.last <= lastProcessed || exists r :: r in recorded && r.Covers(b.first, b.last)
  }

  /** A range in the table covers all events of the buffer. */
  ghost predicate Covered(t: Table, b: Aux)
    requires t.Valid()
  {
    exists k :: 0 <= k < DROPPED_RANGES_NUM && t.ranges[k].end != 0 && t.ranges[k].Covers(b.first, b.last)
  }

  /** Large enough, but in use: its last event is not processed and no range covers it. */
  ghost predicate Busy(b: Aux, size: nat, lastProcessed: nat, reports: seq<Range>) {
    b.size >= size ==> !b.reusable && b.last > lastProcessed && !Covered(NotifyAll(reports), b)
  }

  /** It was so when the writer looked, at some moment between two states of the reports. */
  ghost predicate WasBusy(b: Aux, size: nat, lastProcessed: nat, before: seq<Range>, after: seq<Range>) {
    exists lp, reports :: lastProcessed <= lp && before <= reports <= after && Busy(b, size, lp, reports)
  }

  lemma WasBusyLater(b: Aux, size: nat, lp: nat, before: seq<Range>, after: seq<Range>, lp0: nat, before0: seq<Range>, after1: seq<Range>)
    requires WasBusy(b, size, lp, before, after) && lp0 <= lp && before0 <= before && after <= after1
    ensures WasBusy(b, size, lp0, before0, after1)
  {
    var l, reports :| lp <= l && before <= reports <= after && Busy(b, size, l, reports);
  }

  /** The first k buffers of the age list were. */
  ghost predicate AllBusy(bufs: seq<Aux>, age: seq<nat>, k: nat, size: nat, lastProcessed: nat,
                          before: seq<Range>, after: seq<Range>)
  {
    k <= |age|
    && forall j :: 0 <= j < k ==> age[j] < |bufs| && WasBusy(bufs[age[j]], size, lastProcessed, before, after)
  }

  lemma {:induction false} OneMoreBusy(bufs: seq<Aux>, age: seq<nat>, k: nat, size: nat, lp0: nat, lp: nat,
                                       before: seq<Range>, mid: seq<Range>, after: seq<Range>)
    requires AllBusy(bufs, age, k, size, lp0, before, mid) && lp0 <= lp && before <= mid <= after
    ensures AllBusy(bufs, age, k, size, lp0, before, after)
    ensures k < |age| && age[k] < |bufs| && WasBusy(bufs[age[k]], size, lp, mid, after) ==>
              AllBusy(bufs, age, k + 1, size, lp0, before, after)
  {
    forall j | 0 <= j < k ensures WasBusy(bufs[age[j]], size, lp0, before, after) {
      WasBusyLater(bufs[age[j]], size, lp0, before, mid, lp0, before, after);
    }
    if k < |age| && age[k] < |bufs| && WasBusy(bufs[age[k]], size, lp, mid, after) {
      WasBusyLater(bufs[age[k]], size, lp, mid, after, lp0, before, after);
    }
  }

  /** Resetting a reclaimable buffer loses only retired strings. */
  lemma ResetIsSafe(issued: seq<Handle>, bufs: seq<Aux>, lastProcessed: nat, recorded: set<Range>, i: nat)
    requires Safe(issued, bufs, lastProcessed, recorded) && i < |bufs|
    requires Reclaimable(bufs[i], lastProcessed, recorded)
    ensures Safe(issued, bufs[i := Reset(bufs[i])], lastProcessed, recorded)
  {
    var after := bufs[i := Reset(bufs[i])];
    forall j | 0 <= j < |issued| ensures Retired(issued[j], lastProcessed, recorded) || Stored(issued[j], after) {
      var h := issued[j];
      if Stored(h, bufs) && h.idx == i && lastProcessed < h.id {
        var r :| r in recorded && r.Covers(bufs[i].first, bufs[i].last);
        assert r.Covers(h.id, h.id);
      } else if Stored(h, bufs) {
        assert h.idx != i ==> after[h.idx] == bufs[h.idx];
      }
    }
  }

  /** The buffer after `buffer_push_strn` appended `bytes` for event `id`. */
  function Append(b: Aux, id: nat, bytes: seq<Byte>): (c: Aux)
    requires b.head + |bytes| <= |b.data|
    ensures |c.data| == |b.data|
  {
    b.(data := b.data[..b.head] + bytes + b.data[b.head + |bytes|..],
       head := b.head + |bytes|,
       first := if b.first == 0 then id else b.first,
       last := id)
  }

  lemma AppendIsSafe(issued: seq<Handle>, bufs: seq<Aux>, lastProcessed: nat, recorded: set<Range>,
                     i: nat, id: nat, bytes: seq<Byte>)
    requires Safe(issued, bufs, lastProcessed, recorded) && i < |bufs|
    requires bufs[i].head + |bytes| <= |bufs[i].data| && !bufs[i].reusable
    requires id >= 1 && bufs[i].first <= id && forall j :: 0 <= j < |issued| ==> issued[j].id <= id
    ensures Safe(issued + [Handle(i, bufs[i].head, id, bytes)], bufs[i := Append(bufs[i], id, bytes)], lastProcessed, recorded)
  {
    var b, c := bufs[i], Append(bufs[i], id, bytes);
    var after, all := bufs[i := c], issued + [Handle(i, b.head, id, bytes)];
    assert c.data[b.head..b.head + |bytes|] == bytes;
    forall j | 0 <= j < |all| ensures Retired(all[j], lastProcessed, recorded) || Stored(all[j], after) {
      var h := all[j];
      if j < |issued| {
        assert h == issued[j];
        if Stored(h, bufs) && h.idx == i {
          assert c.data[h.off..h.off + |h.bytes|] == b.data[h.off..h.off + |h.bytes|];
        }
      }
    }
  }

  /** What is retired stays retired. */
  lemma SafeIsMonotone(issued: seq<Handle>, bufs: seq<Aux>, lp: nat, rec: set<Range>, lp': nat, rec': set<Range>)
    requires Safe(issued, bufs, lp, rec) && lp <= lp' && rec <= rec'
    ensures Safe(issued, bufs, lp', rec')
  {
    forall j | 0 <= j < |issued| ensures Retired(issued[j], lp', rec') || Stored(issued[j], bufs) {
      assert Retired(issued[j], lp, rec) || Stored(issued[j], bufs);
    }
  }

  /** `new_aux_buffer`: whole pages, the header taken off again. */
  function NewSize(size: nat, header: nat, page: nat): (n: nat)
    requires page > 0 && header <= page
    ensures size <= n <= size + 2 * page && (n + header) % page == 0
  {
    DivisionBounds(size + header, page);
    WholePages((size + header) / page + 2, page);
    ((size + header) / page + 2) * page - header
  }

  lemma {:induction false} WholePages(k: nat, page: nat)
    requires page > 0
    ensures (k * page) % page == 0
  {
    if k > 0 {
      WholePages(k - 1, page);
      assert k * page == (k - 1) * page + page;
      AddPage((k - 1) * page, page);
    }
  }

  lemma AddPage(x: nat, page: nat)
    requires page > 0 && x % page == 0
    ensures (x + page) % page == 0
  {
    var q := x / page;
    assert x == q * page;
    assert x + page == (q + 1) * page;
    RingIndex.QuotientUnique(x + page, q + 1, 0, page);
  }

  lemma DivisionBounds(x: nat, page: nat)
    requires page > 0
    ensures x < (x / page + 1) * page <= x + page
    ensures (x / page + 2) * page == (x / page + 1) * page + page
  {
    assert x == (x / page) * page + x % page;
  }

  // The age list ------------------------------------------------------------------------------

  /** `shm_list_remove` and `shm_list_append_elem` of the element at position k. */
  function ToBack(age: seq<nat>, k: nat): (r: seq<nat>)
    requires k < |age|
    ensures |r| == |age| && r[|r| - 1] == age[k]
  {
    age[..k] + age[k + 1..] + [age[k]]
  }

  ghost predicate Distinct(age: seq<nat>, n: nat) {
    |age| == n
    && (forall i :: 0 <= i < n ==> age[i] < n)
    && (forall i, j :: 0 <= i < j < n ==> age[i] != age[j])
  }

  lemma ToBackKeepsAll(age: seq<nat>, k: nat)
    requires Distinct(age, |age|) && k < |age|
    ensures Distinct(ToBack(age, k), |age|)
  {
    var r := ToBack(age, k);
    forall i | 0 <= i < |age| - 1 ensures r[i] == age[if i < k then i else i + 1] {}
  }

  /** The writer's `struct buffer` together with the shared `buffer_info`. */
  class Store {
    const page: nat
    const header: nat
    var bufs: seq<Aux>       // by index
    var age: seq<nat>        // aux_buffers_age
    var cur: int             // cur_aux_buff, -1 for NULL
    var lastProcessed: nat
    var table: Table
    ghost var issued: seq<Handle>
    ghost var reports: seq<Range>  // the ranges passed to buffer_notify_dropped
    ghost var maxId: nat

    ghost predicate TableOk()
      reads this
    {
      table == NotifyAll(reports)
    }

    ghost predicate BufsOk()
      reads this
    {
      (forall i :: 0 <= i < |bufs| ==>
         bufs[i].head <= bufs[i].size == |bufs[i].data| < FOUR_GIB && bufs[i].first <= maxId
         && (bufs[i].reusable ==> bufs[i].head == 0))
      && forall j :: 0 <= j < |issued| ==> 1 <= issued[j].id <= maxId
    }

    /** The current buffer is always last in the age list. */
    ghost predicate ListOk()
      reads this
    {
      Distinct(age, |bufs|)
      && if bufs == [] then cur == -1 else 0 <= cur < |bufs| && age[|bufs| - 1] == cur
    }

    ghost predicate Scanning()
      reads this
    {
      0 < page && header <= page && TableOk() && BufsOk() && ListOk() && Safe(issued, bufs, lastProcessed, Entered(reports))
    }

    ghost predicate Valid()
      reads this
    {
      Scanning() && (cur >= 0 ==> !bufs[cur].reusable)
    }

    constructor (page: nat, header: nat)
      requires header <= page && page > 0
      ensures Valid() && bufs == [] && issued == [] && reports == [] && lastProcessed == maxId == 0
      ensures this.page == page && this.header == header
    {
      this.page, this.header := page, header;
      bufs, age, cur := [], [], -1;
      lastProcessed, table := 0, EMPTY_TABLE;
      issued, reports, maxId := [], [], 0;
    }

    // The monitor's side ------------------------------------------------------------------

    /** `buffer_set_last_processed_id`; its assertion refuses to go back. */
    method SetLastProcessed(id: nat) returns (ok: bool)
      requires Scanning()
      modifies this`lastProcessed
      ensures Scanning() && ok == (old(lastProcessed) <= id)
      ensures lastProcessed == if ok then id else old(lastProcessed)
    {
      ok := lastProcessed <= id;
      if ok {
        SafeIsMonotone(issued, bufs, lastProcessed, Entered(reports), id, Entered(reports));
        lastProcessed := id;
      }
    }

    /** `buffer_notify_dropped`.  The range that enters the table is the reported one,
        except when the slot holds an empty range that begins elsewhere. */
    method NotifyDropped(begin: nat, end: nat)
      requires Scanning()
      modifies this`table, this`reports
      ensures Scanning() && table == Notify(old(table), begin, end)
      ensures reports == old(reports) + [Range(begin, end)]
      ensures var slot := old(table.ranges[table.next]);
              table.ranges[table.next] == Range(begin, end) <==> !(slot.IsEmpty() && slot.begin != begin)
    {
      ghost var before := Entered(reports);
      EnteredMore(reports, Range(begin, end));
      UpdateTable(begin, end);
      reports := reports + [Range(begin, end)];
      SafeIsMonotone(issued, bufs, lastProcessed, before, lastProcessed, Entered(reports));
    }

    method UpdateTable(begin: nat, end: nat)
      requires table.Valid()
      modifies this`table
      ensures table == Notify(old(table), begin, end) && table.Valid()
      ensures forall k :: 0 <= k < DROPPED_RANGES_NUM && k != table.next ==> table.ranges[k] == old(table).ranges[k]
      ensures var slot := old(table.ranges[table.next]);
              table.next == if slot.begin == begin || slot.IsEmpty() then old(table.next)
                            else (old(table.next) + 1) % DROPPED_RANGES_NUM
      ensures var slot := old(table.ranges[table.next]);
              table.ranges[table.next] == Range(begin, end) <==> !(slot.IsEmpty() && slot.begin != begin)
    {
      var r := table.ranges[table.next];
      if r.begin == begin || r.IsEmpty() {
        table := table.(ranges := table.ranges[table.next := r.(end := end)]);
      } else {
        var i := if table.next + 1 == DROPPED_RANGES_NUM then 0 else table.next + 1;
        table := Table(table.ranges[i := Range(begin, end)], i);
      }
    }

    /** Whatever the monitor reports between two steps of the writer, until it is done or
        stopped by the assertion. */
    method MonitorRuns()
      requires Scanning()
      modifies this`lastProcessed, this`table, this`reports
      ensures Scanning() && lastProcessed >= old(lastProcessed) && old(reports) <= reports
    {
      var left :| left >= 0;
      var ok := true;
      while ok && left > 0
        invariant Scanning() && lastProcessed >= old(lastProcessed) && old(reports) <= reports
      {
        var a: nat, b: nat :| a >= 0 && b >= 0;
        if * {
          NotifyDropped(a, b);
        } else {
          ok := SetLastProcessed(a);
        }
        left := left - 1;
      }
    }

    // The writer's side -------------------------------------------------------------------

    /** `ab_was_dropped` */
    method WasDropped(b: Aux) returns (d: bool)
      requires table.Valid()
      ensures d == Covered(table, b)
      ensures d <==> exists k :: 0 <= k < DROPPED_RANGES_NUM && table.ranges[k].end != 0
                                 && table.ranges[k].begin <= b.first && b.last <= table.ranges[k].end
    {
      d := false;
      for i := 0 to DROPPED_RANGES_NUM
        invariant forall k :: 0 <= k < i ==> table.ranges[k].end == 0 || !table.ranges[k].Covers(b.first, b.last)
      {
        var r := table.ranges[i];
        if r.end != 0 && r.begin <= b.first && r.end >= b.last {
          return true;
        }
      }
    }

    /** One turn of the search loop: reset the buffer if all its events are retired. */
    method TryReclaim(i: nat)
      requires Scanning() && i < |bufs|
      modifies this`bufs
      ensures Scanning() && |bufs| == |old(bufs)| && bufs[i].size == old(bufs[i].size)
      ensures var b := old(bufs[i]);
              bufs == if b.last <= lastProcessed || Covered(table, b)
                      then old(bufs)[i := b.(reusable := true, head := 0, first := 0, last := SIZE_MAX)] else old(bufs)
    {
      var dropped := WasDropped(bufs[i]);
      if bufs[i].last <= lastProcessed || dropped {
        if dropped {
          ghost var k :| 0 <= k < DROPPED_RANGES_NUM && table.ranges[k].end != 0 && table.ranges[k].Covers(bufs[i].first, bufs[i].last);
          SlotEntered(reports, k);
        }
        ResetIsSafe(issued, bufs, lastProcessed, Entered(reports), i);
        bufs := bufs[i := Reset(bufs[i])];
      }
    }

    /** Takes the buffer at position k of the age list into use. */
    method TakeFromAge(k: nat)
      requires Scanning() && k < |age| && bufs[age[k]].reusable
      modifies this`bufs, this`age, this`cur
      ensures Valid() && cur == old(age[k]) && bufs == old(bufs)[cur := old(bufs[age[k]]).(reusable := false)]
      ensures age == old(age)[..k] + old(age)[k + 1..] + [cur]
    {
      var i := age[k];
      ToBackKeepsAll(age, k);
      age := ToBack(age, k);
      cur := i;
      ghost var before := bufs;
      bufs := bufs[i := bufs[i].(reusable := false)];
      forall j | 0 <= j < |issued| ensures Retired(issued[j], lastProcessed, Entered(reports)) || Stored(issued[j], bufs) {
        assert Retired(issued[j], lastProcessed, Entered(reports)) || Stored(issued[j], before);
      }
    }

    method NewAux(size: nat)
      requires Scanning() && size + 2 * page < FOUR_GIB
      modifies this`bufs, this`age, this`cur
      ensures Valid() && cur == |old(bufs)| && |bufs| == |old(bufs)| + 1 && bufs[..cur] == old(bufs) && age == old(age) + [cur]
      ensures var b := bufs[cur];
              b.size >= size && b.head == 0 && b.first == 0 && b.last == SIZE_MAX && !b.reusable
    {
      var n := NewSize(size, header, page);
      var i := |bufs|;
      ghost var before := bufs;
      bufs := bufs + [Aux(n, 0, 0, SIZE_MAX, false, seq(n, _ => 0))];
      age := age + [i];
      cur := i;
      forall j | 0 <= j < |issued| ensures Retired(issued[j], lastProcessed, Entered(reports)) || Stored(issued[j], bufs) {
        assert Retired(issued[j], lastProcessed, Entered(reports)) || Stored(issued[j], before);
      }
    }

    /** The search loop of `writer_get_aux_buffer`, the monitor reporting all the while:
        it fails only if every buffer of the list that is large enough was in use when the
        writer looked at it. */
    method Recycle(size: nat) returns (found: bool, ghost at: nat)
      requires Scanning()
      modifies this`bufs, this`age, this`cur, this`lastProcessed, this`table, this`reports
      ensures Scanning() && |bufs| == |old(bufs)| && old(reports) <= reports
      ensures found ==> Valid() && 0 <= cur && bufs[cur].head == 0 && size <= bufs[cur].size
      ensures !found ==> age == old(age) && cur == old(cur) && at == |age|
      ensures found ==> at < |old(age)| && cur == old(age)[at] && age == old(age)[..at] + old(age)[at + 1..] + [cur]
      ensures AllBusy(old(bufs), old(age), at, size, old(lastProcessed), old(reports), reports)
    {
      var k := 0;
      at := |age|;
      while k < |age|
        invariant Scanning() && k <= |age| && age == old(age) && cur == old(cur) && |bufs| == |old(bufs)|
        invariant lastProcessed >= old(lastProcessed) && old(reports) <= reports
        invariant forall j :: k <= j < |age| ==> bufs[age[j]] == old(bufs)[age[j]]
        invariant AllBusy(old(bufs), age, k, size, old(lastProcessed), old(reports), reports)
        decreases |bufs| - k
      {
        ghost var lp, before := lastProcessed, reports;
        found := Consider(k, size);
        OneMoreBusy(old(bufs), old(age), k, size, old(lastProcessed), lp, old(reports), before, reports);
        if found {
          at := k;
          return;
        }
        k := k + 1;
      }
      found := false;
    }

    /** One turn of the search loop, for the buffer at position k of the age list. */
    method Consider(k: nat, size: nat) returns (taken: bool)
      requires Scanning() && k < |age|
      modifies this`bufs, this`age, this`cur, this`lastProcessed, this`table, this`reports
      ensures Scanning() && |bufs| == |old(bufs)| && lastProcessed >= old(lastProcessed) && old(reports) <= reports
      ensures taken ==> Valid() && cur == old(age)[k] && bufs[cur].head == 0 && size <= bufs[cur].size
      ensures taken ==> age == old(age)[..k] + old(age)[k + 1..] + [cur]
      ensures !taken ==> age == old(age) && cur == old(cur)
      ensures !taken ==> WasBusy(old(bufs[age[k]]), size, old(lastProcessed), old(reports), reports)
      ensures !taken ==> forall i :: 0 <= i < |bufs| && i != age[k] ==> bufs[i] == old(bufs)[i]
    {
      MonitorRuns();
      ghost var b := bufs[age[k]];
      TryReclaim(age[k]);
      taken := bufs[age[k]].reusable && bufs[age[k]].size >= size;
      if taken {
        TakeFromAge(k);
      } else {
        assert Busy(b, size, lastProcessed, reports);
      }
    }

    ghost predicate Fits(size: nat)
      requires cur < |bufs|
      reads this
    {
      cur >= 0 && bufs[cur].size - bufs[cur].head >= size
    }

    /** `writer_get_aux_buffer`: the current buffer is kept while it has room, and a
        buffer is created only if none can be recycled. */
    method GetAux(size: nat)
      requires Valid() && size + 2 * page < FOUR_GIB
      modifies this`bufs, this`age, this`cur, this`lastProcessed, this`table, this`reports
      ensures Valid() && Fits(size) && age[|age| - 1] == cur
      ensures old(Fits(size)) ==> cur == old(cur) && bufs == old(bufs)
      ensures |bufs| == |old(bufs)|
              || (|bufs| == |old(bufs)| + 1
                  && AllBusy(old(bufs), old(age), |old(age)|, size, old(lastProcessed), old(reports), reports))
    {
      if cur < 0 || bufs[cur].size - bufs[cur].head < size {
        var found;
        ghost var at;
        found, at := Recycle(size);
        if !found {
          NewAux(size);
        }
      }
    }

    /** `buffer_push_strn`: the string is stored under the returned handle, and every string
        whose event is not retired is still where its handle says. */
    method PushStr(id: nat, bytes: seq<Byte>) returns (word: nat)
      requires Valid() && id >= 1 && id >= maxId && |bytes| + 2 * page < FOUR_GIB
      modifies this
      ensures Valid() && maxId == id
      ensures |issued| == |old(issued)| + 1 && old(issued) <= issued
      ensures var h := issued[|old(issued)|];
              h.id == id && h.bytes == bytes && h.idx == cur && h.off < FOUR_GIB && word == Word(h.off, h.idx)
    {
      GetAux(|bytes|);
      word := Write(id, bytes);
    }

    /** Copies the string to the current buffer, which has room for it. */
    method Write(id: nat, bytes: seq<Byte>) returns (word: nat)
      requires Valid() && id >= 1 && id >= maxId && cur < |bufs| && Fits(|bytes|)
      modifies this`bufs, this`issued, this`maxId
      ensures Valid() && maxId == id && |bufs| == |old(bufs)|
      ensures bufs[cur].head == old(bufs[cur].head) + |bytes| && bufs[cur].last == id
              && bufs[cur].first == if old(bufs[cur].first) == 0 then id else old(bufs[cur].first)
      ensures |issued| == |old(issued)| + 1 && old(issued) <= issued
      ensures var h := issued[|old(issued)|];
              h.id == id && h.bytes == bytes && h.idx == cur && h.off < FOUR_GIB && word == Word(h.off, h.idx)
    {
      var idx := cur;
      var off := bufs[idx].head;
      AppendIsSafe(issued, bufs, lastProcessed, Entered(reports), idx, id, bytes);
      issued := issued + [Handle(idx, off, id, bytes)];
      bufs := bufs[idx := Append(bufs[idx], id, bytes)];
      maxId := id;
      word := Word(off, idx);
    }

    /** `buffer_get_str`: the handle of an event that was neither processed nor reported as
        dropped reads back the bytes pushed under it, however often buffers were reused
        since, as long as no reported range was misfiled and indices fit in 32 bits. */
    method GetStr(ghost h: Handle, word: nat, len: nat) returns (bytes: seq<Byte>)
      requires Valid() && h in issued && h.off < FOUR_GIB && word == Word(h.off, h.idx) && len == |h.bytes|
      ensures h.idx < FOUR_GIB && !Retired(h, lastProcessed, Entered(reports)) ==> bytes == h.bytes
      ensures (h.idx < FOUR_GIB && NoEmptyExtended(reports) && lastProcessed < h.id
               && forall r :: r in reports ==> !r.Covers(h.id, h.id)) ==> bytes == h.bytes
    {
      assert Retired(h, lastProcessed, Entered(reports)) || Stored(h, bufs);
      if NoEmptyExtended(reports) {
        forall r | r in Entered(reports) ensures r in reports {
          EnteredAreReported(reports, r);
        }
      }
      var idx, off := word / FOUR_GIB, word % FOUR_GIB;
      if idx < |bufs| && off + len <= |bufs[idx].data| {
        bytes := bufs[idx].data[off..off + len];
      } else {
        bytes := [];
      }
    }
  }
}
