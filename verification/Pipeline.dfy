/** From the buffer manager back to the monitored program: what the manager reports as dropped
    never lets the program reuse the strings of an event that was forwarded. */
module Pipeline {
  import opened Autodrop
  import opened AuxBuffers

  function AsRanges(notices: seq<(nat, nat)>): (r: seq<Range>)
    ensures |r| == |notices| && forall i :: 0 <= i < |r| ==> r[i] == Range(notices[i].0, notices[i].1)
  {
    seq(|notices|, i requires 0 <= i < |notices| => Range(notices[i].0, notices[i].1))
  }

  /** A faithful table holds nothing but reports. */
  lemma {:induction false} TableHoldsReports(notices: seq<Range>, i: nat)
    requires NoEmptyExtended(notices) && i < DROPPED_RANGES_NUM
    ensures NotifyAll(notices).ranges[i] == Range(0, 0) || NotifyAll(notices).ranges[i] in notices
  {
    if notices != [] {
      var front := notices[..|notices| - 1];
      TableHoldsReports(front, i);
      FaithfulIff(notices);
      assert notices[..|notices|] == notices;
      assert Faithful(notices);
    }
  }

  /** The reports of every run keep the table faithful, although an empty report at the end
      of the stream is possible: nothing follows it. */
  lemma {:induction false} ReportsStayFaithful<H(!new)>(c: Config<H>, s: State<H>, k: nat)
    requires Reachable(c, s) && k <= |s.notices|
    ensures NoEmptyExtended(AsRanges(s.notices)) && Faithful(AsRanges(s.notices)[..k])
  {
    var notices := AsRanges(s.notices);
    forall i | 0 <= i < |notices| - 1 ensures !notices[i].IsEmpty() {
      NoticesAreDropped(c, s, i);
    }
    FaithfulIff(notices);
  }

  /** The program's table remembers the last five stretches of dropped events. */
  lemma {:induction false} StretchesAreRemembered<H(!new)>(c: Config<H>, s: State<H>)
    requires Reachable(c, s)
    ensures Remembers(NotifyAll(AsRanges(s.notices)), Episodes(AsRanges(s.notices)))
  {
    ReportsStayFaithful(c, s, 0);
    TableRemembers(AsRanges(s.notices));
  }

  /** An auxiliary buffer with a string of a forwarded event is never taken for dropped. */
  lemma {:induction false} ForwardedStringsAreKept<H(!new)>(c: Config<H>, s: State<H>, i: nat, slot: nat, first: nat, last: nat)
    requires Reachable(c, s) && i < |s.queue| && s.queue[i].Kept? && slot < DROPPED_RANGES_NUM
    requires first <= s.queue[i].ev.id <= last
    ensures !NotifyAll(AsRanges(s.notices)).ranges[slot].Covers(first, last)
  {
    var r := NotifyAll(AsRanges(s.notices)).ranges[slot];
    ReportsStayFaithful(c, s, 0);
    TableHoldsReports(AsRanges(s.notices), slot);
    if r != Range(0, 0) {
      var j :| 0 <= j < |s.notices| && AsRanges(s.notices)[j] == r;
      NoticesAreDropped(c, s, j);
    } else {
      ReachableInv(c, s);
    }
  }

  /** No report covers the event. */
  lemma {:induction false} ForwardedIsNotReported<H(!new)>(c: Config<H>, s: State<H>, i: nat, r: Range)
    requires Reachable(c, s) && i < |s.queue| && s.queue[i].Kept? && r in AsRanges(s.notices)
    ensures !r.Covers(s.queue[i].ev.id, s.queue[i].ev.id)
  {
    var j :| 0 <= j < |s.notices| && AsRanges(s.notices)[j] == r;
    NoticesAreDropped(c, s, j);
  }

  /** The program's strings and the buffer manager together: while the program has received
      any of the manager's reports, a string of a forwarded event that was not processed
      yet reads back the bytes that were pushed. */
  method ReadForwarded<H(!new)>(store: Store, ghost c: Config<H>, ghost s: State<H>, ghost i: nat,
                                ghost h: Handle, word: nat, len: nat) returns (bytes: seq<Byte>)
    requires store.Valid() && h in store.issued && h.idx < FOUR_GIB && h.off < FOUR_GIB
    requires word == Word(h.off, h.idx) && len == |h.bytes|
    requires Reachable(c, s) && store.reports <= AsRanges(s.notices)
    requires i < |s.queue| && s.queue[i].Kept? && s.queue[i].ev.id == h.id && store.lastProcessed < h.id
    ensures bytes == h.bytes
  {
    ghost var all := AsRanges(s.notices);
    ReportsStayFaithful(c, s, 0);
    PrefixKeepsCondition(all, store.reports);
    forall r | r in store.reports ensures !r.Covers(h.id, h.id) {
      assert r in all;
      ForwardedIsNotReported(c, s, i, r);
    }
    bytes := store.GetStr(h, word, len);
  }

  lemma {:induction false} PrefixKeepsCondition(all: seq<Range>, some: seq<Range>)
    requires NoEmptyExtended(all) && some <= all
    ensures NoEmptyExtended(some)
  {
    forall k | 0 <= k < |some| - 1 ensures !some[k].IsEmpty() || some[k].begin == some[k + 1].begin {
      assert some[k] == all[k] && some[k + 1] == all[k + 1];
    }
  }
}
