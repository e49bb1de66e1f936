/** The reader's side of the arbiter buffer: `drop` and `drop_older_than`.

    Ids in an arbiter queue increase strictly, except that the hole pushed at the end of
    a stream may repeat the id before it.  `AlmostIncreasing` is that shape. */
module ArbiterQueue {
  import opened ParQueue
  import opened RingIndex
  import opened Words

  datatype Event = Event(kind: nat, id: nat, payload: int)

  ghost predicate AlmostIncreasing(s: seq<Event>) {
    (forall i, j :: 0 <= i < j < |s| && j < |s| - 1 ==> s[i].id < s[j].id)
    && (forall i :: 0 <= i < |s| - 1 ==> s[i].id <= s[|s| - 1].id)
    && (forall i :: 0 <= i < |s| - 2 ==> s[i].id < s[|s| - 1].id)
  }

  /** The linear scan that the binary search stands for. */
  function CountUpTo(s: seq<Event>, id: nat): (n: nat)
    ensures n <= |s|
  {
    if s == [] then 0
    else CountUpTo(s[..|s| - 1], id) + if s[|s| - 1].id <= id then 1 else 0
  }

  lemma {:induction false} CountOfPrefix(s: seq<Event>, id: nat, k: nat)
    requires k <= |s|
    requires forall i :: 0 <= i < k ==> s[i].id <= id
    requires forall i :: k <= i < |s| ==> s[i].id > id
    ensures CountUpTo(s, id) == k
  {
    if s != [] {
      CountOfPrefix(s[..|s| - 1], id, if k < |s| then k else k - 1);
    }
  }

  /** The last two elements both carry the id sought: the end-of-stream hole repeats it. */
  ghost predicate RepeatedAtEnd(s: seq<Event>, id: nat) {
    |s| >= 2 && s[|s| - 1].id == id && s[|s| - 2].id == id
  }

  /** How many elements the search finds: the linear scan, short by one on a repeated end. */
  ghost function Found(s: seq<Event>, id: nat): (n: int) {
    CountUpTo(s, id) - if RepeatedAtEnd(s, id) then 1 else 0
  }

  lemma FoundAtMost(s: seq<Event>, id: nat)
    ensures Found(s, id) <= |s|
  {}

  lemma FoundIsPrefix(s: seq<Event>, id: nat, k: nat)
    requires k <= |s|
    requires forall i :: 0 <= i < k ==> s[i].id <= id
    requires !RepeatedAtEnd(s, id) ==> forall i :: k <= i < |s| ==> s[i].id > id
    requires RepeatedAtEnd(s, id) ==> k == |s| - 1
    ensures Found(s, id) == k
  {
    CountOfPrefix(s, id, if RepeatedAtEnd(s, id) then |s| else k);
  }

  lemma {:induction false} SplitPoint(s: seq<Event>, id: nat) returns (k: nat)
    requires forall i, j :: 0 <= i < j < |s| ==> s[i].id <= s[j].id
    ensures k <= |s| && (forall i :: 0 <= i < k ==> s[i].id <= id) && (forall i :: k <= i < |s| ==> s[i].id > id)
  {
    if s == [] || s[|s| - 1].id <= id {
      k := |s|;
    } else {
      k := SplitPoint(s[..|s| - 1], id);
    }
  }

  /** The first k events are the old ones, as a linear scan would find them; only a repeated
      end is left although it carries the id. */
  ghost predicate Cut(s: seq<Event>, id: nat, k: nat) {
    k <= |s| && k == Found(s, id)
    && (k == CountUpTo(s, id) <==> !RepeatedAtEnd(s, id))
    && (forall i :: 0 <= i < k ==> s[i].id <= id)
    && (forall i :: k <= i < |s| ==> s[i].id > id || (RepeatedAtEnd(s, id) && i == |s| - 1))
  }

  lemma {:induction false} FoundSplits(s: seq<Event>, id: nat)
    requires AlmostIncreasing(s)
    ensures 0 <= Found(s, id) && Cut(s, id, Found(s, id))
  {
    var k := SplitPoint(s, id);
    CountOfPrefix(s, id, k);
  }

  /** Searching the right half is enough. */
  lemma FoundInHalf(a: seq<Event>, b: seq<Event>, id: nat)
    requires a != [] && AlmostIncreasing(a + b)
    ensures AlmostIncreasing(a) && AlmostIncreasing(b)
    ensures id <= a[|a| - 1].id ==> Found(a + b, id) == Found(a, id)
    ensures id > a[|a| - 1].id ==> Found(a + b, id) == |a| + Found(b, id)
  {
    var s := a + b;
    forall i | 0 <= i < |a| ensures s[i] == a[i] {}
    forall i | 0 <= i < |b| ensures s[|a| + i] == b[i] {}
    CountSplits(a, b, id);
    if id <= a[|a| - 1].id {
      CountLater(a, b, id);
    } else {
      CountOfPrefix(a, id, |a|);
    }
  }

  lemma {:induction false} CountSplits(a: seq<Event>, b: seq<Event>, id: nat)
    ensures CountUpTo(a + b, id) == CountUpTo(a, id) + CountUpTo(b, id)
  {
    if b == [] {
      assert a + b == a;
    } else {
      var m := |b| - 1;
      CountSplits(a, b[..m], id);
      assert (a + b)[..|a + b| - 1] == a + b[..m];
    }
  }

  lemma {:induction false} LaterIds(a: seq<Event>, b: seq<Event>)
    requires a != [] && AlmostIncreasing(a + b)
    ensures forall i :: 0 <= i < |b| ==> a[|a| - 1].id <= b[i].id && (|b| > 1 ==> a[|a| - 1].id < b[i].id)
    ensures b != [] && |a| >= 2 ==> a[|a| - 2].id < a[|a| - 1].id
  {
    var s := a + b;
    assert s[|a| - 1] == a[|a| - 1];
    assert |a| >= 2 ==> s[|a| - 2] == a[|a| - 2];
    forall i | 0 <= i < |b| ensures s[|a| + i] == b[i] {}
  }

  lemma {:induction false} CountLater(a: seq<Event>, b: seq<Event>, id: nat)
    requires a != [] && AlmostIncreasing(a + b) && id <= a[|a| - 1].id
    ensures CountUpTo(b, id) == if |b| == 1 && b[0].id == a[|a| - 1].id == id then 1 else 0
    ensures RepeatedAtEnd(a + b, id) <==> (b == [] && RepeatedAtEnd(a, id)) || (|b| == 1 && b[0].id == a[|a| - 1].id == id)
    ensures b != [] ==> !RepeatedAtEnd(a, id)
  {
    LaterIds(a, b);
    if b == [] {
      assert a + b == a;
    } else {
      CountOfPrefix(b, id, if |b| == 1 && b[0].id == id then 1 else 0);
    }
  }

  // Logarithms -----------------------------------------------------------------------

  function Log2Ceil(d: nat): (r: nat)
    ensures r == 0 <==> d <= 1
  {
    if d <= 1 then 0 else 1 + Log2Ceil((d + 1) / 2)
  }

  lemma {:induction false} Log2Monotone(a: nat, b: nat)
    requires a <= b
    ensures Log2Ceil(a) <= Log2Ceil(b)
  {
    if a > 1 {
      Log2Monotone((a + 1) / 2, (b + 1) / 2);
    }
  }

  function Pow2(n: nat): (r: nat)
    ensures r > 0
  {
    if n == 0 then 1 else 2 * Pow2(n - 1)
  }

  /** The step bound below really is logarithmic. */
  lemma {:induction false} Log2IsLogarithm(d: nat)
    requires d > 0
    ensures d <= Pow2(Log2Ceil(d)) < 2 * d
  {
    if d > 1 {
      Log2IsLogarithm((d + 1) / 2);
      Log2Tight(d);
    }
  }

  lemma {:induction false} Log2Tight(d: nat)
    requires d > 1
    ensures Pow2(Log2Ceil(d)) <= 2 * (d - 1)
  {
    if d > 2 {
      var h := (d + 1) / 2;
      Log2Tight(h);
      assert Pow2(Log2Ceil(d)) == 2 * Pow2(Log2Ceil(h));
    }
  }

  // The search and the buffer ----------------------------------------------------------

  /** The search is confined to bot..top. */
  ghost predicate Between(s: seq<Event>, id: nat, bot: nat, top: nat) {
    bot <= top < |s| && (bot < top || |s| == 1)
    && (bot > 0 ==> s[bot].id <= id)
    && (top < |s| - 1 ==> s[top + 1].id > id)
  }

  /** The last probe, with the search in bot..top, closed in on the position `at`. */
  ghost predicate ClosedIn(s: seq<Event>, id: nat, bot: nat, top: nat, at: nat) {
    Between(s, id, bot, top) && at <= top
    && var pivot := (bot + top) / 2;
       if s[pivot].id > id then at == bot && (at == pivot - 1 || at == pivot == 0)
       else bot == pivot && at == if s[pivot].id == id then bot else top
  }

  /** One probe of the search: the event at the middle decides which half is left. */
  method Narrow(evId: nat, id: nat, bot: nat, top: nat, ghost s: seq<Event>) returns (b: nat, t: nat)
    requires Between(s, id, bot, top) && evId == s[(bot + top) / 2].id
    ensures bot <= b <= t <= top && t - b <= (top - bot + 1) / 2
    ensures top - bot <= 1 ==> b == t
    ensures if b == t then ClosedIn(s, id, bot, top, t) else Between(s, id, b, t)
  {
    b, t := bot, top;
    var pivot := (bot + top) / 2;
    if id < evId {
      if pivot == 0 {
        t := 0;
      } else {
        t := pivot - 1;
      }
    } else {
      if bot == pivot {
        if evId == id {
          t := bot;
        } else {
          b := t;
        }
      } else {
        b := pivot;
      }
    }
  }

  lemma SearchEnds(s: seq<Event>, id: nat, bot: nat, top: nat, at: nat)
    requires AlmostIncreasing(s) && ClosedIn(s, id, bot, top, at)
    ensures Found(s, id) == if s[at].id > id then at else at + 1
  {
    FoundIsPrefix(s, id, if s[at].id > id then at else at + 1);
  }

  /** The search halves what is left of len events. */
  ghost predicate FewSteps(steps: nat, len: nat) {
    len > 0 && steps <= Log2Ceil(len - 1) + 1
  }

  lemma FewerInLess(steps: nat, len: nat, n: nat)
    requires FewSteps(steps, len) && len <= n
    ensures steps <= Log2Ceil(n) + 1
  {
    Log2Monotone(len - 1, n);
  }

  /** The search loop of `drop_older_than` on one contiguous segment; the number of probes is
      logarithmic in its length. */
  method Bisect(data: array<Event>, off: nat, len: nat, id: nat, ghost s: seq<Event>)
    returns (at: nat, steps: nat, ghost bot0: nat, ghost top0: nat)
    requires 0 < len && off + len <= data.Length && s == data[off..off + len]
    ensures ClosedIn(s, id, bot0, top0, at) && FewSteps(steps, len)
  {
    var bot, top := 0, len - 1;
    bot0, top0, steps := bot, top, 0;
    while true
      invariant Between(s, id, bot, top)
      invariant steps + Log2Ceil(top - bot) <= Log2Ceil(len - 1)
      decreases top - bot
    {
      bot0, top0 := bot, top;
      steps := steps + 1;
      var pivot := (bot + top) / 2;
      bot, top := Narrow(data[off + pivot].id, id, bot, top, s);
      if top == bot {
        return top, steps, bot0, top0;
      }
      Log2Monotone(top - bot, (top0 - bot0 + 1) / 2);
    }
  }

  /** How many events of a segment to drop. */
  method SearchSegment(data: array<Event>, off: nat, len: nat, id: nat, ghost s: seq<Event>) returns (k: nat, steps: nat)
    requires 0 < len && off + len <= data.Length
    requires s == data[off..off + len] && AlmostIncreasing(s)
    ensures k <= len && k == Found(s, id)
    ensures FewSteps(steps, len)
  {
    var at;
    ghost var bot, top;
    at, steps, bot, top := Bisect(data, off, len, id, s);
    SearchEnds(s, id, bot, top, at);
    assert data[off + at] == s[at];
    k := if id < data[off + at].id then at else at + 1;
  }

  /** Which of the two segments may hold the event, and the search in it. */
  method SearchParts(data: array<Event>, p: Segments, id: nat, ghost a: seq<Event>, ghost b: seq<Event>)
    returns (k: nat, steps: nat)
    requires p.len1 > 0 && p.off + p.len1 <= data.Length && p.len2 <= data.Length
    requires a == data[p.off..p.off + p.len1] && b == data[..p.len2] && AlmostIncreasing(a + b)
    ensures k == Found(a + b, id)
    ensures FewSteps(steps, p.len1) || FewSteps(steps, p.len2)
  {
    FoundInHalf(a, b, id);
    if id <= data[p.off + p.len1 - 1].id {
      k, steps := SearchSegment(data, p.off, p.len1, id, a);
    } else if p.len2 > 0 {
      k, steps := SearchSegment(data, 0, p.len2, id, b);
      k := p.len1 + k;
    } else {
      k, steps := p.len1, 0;
    }
  }

  /** Ids do not decrease along a queue nor below the last processed one. */
  ghost predicate Ordered(last: nat, s: seq<Event>) {
    (forall i, j :: 0 <= i < j < |s| ==> s[i].id <= s[j].id)
    && forall i :: 0 <= i < |s| ==> last <= s[i].id
  }

  /** Processing a prefix never moves the last processed id back, so the assertion in
      `buffer_set_last_processed_id` holds for every sequence of drops. */
  lemma ProcessingKeepsOrder(last: nat, s: seq<Event>, k: nat)
    requires Ordered(last, s) && 0 < k <= |s|
    ensures last <= s[k - 1].id && Ordered(s[k - 1].id, s[k..])
  {
    forall i | 0 <= i < |s[k..]| ensures s[k..][i] == s[k + i] {}
  }

  // The reported ids ------------------------------------------------------------------------

  /** How many of n events `drop(asked)` removes. */
  function Removed(asked: nat, n: nat): nat {
    if 0 < asked < n then asked else n
  }

  /** All events ever queued, how many of them were taken, and the id last reported as
      processed. */
  datatype Mark = Mark(log: seq<Event>, taken: nat, last: nat) {
    ghost function Rest(): seq<Event>
      requires taken <= |log|
    {
      log[taken..]
    }
  }

  datatype Call = Publish(ev: Event) | DropCall(asked: nat) | OlderCall(id: nat)

  /** What a call does; `drop` reports the last event it drops, `drop_older_than` its argument. */
  ghost function Do(m: Mark, a: Call): (r: Mark)
    requires m.taken <= |m.log|
    ensures m.taken <= r.taken <= |r.log|
  {
    match a
    case Publish(ev) => m.(log := m.log + [ev])
    case DropCall(asked) =>
      var k := Removed(asked, |m.Rest()|);
      if k == 0 then m else Mark(m.log, m.taken + k, m.log[m.taken + k - 1].id)
    case OlderCall(id) =>
      FoundAtMost(m.Rest(), id);
      var k := Found(m.Rest(), id);
      if k <= 0 then m else Mark(m.log, m.taken + k, id)
  }

  /** The call takes the oldest events, as many as asked for or all there are, and all of them
      if asked for none. */
  lemma {:induction false} DropTakes(m: Mark, asked: nat)
    requires m.taken <= |m.log|
    ensures var r, n := Do(m, DropCall(asked)), |m.log| - m.taken;
            && r.log == m.log
            && (asked > 0 ==> r.taken - m.taken == if asked < n then asked else n)
            && (asked == 0 ==> r.taken == |m.log|)
            && r.last == if r.taken == m.taken then m.last else m.log[r.taken - 1].id
  {
    assert |m.Rest()| == |m.log| - m.taken;
  }

  /** Dropping from an ordered queue leaves an ordered one and never moves the id back. */
  lemma {:induction false} DropKeepsOrder(m: Mark, asked: nat)
    requires m.taken <= |m.log| && Ordered(m.last, m.Rest())
    ensures m.last <= Do(m, DropCall(asked)).last
    ensures Ordered(Do(m, DropCall(asked)).last, Do(m, DropCall(asked)).Rest())
  {
    var k := Removed(asked, |m.Rest()|);
    if k > 0 {
      ProcessingKeepsOrder(m.last, m.Rest(), k);
      assert m.Rest()[k - 1] == m.log[m.taken + k - 1] && m.Rest()[k..] == m.log[m.taken + k..];
    }
  }

  ghost function Newest(log: seq<Event>): nat {
    if log == [] then 0 else log[|log| - 1].id
  }

  /** The stream is over: the end-of-stream hole repeats an id. */
  ghost predicate Over(log: seq<Event>) {
    RepeatedAtEnd(log, Newest(log))
  }

  /** The reported id is not above any event that is still there or to come. */
  ghost predicate Behind(m: Mark) {
    m.taken <= |m.log| && AlmostIncreasing(m.log)
    && (forall i :: m.taken <= i < |m.log| ==> m.last <= m.log[i].id)
    && (m.last <= Newest(m.log) || Over(m.log))
  }

  /** Queued ids are ordered, and nobody drops events older than one that is not there yet. */
  ghost predicate Permitted(m: Mark, a: Call)
    requires m.taken <= |m.log|
  {
    match a
    case Publish(ev) => AlmostIncreasing(m.log + [ev])
    case DropCall(_) => true
    case OlderCall(id) => Found(m.Rest(), id) > 0 ==> id <= Newest(m.log) || Over(m.log)
  }

  /** Queueing more events in order keeps the reported id behind. */
  lemma {:induction false} MoreKeepsBehind(m: Mark, more: seq<Event>)
    requires Behind(m) && AlmostIncreasing(m.log + more)
    ensures Behind(m.(log := m.log + more))
  {
    var log := m.log + more;
    forall i | m.taken <= i < |log| ensures m.last <= log[i].id {
      if i < |m.log| {
        assert log[i] == m.log[i];
      } else {
        LaterIsNewer(m.log, more, i);
      }
    }
    if more != [] {
      LaterIsNewer(m.log, more, |log| - 1);
    } else {
      assert log == m.log;
    }
  }

  /** What an effective `drop_older_than` leaves. */
  lemma {:induction false} OlderLeaves(m: Mark, id: nat)
    requires Behind(m) && Found(m.Rest(), id) > 0
    ensures Do(m, OlderCall(id)).last == id && m.last <= id
    ensures forall i :: Do(m, OlderCall(id)).taken <= i < |m.log| ==> id <= m.log[i].id
    ensures Newest(m.log) < id ==> Do(m, OlderCall(id)).taken == |m.log|
  {
    SuffixAlmostIncreasing(m.log, m.taken);
    CutOfSuffix(m.log, m.taken, id);
  }

  lemma {:induction false} CutOfSuffix(log: seq<Event>, taken: nat, id: nat)
    requires taken <= |log| && AlmostIncreasing(log[taken..]) && Found(log[taken..], id) > 0
    ensures taken < |log| && log[taken].id <= id
    ensures forall i :: taken + Found(log[taken..], id) <= i < |log| ==> id <= log[i].id
    ensures Newest(log) < id ==> Found(log[taken..], id) == |log| - taken
  {
    var s := log[taken..];
    var k := Found(s, id);
    FoundSplits(s, id);
    assert s[0] == log[taken] && s[|s| - 1] == log[|log| - 1];
    forall i | taken + k <= i < |log| ensures id <= log[i].id {
      assert s[i - taken] == log[i];
    }
  }

  lemma {:induction false} SuffixAlmostIncreasing(evs: seq<Event>, k: nat)
    requires AlmostIncreasing(evs) && k <= |evs|
    ensures AlmostIncreasing(evs[k..])
  {
    var s := evs[k..];
    assert forall i :: 0 <= i < |s| ==> s[i] == evs[k + i];
  }

  lemma {:induction false} OlderKeepsBehind(m: Mark, id: nat)
    requires Behind(m) && Permitted(m, OlderCall(id))
    ensures Behind(Do(m, OlderCall(id))) && m.last <= Do(m, OlderCall(id)).last
  {
    if Found(m.Rest(), id) > 0 {
      OlderLeaves(m, id);
    }
  }

  /** Every permitted call keeps the reported id behind and never lowers it. */
  lemma {:induction false} CallKeepsBehind(m: Mark, a: Call)
    requires Behind(m) && Permitted(m, a)
    ensures Behind(Do(m, a)) && m.last <= Do(m, a).last
  {
    match a
    case Publish(ev) => MoreKeepsBehind(m, [ev]);
    case DropCall(_) =>
    case OlderCall(id) => OlderKeepsBehind(m, id);
  }

  ghost predicate AllPermitted(m: Mark, calls: seq<Call>)
    requires m.taken <= |m.log|
    decreases |calls|
  {
    calls != [] ==> Permitted(m, calls[0]) && AllPermitted(Do(m, calls[0]), calls[1..])
  }

  ghost function DoAll(m: Mark, calls: seq<Call>): (r: Mark)
    requires m.taken <= |m.log|
    ensures r.taken <= |r.log|
    decreases |calls|
  {
    if calls == [] then m else DoAll(Do(m, calls[0]), calls[1..])
  }

  /** So the assertion in `buffer_set_last_processed_id` holds throughout any such run. */
  lemma {:induction false} ReportsNeverFall(m: Mark, calls: seq<Call>)
    requires Behind(m) && AllPermitted(m, calls)
    ensures m.last <= DoAll(m, calls).last && Behind(DoAll(m, calls))
    decreases |calls|
  {
    if calls != [] {
      CallKeepsBehind(m, calls[0]);
      ReportsNeverFall(Do(m, calls[0]), calls[1..]);
    }
  }

  /** After more events were queued, the next `drop` does not move the reported id back. */
  ghost predicate StaysAhead(m: Mark, more: seq<Event>, asked: nat)
    requires m.taken <= |m.log|
  {
    m.last <= Do(m.(log := m.log + more), DropCall(asked)).last
  }

  /** The condition on `drop_older_than` is exact: whatever is queued after an effective
      call, no `drop` moves the reported id back, if and only if the call was permitted. */
  lemma {:induction false} OlderIsPermittedIff(m: Mark, id: nat)
    requires Behind(m) && Found(m.Rest(), id) > 0
    ensures (forall more, asked :: AlmostIncreasing(m.log + more) ==> StaysAhead(Do(m, OlderCall(id)), more, asked))
            <==> Permitted(m, OlderCall(id))
  {
    var r := Do(m, OlderCall(id));
    if Permitted(m, OlderCall(id)) {
      OlderKeepsBehind(m, id);
      forall more, asked | AlmostIncreasing(m.log + more) ensures StaysAhead(r, more, asked) {
        PermittedStaysAhead(r, more, asked);
      }
    } else {
      OlderLeaves(m, id);
      var hole := Event(1, Newest(m.log), 0);
      RepeatNewest(m.log, hole);
      assert !StaysAhead(r, [hole], 1) by {
        assert r.(log := m.log + [hole]).Rest() == [hole];
      }
    }
  }

  /** A stream that is not over may still end with a hole that repeats the newest id. */
  lemma {:induction false} RepeatNewest(log: seq<Event>, hole: Event)
    requires AlmostIncreasing(log) && log != [] && !Over(log) && hole.id == Newest(log)
    ensures AlmostIncreasing(log + [hole])
  {
    var longer := log + [hole];
    assert forall i :: 0 <= i < |log| ==> longer[i] == log[i];
  }

  lemma {:induction false} PermittedStaysAhead(m: Mark, more: seq<Event>, asked: nat)
    requires Behind(m) && AlmostIncreasing(m.log + more)
    ensures StaysAhead(m, more, asked)
  {
    MoreKeepsBehind(m, more);
    CallKeepsBehind(m.(log := m.log + more), DropCall(asked));
  }

  lemma {:induction false} LaterIsNewer(log: seq<Event>, more: seq<Event>, i: nat)
    requires AlmostIncreasing(log + more) && |log| <= i < |log + more|
    ensures Newest(log) <= (log + more)[i].id && !Over(log)
  {
    var n := |log|;
    assert n >= 1 ==> (log + more)[n - 1] == log[n - 1];
    assert n >= 2 ==> (log + more)[n - 2] == log[n - 2];
  }

  /** The input that breaks it: event 1 is queued and `drop_older_than(100)` drops it; then
      event 2 comes and is dropped. */
  lemma {:induction false} OlderThanOvershoots(e1: Event, e2: Event)
    requires e1.id == 1 && e2.id == 2
    ensures Behind(Mark([e1], 0, 0)) && Do(Mark([e1], 0, 0), OlderCall(100)) == Mark([e1], 1, 100)
    ensures Do(Mark([e1], 1, 100), Publish(e2)) == Mark([e1, e2], 1, 100)
    ensures Do(Mark([e1, e2], 1, 100), DropCall(1)) == Mark([e1, e2], 2, 2)
  {
    assert Mark([e1], 0, 0).Rest() == [e1] && Mark([e1, e2], 1, 100).Rest() == [e2];
    CountOfPrefix([e1], 100, 1);
  }

  class ArbiterBuffer {
    const queue: Queue<Event>
    var lastProcessedId: nat  // in the shared buffer of the stream

    ghost predicate Valid()
      reads this, queue, queue.data
    {
      queue.Valid()
    }

    ghost function Contents(): seq<Event>
      requires Valid()
      reads this, queue, queue.data
    {
      queue.Contents()
    }

    constructor (capacity: nat)
      requires 3 <= capacity < SIZE_MAX - 2
      ensures Valid() && fresh(queue) && fresh(queue.data) && Contents() == [] && lastProcessedId == 0
    {
      queue := new Queue<Event>(capacity);
      lastProcessedId := 0;
    }

    /** The events that went through the queue, how many were taken, and the reported id. */
    ghost function Account(): Mark
      requires Valid()
      reads this, queue, queue.data
    {
      Mark(queue.q.log, queue.q.taken, lastProcessedId)
    }

    /** `shm_arbiter_buffer_drop`.  `drop(0)` wraps around and drops everything. */
    method Drop(asked: nat) returns (k: nat)
      requires Valid() && asked <= SIZE_MAX
      modifies this`lastProcessedId, queue`tail, queue`seenHead, queue`q
      ensures Valid() && Account() == Do(old(Account()), DropCall(asked))
      ensures asked > 0 ==> k == if asked < |old(Contents())| then asked else |old(Contents())|
      ensures asked == 0 ==> k == |old(Contents())|
      ensures Contents() == old(Contents())[k..]
      ensures lastProcessedId == if k == 0 then old(lastProcessedId) else old(Contents())[k - 1].id
      ensures old(Ordered(lastProcessedId, Contents())) ==>
                old(lastProcessedId) <= lastProcessedId && Ordered(lastProcessedId, Contents())
    {
      k := DropUpTo(asked);
      ghost var m := old(Account());
      assert m.Rest() == old(Contents()) && (k > 0 ==> m.log[m.taken + k - 1] == m.Rest()[k - 1]);
      if old(Ordered(lastProcessedId, Contents())) {
        DropKeepsOrder(old(Account()), asked);
      }
    }

    /** What it does to the queue. */
    method DropUpTo(asked: nat) returns (k: nat)
      requires Valid() && asked <= SIZE_MAX
      modifies this`lastProcessedId, queue`tail, queue`seenHead, queue`q
      ensures Valid() && queue.q.log == old(queue.q.log) && queue.q.taken == old(queue.q.taken) + k
      ensures asked > 0 ==> k == if asked < |old(Contents())| then asked else |old(Contents())|
      ensures asked == 0 ==> k == |old(Contents())|
      ensures Contents() == old(Contents())[k..]
      ensures lastProcessedId == if k == 0 then old(lastProcessedId) else old(Contents())[k - 1].id
    {
      var ok, last, off := queue.PeekAtmostAt(if asked == 0 then SIZE_MAX else asked - 1);
      if !ok {
        return 0;
      }
      var lastId := queue.data[off].id;
      k := last + 1;
      TakeAndReport(k, lastId);
    }

    /** `shm_arbiter_buffer_drop_older_than`: drops the events with an id up to `id`, all
        of them unless the end-of-stream hole repeats exactly that id; then the hole
        stays.  It reports `id` itself, whether or not there is such an event. */
    method DropOlderThan(id: nat) returns (k: nat, steps: nat)
      requires Valid() && AlmostIncreasing(Contents())
      modifies this`lastProcessedId, queue`tail, queue`seenHead, queue`q
      ensures Valid() && Account() == Do(old(Account()), OlderCall(id))
      ensures Cut(old(Contents()), id, k) && Contents() == old(Contents())[k..]
      ensures lastProcessedId == if k == 0 then old(lastProcessedId) else id
      ensures steps <= Log2Ceil(|old(Contents())|) + 1
    {
      ghost var m := Account();
      k, steps := CountOlderThan(id);
      FoundSplits(m.Rest(), id);
      if k > 0 {
        TakeAndReport(k, id);
      }
    }

    method TakeAndReport(k: nat, id: nat)
      requires Valid() && 0 < k <= |queue.Visible()|
      modifies this`lastProcessedId, queue`tail, queue`q
      ensures Valid() && Account() == Mark(old(queue.q.log), old(queue.q.taken) + k, id) && lastProcessedId == id
      ensures Contents() == old(Contents())[k..]
    {
      queue.Drop(k);
      lastProcessedId := id;
    }

    /** The part of `drop_older_than` that decides how many events go. */
    method CountOlderThan(id: nat) returns (k: nat, steps: nat)
      requires Valid() && AlmostIncreasing(Contents())
      modifies queue`seenHead, queue`q
      ensures Valid() && Contents() == old(Contents()) && Account() == old(Account())
      ensures k == Found(Contents(), id) && k <= |queue.Visible()|
      ensures steps <= Log2Ceil(|Contents()|) + 1
    {
      var n, p := queue.Peek(0);
      if n == 0 {
        return 0, 0;
      }
      assert Contents()[..n] == Contents();
      k, steps := SearchParts(queue.data, p, id, queue.data[p.off..p.off + p.len1], queue.data[..p.len2]);
      FewerInLess(steps, if FewSteps(steps, p.len1) then p.len1 else p.len2, n);
      FoundAtMost(Contents(), id);
    }
  }
}
