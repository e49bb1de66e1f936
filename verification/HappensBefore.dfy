/** Locksets against happens-before.

    The race monitor keeps, for an access, the set of threads that the access is known to
    happen before, and grows it while walking over the synchronisation events since.
    The reference is stated without any of that: a chain of unlock-lock, fork and join
    links through the trace. */
module HappensBefore {

  datatype Sync =
    | Lock(addr: int) | Unlock(addr: int)
    | Fork(child: int) | Join(child: int)
    | SkipStart | SkipEnd
    | Other  // alloc, free, done

  datatype SyncEvent = SyncEvent(tid: int, act: Sync)

  datatype Lockset = Lockset(addrs: set<int>, threads: set<int>, skip: set<int>, skipped: set<int>)

  /** The lockset of a new access record. */
  function Fresh(owner: int): Lockset {
    Lockset({}, {owner}, {}, {})
  }

  predicate Knows(ls: Lockset, t: int) {
    t in ls.threads || t in ls.skip || t in ls.skipped
  }

  /** One turn of the loop of `apply_lockset_rules`. */
  function Apply(ls: Lockset, e: SyncEvent): Lockset {
    match e.act
    case Lock(a) =>
      if a in ls.addrs || ls.skip != {} || ls.skipped != {} then ls.(threads := ls.threads + {e.tid}) else ls
    case Unlock(a) => if Knows(ls, e.tid) then ls.(addrs := ls.addrs + {a}) else ls
    case Fork(c) => if Knows(ls, e.tid) then ls.(threads := ls.threads + {c}) else ls
    case Join(c) => if Knows(ls, c) then ls.(threads := ls.threads + {e.tid}) else ls
    case SkipStart => ls.(skip := ls.skip + {e.tid})
    case SkipEnd => ls.(skip := ls.skip - {e.tid}, skipped := ls.skipped + {e.tid})
    case Other => ls
  }

  /** The whole walk. */
  function Walk(ls: Lockset, trace: seq<SyncEvent>): Lockset {
    if trace == [] then ls else Apply(Walk(ls, trace[..|trace| - 1]), trace[|trace| - 1])
  }

  // The reference: chains of synchronisation ------------------------------------------------

  predicate IsMarker(act: Sync) {
    act.SkipStart? || act.SkipEnd?
  }

  /** `Jump` is no synchronisation: after the skip marker at k, anything may have happened
      that the monitor did not see. */
  datatype Link = UnlockLock(i: nat, j: nat) | ForkAt(i: nat) | JoinAt(i: nat) | Jump(k: nat, i: nat) {
    function Last(): nat {
      if UnlockLock? then j else i
    }
  }

  /** `link` orders what `from` did before it and what `to` does after it.  A jump leads from
      anywhere to a thread that locks, and to the child forked or the parent joining if the
      marker belongs to the forking or the joined thread. */
  ghost predicate Hop(trace: seq<SyncEvent>, from: int, link: Link, to: int) {
    match link
    case UnlockLock(i, j) =>
      i < j < |trace| && trace[i].tid == from && trace[j].tid == to
      && trace[i].act.Unlock? && trace[j].act == Lock(trace[i].act.addr)
    case ForkAt(i) => i < |trace| && trace[i] == SyncEvent(from, Fork(to))
    case JoinAt(i) => i < |trace| && trace[i] == SyncEvent(to, Join(from))
    case Jump(k, i) => k < i < |trace| && IsMarker(trace[k].act) && JumpsTo(trace[k].tid, trace[i], to)
  }

  ghost predicate JumpsTo(marked: int, e: SyncEvent, to: int) {
    match e.act
    case Lock(_) => to == e.tid
    case Fork(c) => marked == e.tid && to == c
    case Join(c) => marked == c && to == e.tid
    case _ => false
  }

  /** The first position after a chain. */
  ghost function EndOf(links: seq<Link>): nat {
    if links == [] then 0 else links[|links| - 1].Last() + 1
  }

  ghost predicate IsChain(trace: seq<SyncEvent>, owner: int, links: seq<Link>, t: int)
    decreases |links|
  {
    if links == [] then t == owner
    else
      var m := |links| - 1;
      exists u :: IsChain(trace, owner, links[..m], u) && Hop(trace, u, links[m], t) && EndOf(links[..m]) <= links[m].i
  }

  ghost predicate JumpFree(links: seq<Link>) {
    forall l :: l in links ==> !l.Jump?
  }

  /** What the owner did before the trace happens before what t does after it. */
  ghost predicate Reaches(trace: seq<SyncEvent>, owner: int, t: int) {
    exists links :: IsChain(trace, owner, links, t) && JumpFree(links)
  }

  /** It does, or may do because of a skipped stretch. */
  ghost predicate MayReach(trace: seq<SyncEvent>, owner: int, t: int) {
    exists links :: IsChain(trace, owner, links, t)
  }

  ghost predicate SkipFree(trace: seq<SyncEvent>) {
    forall i :: 0 <= i < |trace| ==> !IsMarker(trace[i].act)
  }

  lemma {:induction false} NoJumps(trace: seq<SyncEvent>, owner: int, links: seq<Link>, t: int)
    requires SkipFree(trace) && IsChain(trace, owner, links, t)
    ensures JumpFree(links)
    decreases |links|
  {
    if links != [] {
      var m := |links| - 1;
      var u :| IsChain(trace, owner, links[..m], u) && Hop(trace, u, links[m], t);
      NoJumps(trace, owner, links[..m], u);
      assert links == links[..m] + [links[m]];
    }
  }

  // Skip markers -------------------------------------------------------------------------------

  /** The last marker of t in the first n events is a skip start. */
  ghost predicate Skipping(trace: seq<SyncEvent>, t: int, n: nat)
    requires n <= |trace|
  {
    exists k :: 0 <= k < n && trace[k] == SyncEvent(t, SkipStart)
                && forall j :: k < j < n ==> trace[j] != SyncEvent(t, SkipEnd)
  }

  /** t had a skip end in the first n events. */
  ghost predicate Skipped(trace: seq<SyncEvent>, t: int, n: nat)
    requires n <= |trace|
  {
    exists k :: 0 <= k < n && trace[k] == SyncEvent(t, SkipEnd)
  }

  ghost predicate Marked(trace: seq<SyncEvent>, t: int, n: nat)
    requires n <= |trace|
  {
    exists k :: 0 <= k < n && trace[k].tid == t && IsMarker(trace[k].act)
  }

  /** The two skip sets of a walk, by positions in the trace. */
  lemma {:induction false} SkipSets(trace: seq<SyncEvent>, owner: int, t: int, n: nat)
    requires n <= |trace|
    ensures var ls := Walk(Fresh(owner), trace[..n]);
            (t in ls.skip <==> Skipping(trace, t, n)) && (t in ls.skipped <==> Skipped(trace, t, n))
  {
    if n > 0 {
      SkipSets(trace, owner, t, n - 1);
      WalkStep(Fresh(owner), trace, n - 1);
      SkippingStep(trace, t, n - 1);
      SkippedStep(trace, t, n - 1);
    }
  }

  lemma {:induction false} SkippingStep(trace: seq<SyncEvent>, t: int, n: nat)
    requires n < |trace|
    ensures Skipping(trace, t, n + 1) <==>
              trace[n] == SyncEvent(t, SkipStart) || (Skipping(trace, t, n) && trace[n] != SyncEvent(t, SkipEnd))
  {
    if Skipping(trace, t, n + 1) && trace[n] != SyncEvent(t, SkipStart) {
      var k :| 0 <= k < n + 1 && trace[k] == SyncEvent(t, SkipStart)
               && forall j :: k < j < n + 1 ==> trace[j] != SyncEvent(t, SkipEnd);
      assert k < n && trace[n] != SyncEvent(t, SkipEnd);
    }
    if Skipping(trace, t, n) && trace[n] != SyncEvent(t, SkipEnd) {
      var k :| 0 <= k < n && trace[k] == SyncEvent(t, SkipStart)
               && forall j :: k < j < n ==> trace[j] != SyncEvent(t, SkipEnd);
      assert forall j :: k < j < n + 1 ==> trace[j] != SyncEvent(t, SkipEnd);
    }
  }

  lemma {:induction false} SkippedStep(trace: seq<SyncEvent>, t: int, n: nat)
    requires n < |trace|
    ensures Skipped(trace, t, n + 1) <==> trace[n] == SyncEvent(t, SkipEnd) || Skipped(trace, t, n)
  {
    if trace[n] == SyncEvent(t, SkipEnd) {
      assert Skipped(trace, t, n + 1);
    }
  }

  /** Together they hold every thread with a marker. */
  lemma {:induction false} SkipSetsAreMarked(trace: seq<SyncEvent>, owner: int, t: int, n: nat)
    requires n <= |trace|
    ensures var ls := Walk(Fresh(owner), trace[..n]); t in ls.skip || t in ls.skipped <==> Marked(trace, t, n)
  {
    SkipSets(trace, owner, t, n);
    if Marked(trace, t, n) && !Skipped(trace, t, n) {
      var k :| 0 <= k < n && trace[k].tid == t && IsMarker(trace[k].act);
      assert trace[k] == SyncEvent(t, SkipStart);
      assert forall j :: k < j < n ==> trace[j] != SyncEvent(t, SkipEnd);
    }
  }

  // Completeness: every chain is found ------------------------------------------------------------

  lemma {:induction false} WalkGrows(ls: Lockset, trace: seq<SyncEvent>, m: nat, n: nat)
    requires m <= n <= |trace|
    ensures Walk(ls, trace[..m]).threads <= Walk(ls, trace[..n]).threads
    ensures Walk(ls, trace[..m]).addrs <= Walk(ls, trace[..n]).addrs
    decreases n
  {
    if m < n {
      WalkGrows(ls, trace, m, n - 1);
      WalkStep(ls, trace, n - 1);
    }
  }

  lemma WalkStep(ls: Lockset, trace: seq<SyncEvent>, k: nat)
    requires k < |trace|
    ensures Walk(ls, trace[..k + 1]) == Apply(Walk(ls, trace[..k]), trace[k])
  {
    assert trace[..k + 1][..k] == trace[..k];
  }

  /** A link from a thread that is found leads to one that is found. */
  lemma {:induction false} HopIsFound(trace: seq<SyncEvent>, owner: int, u: int, link: Link, t: int)
    requires Hop(trace, u, link, t) && u in Walk(Fresh(owner), trace[..link.i]).threads
    ensures link.Last() < |trace| && t in Walk(Fresh(owner), trace[..link.Last() + 1]).threads
  {
    WalkStep(Fresh(owner), trace, link.i);
    if link.UnlockLock? {
      WalkGrows(Fresh(owner), trace, link.i + 1, link.j);
      WalkStep(Fresh(owner), trace, link.j);
    }
    if link.Jump? {
      SkipSetsAreMarked(trace, owner, trace[link.k].tid, link.i);
    }
  }

  lemma {:induction false} ChainIsFound(trace: seq<SyncEvent>, owner: int, links: seq<Link>, t: int)
    requires IsChain(trace, owner, links, t)
    ensures EndOf(links) <= |trace| && t in Walk(Fresh(owner), trace[..EndOf(links)]).threads
    decreases |links|
  {
    if links == [] {
      assert trace[..0] == [];
    } else {
      var m := |links| - 1;
      var link := links[m];
      var u :| IsChain(trace, owner, links[..m], u) && Hop(trace, u, link, t) && EndOf(links[..m]) <= link.i;
      ChainIsFound(trace, owner, links[..m], u);
      WalkGrows(Fresh(owner), trace, EndOf(links[..m]), link.i);
      HopIsFound(trace, owner, u, link, t);
    }
  }

  // Soundness: nothing else is found --------------------------------------------------------------

  ghost predicate Witness(trace: seq<SyncEvent>, owner: int, links: seq<Link>, t: int, n: nat) {
    IsChain(trace, owner, links, t) && EndOf(links) <= n
  }

  /** Some chain within n events ends in t. */
  ghost predicate Chained(trace: seq<SyncEvent>, owner: int, t: int, n: nat) {
    exists links :: Witness(trace, owner, links, t, n)
  }

  /** Each thread found within n events is at the end of a chain, and each address was
      released by such a thread or by one with a marker. */
  ghost predicate Justified(trace: seq<SyncEvent>, owner: int, ls: Lockset, n: nat) {
    n <= |trace|
    && (forall t :: t in ls.threads ==> Chained(trace, owner, t, n))
    && (forall a :: a in ls.addrs ==> exists i :: Released(trace, owner, a, i, n))
    && (forall t :: t in ls.skip || t in ls.skipped ==> Marked(trace, t, n))
  }

  ghost predicate Released(trace: seq<SyncEvent>, owner: int, a: int, i: nat, n: nat) {
    i < n <= |trace| && trace[i].act == Unlock(a)
    && (Chained(trace, owner, trace[i].tid, i) || Marked(trace, trace[i].tid, i))
  }

  lemma ChainExtends(trace: seq<SyncEvent>, owner: int, u: int, link: Link, t: int)
    requires Chained(trace, owner, u, link.i) && Hop(trace, u, link, t)
    ensures Chained(trace, owner, t, link.Last() + 1)
  {
    var links :| Witness(trace, owner, links, u, link.i);
    assert (links + [link])[..|links|] == links;
    assert Witness(trace, owner, links + [link], t, link.Last() + 1);
  }

  /** After a marker a chain may begin anew. */
  lemma {:induction false} JumpIsChained(trace: seq<SyncEvent>, owner: int, marked: int, n: nat, t: int)
    requires n < |trace| && Marked(trace, marked, n) && JumpsTo(marked, trace[n], t)
    ensures Chained(trace, owner, t, n + 1)
  {
    var k: nat :| k < n && trace[k].tid == marked && IsMarker(trace[k].act);
    assert Witness(trace, owner, [], owner, n);
    ChainExtends(trace, owner, owner, Jump(k, n), t);
  }

  lemma {:induction false} LaterChained(trace: seq<SyncEvent>, owner: int, t: int, m: nat, n: nat)
    requires Chained(trace, owner, t, m) && m <= n
    ensures Chained(trace, owner, t, n)
  {
    var links :| Witness(trace, owner, links, t, m);
    assert Witness(trace, owner, links, t, n);
  }

  lemma {:induction false} LaterMarked(trace: seq<SyncEvent>, t: int, m: nat, n: nat)
    requires m <= n <= |trace| && Marked(trace, t, m)
    ensures Marked(trace, t, n)
  {
  }

  lemma MemberOrEmpty(a: set<int>)
    ensures a == {} || exists x :: x in a
  {
    if forall y :: y !in a {
      assert a == {};
    }
  }

  /** The thread that `Apply` adds, if any, has a chain. */
  lemma {:induction false} AddedIsChained(trace: seq<SyncEvent>, owner: int, ls: Lockset, n: nat, t: int)
    requires Justified(trace, owner, ls, n) && n < |trace|
    requires t in Apply(ls, trace[n]).threads && t !in ls.threads
    ensures Chained(trace, owner, t, n + 1)
  {
    var e := trace[n];
    match e.act
    case Lock(a) =>
      if a in ls.addrs {
        var i: nat :| Released(trace, owner, a, i, n);
        if Chained(trace, owner, trace[i].tid, i) {
          ChainExtends(trace, owner, trace[i].tid, UnlockLock(i, n), t);
        } else {
          LaterMarked(trace, trace[i].tid, i, n);
          JumpIsChained(trace, owner, trace[i].tid, n, t);
        }
      } else {
        assert ls.skip != {} || ls.skipped != {};
        var marked := if ls.skip != {} then ls.skip else ls.skipped;
        MemberOrEmpty(marked);
        var u :| u in marked;
        JumpIsChained(trace, owner, u, n, t);
      }
    case Fork(c) =>
      if e.tid in ls.threads {
        ChainExtends(trace, owner, e.tid, ForkAt(n), c);
      } else {
        JumpIsChained(trace, owner, e.tid, n, t);
      }
    case Join(c) =>
      if c in ls.threads {
        ChainExtends(trace, owner, c, JoinAt(n), e.tid);
      } else {
        JumpIsChained(trace, owner, c, n, t);
      }
    case _ =>
  }

  lemma {:induction false} ApplyJustified(trace: seq<SyncEvent>, owner: int, ls: Lockset, n: nat)
    requires Justified(trace, owner, ls, n) && n < |trace|
    ensures Justified(trace, owner, Apply(ls, trace[n]), n + 1)
  {
    var e, r, n' := trace[n], Apply(ls, trace[n]), n + 1;
    forall t | t in r.threads ensures Chained(trace, owner, t, n + 1) {
      if t in ls.threads {
        LaterChained(trace, owner, t, n, n + 1);
      } else {
        AddedIsChained(trace, owner, ls, n, t);
      }
    }
    forall a | a in r.addrs ensures exists i :: Released(trace, owner, a, i, n') {
      if a in ls.addrs {
        var i: nat :| Released(trace, owner, a, i, n);
        assert Released(trace, owner, a, i, n');
      } else {
        assert Released(trace, owner, a, n, n');
      }
    }
    forall t | t in r.skip || t in r.skipped ensures Marked(trace, t, n + 1) {
      if t in ls.skip || t in ls.skipped {
        LaterMarked(trace, t, n, n + 1);
      } else {
        assert e.tid == t && IsMarker(e.act);
      }
    }
  }

  lemma {:induction false} WalkJustified(trace: seq<SyncEvent>, owner: int, n: nat)
    requires n <= |trace|
    ensures Justified(trace, owner, Walk(Fresh(owner), trace[..n]), n)
  {
    if n == 0 {
      assert trace[..0] == [] && Witness(trace, owner, [], owner, 0);
    } else {
      WalkJustified(trace, owner, n - 1);
      WalkStep(Fresh(owner), trace, n - 1);
      ApplyJustified(trace, owner, Walk(Fresh(owner), trace[..n - 1]), n - 1);
    }
  }

  // The two directions together -----------------------------------------------------------------

  /** Walking a fresh record over any trace finds exactly the threads its owner reaches or may
      reach through a skipped stretch; without skip markers, exactly those it reaches. */
  lemma {:induction false} WalkIsHappensBefore(trace: seq<SyncEvent>, owner: int, t: int)
    ensures t in Walk(Fresh(owner), trace).threads <==> MayReach(trace, owner, t)
    ensures Reaches(trace, owner, t) ==> t in Walk(Fresh(owner), trace).threads
    ensures SkipFree(trace) ==> (t in Walk(Fresh(owner), trace).threads <==> Reaches(trace, owner, t))
  {
    assert trace[..|trace|] == trace;
    if MayReach(trace, owner, t) {
      var links :| IsChain(trace, owner, links, t);
      ChainIsFound(trace, owner, links, t);
      WalkGrows(Fresh(owner), trace, EndOf(links), |trace|);
    }
    if t in Walk(Fresh(owner), trace).threads {
      WalkJustified(trace, owner, |trace|);
      var links :| Witness(trace, owner, links, t, |trace|);
      if SkipFree(trace) {
        NoJumps(trace, owner, links, t);
      }
    }
  }

  // Verdicts ------------------------------------------------------------------------------------

  /** The test at the end of `apply_lockset_rules`; `tailTid` is the thread id in the
      still unused cell at the tail. */
  predicate Reports(ls: Lockset, tid: int, tailTid: int) {
    !(ls.addrs == {} && ls.threads == {}) && tid !in ls.threads && tailTid !in ls.skip && tailTid !in ls.skipped
  }

  /** The lockset as the same function leaves it. */
  function AfterCheck(ls: Lockset, tailTid: int): Lockset {
    ls.(addrs := {}, threads := {tailTid}, skipped := {})
  }

  lemma {:induction false} NoSkipState(trace: seq<SyncEvent>, owner: int)
    requires SkipFree(trace)
    ensures Walk(Fresh(owner), trace).skip == {} && Walk(Fresh(owner), trace).skipped == {}
  {
    var ls := Walk(Fresh(owner), trace);
    assert trace[..|trace|] == trace;
    forall t ensures t !in ls.skip && t !in ls.skipped {
      SkipSetsAreMarked(trace, owner, t, |trace|);
    }
  }

  /** With skip markers, the first check reports a race iff no chain, jumps included, orders
      the accesses, and the thread named in the tail cell has no marker. */
  lemma {:induction false} FirstVerdictWithSkips(trace: seq<SyncEvent>, owner: int, tid: int, tailTid: int)
    ensures Reports(Walk(Fresh(owner), trace), tid, tailTid)
            <==> !MayReach(trace, owner, tid) && !Marked(trace, tailTid, |trace|)
  {
    assert trace[..|trace|] == trace;
    SkipSetsAreMarked(trace, owner, tailTid, |trace|);
    WalkIsHappensBefore(trace, owner, tid);
    WalkIsHappensBefore(trace, owner, owner);
    assert IsChain(trace, owner, [], owner);
  }

  /** The first check of a record is exact: a race is reported iff the accesses are not
      ordered by happens-before. */
  lemma {:induction false} FirstVerdictIsExact(trace: seq<SyncEvent>, owner: int, tid: int, tailTid: int)
    requires SkipFree(trace)
    ensures Reports(Walk(Fresh(owner), trace), tid, tailTid) <==> !Reaches(trace, owner, tid)
  {
    NoSkipState(trace, owner);
    WalkIsHappensBefore(trace, owner, tid);
    WalkIsHappensBefore(trace, owner, owner);
    assert IsChain(trace, owner, [], owner);
  }

  /** A later check starts from the lockset the first one left behind, that of the thread
      id in the tail cell, so its verdict is about that thread and not about the owner. */
  lemma {:induction false} LaterVerdict(before: seq<SyncEvent>, trace: seq<SyncEvent>, owner: int, tid: int, tailTid: int)
    requires SkipFree(before) && SkipFree(trace)
    ensures AfterCheck(Walk(Fresh(owner), before), tailTid) == Fresh(tailTid)
    ensures Reports(Walk(AfterCheck(Walk(Fresh(owner), before), tailTid), trace), tid, tailTid) <==> !Reaches(trace, tailTid, tid)
  {
    NoSkipState(before, owner);
    FirstVerdictIsExact(trace, tailTid, tid, tailTid);
  }

  /** The verdict about an access of `tid` is the one happens-before gives. */
  ghost predicate Right(ls: Lockset, owner: int, trace: seq<SyncEvent>, tid: int, tailTid: int) {
    Reports(Walk(ls, trace), tid, tailTid) <==> !Reaches(trace, owner, tid)
  }

  /** The next check of a record is right whatever was synchronised and whoever else accesses. */
  ghost predicate Exact(ls: Lockset, owner: int, tailTid: int) {
    forall trace, tid :: SkipFree(trace) && tid != owner ==> Right(ls, owner, trace, tid, tailTid)
  }

  lemma {:induction false} NoHops(trace: seq<SyncEvent>, owner: int, t: int)
    requires |trace| <= 1 && (trace == [] || trace[0].act.Lock?) && t != owner
    ensures !Reaches(trace, owner, t)
  {
  }

  /** The exact condition: a check is right about every trace and thread if and only if it
      starts from the lockset of a fresh record of the owner. */
  lemma {:induction false} ExactIffFresh(ls: Lockset, owner: int, tailTid: int)
    ensures Exact(ls, owner, tailTid) <==> ls == Fresh(owner)
  {
    if ls == Fresh(owner) {
      forall trace, tid | SkipFree(trace) ensures Right(ls, owner, trace, tid, tailTid) {
        FirstVerdictIsExact(trace, owner, tid, tailTid);
      }
    }
    if Exact(ls, owner, tailTid) {
      forall t | t != owner ensures t !in ls.threads && !(ls.addrs == {} && ls.threads == {}) {
        NoHops([], owner, t);
        assert Right(ls, owner, [], t, tailTid);
      }
      var other := owner + 1;
      assert other !in ls.threads;
      forall a ensures a !in ls.addrs && ls.skip == {} && ls.skipped == {} {
        var trace := [SyncEvent(other, Lock(a))];
        NoHops(trace, owner, other);
        assert Right(ls, owner, trace, other, tailTid);
        WalkStep(ls, trace, 0);
        assert trace[..0] == [] && trace[..1] == trace;
      }
      assert ls.addrs == {} && ls.threads == {owner};
    }
  }

  /** So once a record was checked, the next check is right only if its owner is the thread
      named in the unused tail cell. */
  lemma {:induction false} CheckedIsExactIff(ls: Lockset, owner: int, tailTid: int)
    ensures Exact(AfterCheck(ls, tailTid), owner, tailTid) <==> tailTid == owner && ls.skip == {}
  {
    ExactIffFresh(AfterCheck(ls, tailTid), owner, tailTid);
    assert tailTid in AfterCheck(ls, tailTid).threads;
  }

  /** A lock after a skipped stretch counts as ordered, whoever takes it: thread 1 writes,
      thread 2 starts and ends skipping, thread 3 locks something and reads. */
  lemma {:induction false} SkippedStretchIsForgiven()
    ensures var trace := [SyncEvent(2, SkipStart), SyncEvent(2, SkipEnd), SyncEvent(3, Lock(7))];
            !Reports(Walk(Fresh(1), trace), 3, 0) && Reports(Walk(Fresh(1), trace[..2]), 3, 0)
  {
    var trace := [SyncEvent(2, SkipStart), SyncEvent(2, SkipEnd), SyncEvent(3, Lock(7))];
    assert trace[..0] == [] && trace[..3] == trace;
    WalkStep(Fresh(1), trace, 0);
    WalkStep(Fresh(1), trace, 1);
    WalkStep(Fresh(1), trace, 2);
  }

  /** So two reads of a properly handed-over location get different verdicts: thread 1
      writes and forks thread 2, which reads twice; only the second read is reported. */
  lemma {:induction false} SecondReadMisjudged()
    ensures var trace := [SyncEvent(1, Fork(2))];
            Reaches(trace, 1, 2)
            && !Reports(Walk(Fresh(1), trace), 2, 0)
            && Reports(Walk(AfterCheck(Walk(Fresh(1), trace), 0), trace), 2, 0)
  {
    var trace := [SyncEvent(1, Fork(2))];
    assert trace[..0] == [];
    WalkStep(Fresh(1), trace, 0);
    WalkStep(Fresh(0), trace, 0);
    assert trace[..1] == trace;
    LaterVerdict(trace, trace, 1, 2, 0);
    FirstVerdictIsExact(trace, 1, 2, 0);
  }
}
