/** The meaning of compiled rules: the guards reach the body exactly when the match expression
    holds of the buffers, although they see only what was peeked. */
module RuleMatching {
  import opened RuleCompiler
  import opened RuleTables
  import opened ParQueue
  import opened ArbiterQueue
  import opened Words

  type Contents = map<string, seq<Kind>>

  /** What the rule says, over the events in the buffers. */
  predicate Holds(m: Match, c: Contents) {
    match m
    case Pair(base, tail) => Holds(base, c) && Holds(tail, c)
    case Events(src, before, after) => src in c && before + after <= c[src]
    case Nothing(src) => src in c && c[src] == []
    case AtLeast(src, n) => src in c && |c[src]| >= n
    case Call(body) => Holds(body, c)
  }

  predicate Matches(p: Pattern, c: seq<Kind>) {
    match p
    case Kinds(_, kinds) => kinds <= c
    case Empty(_) => c == []
    case Count(_, n) => |c| >= n
  }

  lemma {:induction false} HoldsByPattern(m: Match, c: Contents)
    ensures Holds(m, c) <==> forall p :: p in Patterns(m) ==> p.src in c && Matches(p, c[p.src])
    decreases m
  {
    match m
    case Pair(base, tail) =>
      HoldsByPattern(base, c);
      HoldsByPattern(tail, c);
      assert forall p :: p in Patterns(base) ==> p in Patterns(m);
      assert forall p :: p in Patterns(tail) ==> p in Patterns(m);
    case Call(body) => HoldsByPattern(body, c);
    case _ => assert Patterns(m)[0] in Patterns(m);
  }

  // Peeking -----------------------------------------------------------------------------------------

  /** `count_x`, `e1_x`/`i1_x` and `e2_x`/`i2_x` of a peeked buffer x. */
  datatype View = View(count: nat, seg1: seq<Kind>, seg2: seq<Kind>)

  /** What peeking `size` events can yield from a buffer with these events.  The count comes from
      a view that may be stale if it is long enough, and the segments hold `size` events at most. */
  ghost predicate Peeked(v: View, size: nat, c: seq<Kind>) {
    && v.count <= |c|
    && (size == 0 || v.count < size ==> v.count == |c|)
    && (v.count > 0 ==> v.seg1 + v.seg2 == c[..if size == 0 || v.count < size then v.count else size])
  }

  /** The peeks at the start of a rule set, generated by `buffer_peeks`. */
  method Look(queue: Queue<Kind>, size: nat) returns (v: View)
    requires queue.Valid() && size <= SIZE_MAX
    modifies queue`seenHead, queue`q
    ensures queue.Valid() && queue.Contents() == old(queue.Contents())
    ensures Peeked(v, size, queue.Contents())
  {
    var count, p := queue.Peek(size);
    v := View(count, [], []);
    if count > 0 {
      v := View(count, queue.data[p.off..p.off + p.len1], queue.data[..p.len2]);
    }
  }

  /** The kinds that `are_events_in_head` compares all agree. */
  predicate HeadMatches(v: View, kinds: seq<Kind>) {
    && v.count >= |kinds|
    && forall i :: 0 <= i < |kinds| && i < |v.seg1 + v.seg2| ==> (v.seg1 + v.seg2)[i] == kinds[i]
  }

  /** `are_events_in_head` */
  method AreEventsInHead(v: View, kinds: seq<Kind>) returns (b: bool)
    requires kinds != []
    ensures b <==> HeadMatches(v, kinds)
  {
    if v.count < |kinds| {
      return false;
    }
    ghost var peeked := v.seg1 + v.seg2;
    var left, i := |kinds|, 0;
    while i < |v.seg1|
      invariant 0 <= i <= |v.seg1| && left == |kinds| - i > 0
      invariant forall k :: 0 <= k < i ==> peeked[k] == kinds[k]
    {
      if v.seg1[i] != kinds[i] {
        assert peeked[i] != kinds[i];
        return false;
      }
      left := left - 1;
      if left == 0 {
        return true;
      }
      i := i + 1;
    }
    i := 0;
    while i < |v.seg2|
      invariant 0 <= i <= |v.seg2| && left == |kinds| - |v.seg1| - i > 0
      invariant forall k :: 0 <= k < |v.seg1| + i ==> peeked[k] == kinds[k]
    {
      if v.seg2[i] != kinds[|v.seg1| + i] {
        assert peeked[|v.seg1| + i] != kinds[|v.seg1| + i];
        return false;
      }
      left := left - 1;
      if left == 0 {
        return true;
      }
      i := i + 1;
    }
    return true;
  }

  /** The test generated for a pattern. */
  predicate Passes(p: Pattern, v: View) {
    match p
    case Kinds(_, kinds) => HeadMatches(v, kinds)
    case Empty(_) => v.count == 0
    case Count(_, n) => v.count >= n
  }

  lemma EnoughPeeked(p: Pattern, size: nat, v: View, c: seq<Kind>)
    requires Peeked(v, size, c) && (size == 0 || p.Need() <= size)
    requires p.Kinds? ==> p.kinds != []
    ensures Passes(p, v) <==> Matches(p, c)
  {
    if p.Kinds? && v.count >= |p.kinds| {
      var n := |p.kinds|;
      var peeked := v.seg1 + v.seg2;
      assert forall i :: 0 <= i < n ==> peeked[i] == c[i];
      if HeadMatches(v, p.kinds) {
        assert p.kinds == c[..n];
      }
    }
  }

  /** Peeking as many events as the pattern needs is exactly what makes its test right. */
  lemma PeekSizeIsExact(p: Pattern, size: nat)
    requires p.Kinds? ==> p.kinds != []
    ensures (forall v, c :: Peeked(v, size, c) ==> (Passes(p, v) <==> Matches(p, c)))
            <==> size == 0 || p.Need() <= size
  {
    if size == 0 || p.Need() <= size {
      forall v, c | Peeked(v, size, c) ensures Passes(p, v) <==> Matches(p, c) {
        EnoughPeeked(p, size, v, c);
      }
    } else if p.Kinds? {
      var c := p.kinds[size := p.kinds[size] + 1];
      assert c[..size] == p.kinds[..size];
      var v := View(|c|, c[..size], []);
      assert v.seg1 + v.seg2 == c[..size];
      assert Peeked(v, size, c) && Passes(p, v);
      assert c[size] != p.kinds[size];
    } else {
      var c := seq(p.n, _ => 0);
      var v := View(size, c[..size], []);
      assert v.seg1 + v.seg2 == c[..size];
      assert Peeked(v, size, c) && !Passes(p, v);
    }
  }

  // Running the guards ----------------------------------------------------------------------------

  /** Whether the generated code reaches the body of the rule. */
  predicate Run(code: Code, arrays: Arrays, views: map<string, View>) {
    match code
    case Body => true
    case If(InHead(src, arr, n), inner) =>
      src in views && arr in arrays && n <= |arrays[arr]|
      && HeadMatches(views[src], arrays[arr][..n]) && Run(inner, arrays, views)
    case If(IsEmpty(src), inner) => src in views && views[src].count == 0 && Run(inner, arrays, views)
    case If(HasAtLeast(src, n), inner) => src in views && views[src].count >= n && Run(inner, arrays, views)
  }

  lemma {:induction false} RunPerforms(code: Code, arrays: Arrays, ps: seq<Pattern>, views: map<string, View>)
    requires Resolves(code, arrays, ps)
    ensures Run(code, arrays, views) <==> forall p :: p in ps ==> p.src in views && Passes(p, views[p.src])
    decreases code
  {
    if code.If? {
      RunPerforms(code.inner, arrays, ps[1..], views);
      assert ps == [ps[0]] + ps[1..];
      assert ps[0].Kinds? ==> ps[0].kinds[..|ps[0].kinds|] == ps[0].kinds;
    }
  }

  /** The buffers were peeked with these sizes, each at some moment when it had these contents. */
  ghost predicate AllPeeked(views: map<string, View>, sizes: Table, c: Contents) {
    && views.Keys == sizes.Keys == c.Keys
    && forall s :: s in sizes ==> Peeked(views[s], sizes[s], c[s])
  }

  predicate Wellformed(m: Match) {
    forall p :: p in Patterns(m) && p.Kinds? ==> p.kinds != []
  }

  predicate Static(m: Match, existing: set<string>) {
    forall p :: p in Patterns(m) ==> p.src in existing
  }

  /** The compiled guards decide the rule. */
  lemma GuardsDecideRule(m: Match, code: Code, arrays: Arrays, sizes: Table, views: map<string, View>, c: Contents)
    requires Wellformed(m) && Resolves(code, arrays, Patterns(m)) && AllPeeked(views, sizes, c)
    requires forall p :: p in Patterns(m) ==> p.src in sizes && p.Need() <= sizes[p.src]
    ensures Run(code, arrays, views) <==> Holds(m, c)
  {
    RunPerforms(code, arrays, Patterns(m), views);
    HoldsByPattern(m, c);
    forall p | p in Patterns(m) ensures Passes(p, views[p.src]) <==> Matches(p, c[p.src]) {
      EnoughPeeked(p, sizes[p.src], views[p.src], c[p.src]);
    }
  }

  /** A whole rule set on static buffers: peeks, arrays and guards.  Whatever is peeked,
      each rule's body is reached if and only if its match expression holds. */
  method RuleSet(gen: Generator, rules: seq<Match>, existing: set<string>)
    returns (sizes: Table, arrays: Arrays, codes: seq<Code>)
    requires forall m :: m in rules ==> Wellformed(m) && Static(m, existing)
    modifies gen
    ensures |codes| == |rules|
    ensures forall views, c, i :: AllPeeked(views, sizes, c) && 0 <= i < |rules| ==>
              (Run(codes[i], arrays, views) <==> Holds(rules[i], c))
  {
    var table := new PeekTable(existing);
    table.AddRules(rules);
    sizes := table.sizes;
    arrays, codes := gen.RuleListCode(rules);
    forall views, c, i | AllPeeked(views, sizes, c) && 0 <= i < |rules|
      ensures Run(codes[i], arrays, views) <==> Holds(rules[i], c)
    {
      assert Static(rules[i], existing) by {
        assert rules[i] in rules;
      }
      forall p | p in Patterns(rules[i]) ensures p.src in sizes && p.Need() <= sizes[p.src] {
        RulePatterns(rules, i, p);
      }
      GuardsDecideRule(rules[i], codes[i], arrays, sizes, views, c);
    }
  }

  // Firing ----------------------------------------------------------------------------------------

  /** The buffers after the drops at the end of the rule's body. */
  function AfterDrops(c: Contents, counts: Table): Contents {
    map s | s in c :: if s in counts then c[s][Removed(counts[s], |c[s]|)..] else c[s]
  }

  /** Left of each bar is gone, right of it is still there; for bars in match functions only
      if `deep`. */
  ghost predicate Dropped(m: Match, c: Contents, rest: Contents, deep: bool) {
    match m
    case Pair(base, tail) => Dropped(base, c, rest, deep) && Dropped(tail, c, rest, deep)
    case Events(src, before, after) =>
      before != [] ==> src in c && src in rest && c[src] == before + rest[src] && after <= rest[src]
    case Call(body) => deep ==> Dropped(body, c, rest, deep)
    case _ => true
  }

  /** Contents that satisfied the rule when they were peeked, and all that arrived since. */
  ghost predicate Fires(m: Match, c: Contents, now: Contents) {
    Holds(m, c) && now.Keys == c.Keys && forall s :: s in c ==> c[s] <= now[s]
  }

  /** Firing removes exactly the events before the bars outside match functions, whatever has
      arrived since the peek, and nothing from any other buffer.  So it removes the events
      before every bar if and only if each bar in a match function is counted outside too. */
  lemma DropsWhatIsBeforeBars(m: Match, c: Contents, now: Contents, counts: Table)
    requires Fires(m, c, now) && Added(map[], counts, Bars(m, false))
    ensures Dropped(m, now, AfterDrops(now, counts), false)
    ensures forall s :: s in now && (forall b :: b in Bars(m, false) ==> b.src != s) ==> AfterDrops(now, counts)[s] == now[s]
    ensures Dropped(m, now, AfterDrops(now, counts), true) <==> AllCounted(m)
  {
    EachBarDrops(m, c, now, counts, false);
    if AllCounted(m) {
      EachBarDrops(m, c, now, counts, true);
    }
    if Dropped(m, now, AfterDrops(now, counts), true) {
      forall b | b in Bars(m, true) ensures b in Bars(m, false) {
        DroppedIsCounted(m, now, counts, b);
        var b' :| b' in Bars(m, false) && b'.src == b.src;
        BarHolds(m, c, false, b');
        BarHolds(m, c, true, b);
      }
    }
  }

  lemma {:induction false} EachBarDrops(m: Match, c: Contents, now: Contents, counts: Table, deep: bool)
    requires Fires(m, c, now)
    requires forall b :: b in Bars(m, deep) ==> b.src in counts && counts[b.src] == b.n
    ensures Dropped(m, now, AfterDrops(now, counts), deep)
    decreases m
  {
    match m
    case Pair(base, tail) =>
      EachBarDrops(base, c, now, counts, deep);
      EachBarDrops(tail, c, now, counts, deep);
    case Events(src, before, after) =>
      if before != [] {
        assert Bar(src, |before|) in Bars(m, deep);
        var all := now[src];
        assert before + after <= all;
        assert all[..|before|] == before;
        assert after == all[|before|..|before| + |after|];
      }
    case Call(body) =>
      if deep {
        EachBarDrops(body, c, now, counts, deep);
      }
    case _ =>
  }

  /** The events of a bar are in its buffer. */
  lemma {:induction false} BarHolds(m: Match, c: Contents, deep: bool, b: Bar)
    requires Holds(m, c) && b in Bars(m, deep)
    ensures b.src in c && 0 < b.n <= |c[b.src]|
    decreases m
  {
    match m
    case Pair(base, tail) =>
      if b in Bars(base, deep) {
        BarHolds(base, c, deep, b);
      } else {
        BarHolds(tail, c, deep, b);
      }
    case Call(body) => BarHolds(body, c, deep, b);
    case _ =>
  }

  /** Only a counted number of events can go. */
  lemma {:induction false} DroppedIsCounted(m: Match, now: Contents, counts: Table, b: Bar)
    requires Dropped(m, now, AfterDrops(now, counts), true) && b in Bars(m, true)
    ensures b.src in counts && b.src in now && Removed(counts[b.src], |now[b.src]|) == b.n
    decreases m
  {
    match m
    case Pair(base, tail) =>
      if b in Bars(base, true) {
        DroppedIsCounted(base, now, counts, b);
      } else {
        DroppedIsCounted(tail, now, counts, b);
      }
    case Call(body) => DroppedIsCounted(body, now, counts, b);
    case Events(src, before, after) =>
      assert |now[src]| == |before| + |AfterDrops(now, counts)[src]|;
    case _ =>
  }

  /** A match function's bar is not counted: the events it matched stay in the buffer. */
  lemma MatchFunctionKeepsEvents(src: string, k: Kind)
    ensures var m := Call(Events(src, [k], []));
            var c := map[src := [k]];
            Fires(m, c, c) && Added(map[], map[], Bars(m, false))
            && AfterDrops(c, map[])[src] == [k] && !Dropped(m, c, AfterDrops(c, map[]), true)
  {
    assert Bars(Events(src, [k], []), true) == [Bar(src, 1)];
  }
}
