/** The two tables the rule compiler fills while it walks the rules: how many events to peek
    from each buffer, and how many events a rule removes when it fires. */
module RuleTables {
  import opened RuleCompiler

  function AllPatterns(rules: seq<Match>): seq<Pattern> {
    if rules == [] then [] else Patterns(rules[0]) + AllPatterns(rules[1..])
  }

  lemma {:induction false} RulePatterns(rules: seq<Match>, i: nat, p: Pattern)
    requires i < |rules| && p in Patterns(rules[i])
    ensures p in AllPatterns(rules)
  {
    if i > 0 {
      assert rules[1..][i - 1] == rules[i];
      RulePatterns(rules[1..], i - 1, p);
    }
  }

  // Peek sizes ------------------------------------------------------------------------------------

  type Table = map<string, nat>

  /** `now` is `was` raised to the largest need of each existing buffer, and no further. */
  ghost predicate Raised(was: Table, now: Table, ps: seq<Pattern>, existing: set<string>) {
    && (forall s :: s in was ==> s in now && was[s] <= now[s])
    && (forall p :: p in ps && p.src in existing ==> p.src in now && p.Need() <= now[p.src])
    && forall s :: s in now ==> Attained(was, s, now[s], ps, existing)
  }

  ghost predicate Attained(was: Table, s: string, n: nat, ps: seq<Pattern>, existing: set<string>) {
    || (s in was && was[s] == n)
    || (s in existing && exists p :: p in ps && p.src == s && p.Need() == n)
  }

  lemma RaisedTwice(was: Table, mid: Table, now: Table, ps: seq<Pattern>, qs: seq<Pattern>, existing: set<string>)
    requires Raised(was, mid, ps, existing) && Raised(mid, now, qs, existing)
    ensures Raised(was, now, ps + qs, existing)
  {
    forall s | s in now ensures Attained(was, s, now[s], ps + qs, existing) {
      assert Attained(mid, s, now[s], qs, existing);
      if s in mid && mid[s] == now[s] {
        assert Attained(was, s, now[s], ps, existing);
      }
    }
  }

  class PeekTable {
    const existing: set<string>  // the buffers of declared event sources
    var sizes: Table

    constructor (existing: set<string>)
      ensures this.existing == existing && sizes == map[]
    {
      this.existing := existing;
      sizes := map[];
    }

    /** `insert_in_result` */
    method Insert(p: Pattern)
      modifies this
      ensures Raised(old(sizes), sizes, [p], existing)
    {
      if p.src in existing {
        if p.src in sizes && p.Need() < sizes[p.src] {
          assert Attained(old(sizes), p.src, sizes[p.src], [p], existing);
        } else {
          sizes := sizes[p.src := p.Need()];
          assert p in [p];
        }
      }
    }

    /** `local_get_buffer_peeks` */
    method AddRule(m: Match)
      modifies this
      ensures Raised(old(sizes), sizes, Patterns(m), existing)
      decreases m
    {
      match m
      case Pair(base, tail) =>
        AddRule(base);
        ghost var mid := sizes;
        AddRule(tail);
        RaisedTwice(old(sizes), mid, sizes, Patterns(base), Patterns(tail), existing);
      case Call(body) => AddRule(body);
      case Nothing(src) => Insert(Empty(src));
      case AtLeast(src, n) => Insert(Count(src, n));
      case Events(src, before, after) => Insert(Kinds(src, before + after));
    }

    /** `get_buffers_and_peeks` */
    method AddRules(rules: seq<Match>)
      modifies this
      ensures Raised(old(sizes), sizes, AllPatterns(rules), existing)
      decreases |rules|
    {
      if rules != [] {
        AddRule(rules[0]);
        ghost var mid := sizes;
        AddRules(rules[1..]);
        RaisedTwice(old(sizes), mid, sizes, Patterns(rules[0]), AllPatterns(rules[1..]), existing);
      }
    }
  }

  // Automatic drops -----------------------------------------------------------------------------------

  datatype Bar = Bar(src: string, n: nat)

  /** The non-empty left sides of bars; those inside match functions only if `deep`. */
  function Bars(m: Match, deep: bool): seq<Bar> {
    match m
    case Pair(base, tail) => Bars(base, deep) + Bars(tail, deep)
    case Events(src, before, _) => if before == [] then [] else [Bar(src, |before|)]
    case Call(body) => if deep then Bars(body, deep) else []
    case _ => []
  }

  /** No two of them are on the same source, nor on one in the table. */
  ghost predicate Separate(was: Table, bars: seq<Bar>) {
    && (forall i, j :: 0 <= i < j < |bars| ==> bars[i].src != bars[j].src)
    && forall b :: b in bars ==> b.src !in was
  }

  ghost predicate Added(was: Table, now: Table, bars: seq<Bar>) {
    && (forall s :: s in was ==> s in now && now[s] == was[s])
    && (forall b :: b in bars ==> b.src in now && now[b.src] == b.n)
    && forall s :: s in now ==> s in was || exists b :: b in bars && b.src == s
  }

  lemma SeparateParts(was: Table, mid: Table, a: seq<Bar>, b: seq<Bar>)
    requires Separate(was, a) && Added(was, mid, a)
    ensures Separate(was, a + b) <==> Separate(mid, b)
  {
    var ab := a + b;
    if Separate(was, ab) {
      forall i, j | 0 <= i < j < |b| ensures b[i].src != b[j].src {
        assert ab[|a| + i] == b[i] && ab[|a| + j] == b[j];
      }
      forall y | y in b ensures y.src !in mid {
        var j :| 0 <= j < |b| && b[j] == y;
        forall x | x in a ensures x.src != y.src {
          var i :| 0 <= i < |a| && a[i] == x;
          assert ab[i] == x && ab[|a| + j] == y;
        }
        assert y in ab;
      }
    }
  }

  class DropTable {
    var counts: Table

    constructor ()
      ensures counts == map[]
    {
      counts := map[];
    }

    /** `get_count_drop_events_from_l_buff`; refuses a second bar on the same source. */
    method Count(m: Match) returns (ok: bool)
      modifies this
      ensures ok <==> Separate(old(counts), Bars(m, false))
      ensures ok ==> Added(old(counts), counts, Bars(m, false))
      decreases m
    {
      match m
      case Pair(base, tail) =>
        ghost var a, b := Bars(base, false), Bars(tail, false);
        ok := Count(base);
        if ok {
          SeparateParts(old(counts), counts, a, b);
          ok := Count(tail);
        } else {
          PartIsSeparate(old(counts), a, b);
        }
      case Events(src, before, _) =>
        assert before != [] ==> Bars(m, false)[0].src == src;
        ok := before == [] || src !in counts;
        if ok && before != [] {
          counts := counts[src := |before|];
        }
      case _ => ok := true;
    }
  }

  lemma PartIsSeparate(was: Table, a: seq<Bar>, b: seq<Bar>)
    ensures Separate(was, a + b) ==> Separate(was, a)
  {
    if Separate(was, a + b) {
      forall i, j | 0 <= i < j < |a| ensures a[i].src != a[j].src {
        assert (a + b)[i] == a[i] && (a + b)[j] == a[j];
      }
      assert forall x :: x in a ==> x in a + b;
    }
  }

  /** Every bar of the rule, in match functions too, has one outside them with the same
      source and as many events: then the table covers them all. */
  ghost predicate AllCounted(m: Match) {
    forall b :: b in Bars(m, true) ==> b in Bars(m, false)
  }
}
