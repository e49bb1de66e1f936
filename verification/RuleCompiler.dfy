/** Arbiter rules: from match expressions to nested guards over peeked buffers.

    A rule's match expression is compiled to one test per pattern.  The event kinds a test
    looks for are put in arrays that are declared left to right before the rule, while the
    tests are generated right to left and take their array by counting backwards. */
module RuleCompiler {

  type Kind = nat

  /** A match expression.  A match function stands for its expression, which the
      compiler visits in its place; `before` and `after` are the two sides of the bar. */
  datatype Match =
    | Pair(base: Match, tail: Match)
    | Events(src: string, before: seq<Kind>, after: seq<Kind>)
    | Nothing(src: string)
    | AtLeast(src: string, n: nat)
    | Call(body: Match)

  datatype Test =
    | InHead(src: string, arr: int, n: nat)   // are_events_in_head(..., TEMPARR<arr>, n)
    | IsEmpty(src: string)                    // count == 0
    | HasAtLeast(src: string, n: nat)         // check_at_least_n_events(count, n)

  datatype Code = Body | If(test: Test, inner: Code)

  // Generation ---------------------------------------------------------------------------------

  /** `rule_set_streams_condition` in scan mode: the kinds of each event pattern. */
  function Scan(m: Match): seq<seq<Kind>> {
    match m
    case Pair(base, tail) => Scan(base) + Scan(tail)
    case Events(_, before, after) => [before + after]
    case Call(body) => Scan(body)
    case _ => []
  }

  /** The guards, and the counter when they are done; the specification of
      `rule_set_streams_condition` in code mode. */
  function Guards(m: Match, inner: Code, calls: int): (Code, int) {
    match m
    case Pair(base, tail) =>
      var (code, c) := Guards(tail, inner, calls);
      Guards(base, code, c)
    case Events(src, before, after) => (If(InHead(src, calls - 1, |before + after|), inner), calls - 1)
    case Nothing(src) => (If(IsEmpty(src), inner), calls)
    case AtLeast(src, n) => (If(HasAtLeast(src, n), inner), calls)
    case Call(body) => Guards(body, inner, calls)
  }

  /** The arrays in scope, by their number. */
  type Arrays = map<int, seq<Kind>>

  /** Among the arrays are these, numbered from `first` on. */
  ghost predicate Holding(arrays: Arrays, first: int, kinds: seq<seq<Kind>>) {
    forall i :: first <= i < first + |kinds| ==> i in arrays && arrays[i] == kinds[i - first]
  }

  /** They are all the arrays there are. */
  ghost predicate Numbered(arrays: Arrays, first: int, kinds: seq<seq<Kind>>) {
    Holding(arrays, first, kinds) && forall i :: i in arrays ==> first <= i < first + |kinds|
  }

  /** `StaticCounter` and the generators that count with it. */
  class Generator {
    var declarations: int
    var calls: int

    constructor ()
      ensures declarations == 0 && calls == 0
    {
      declarations, calls := 0, 0;
    }

    /** `declare_arrays` */
    method DeclareArrays(kinds: seq<seq<Kind>>) returns (arrays: Arrays)
      modifies this
      ensures Numbered(arrays, old(declarations), kinds)
      ensures declarations == calls == old(declarations) + |kinds|
    {
      arrays := map[];
      for i := 0 to |kinds|
        invariant declarations == old(declarations) + i
        invariant Numbered(arrays, old(declarations), kinds[..i])
      {
        arrays := arrays[declarations := kinds[i]];
        declarations := declarations + 1;
      }
      assert kinds[..|kinds|] == kinds;
      calls := declarations;
    }

    /** `rule_set_streams_condition` in code mode.  The code performs the tests of the rule
        and then those of `inner`, provided the last arrays below the counter are those of
        the rule; the counter goes down by their number, ready for what comes before. */
    method Condition(m: Match, inner: Code) returns (code: Code)
      modifies this`calls
      ensures calls == old(calls) - |Scan(m)|
      ensures forall arrays, ps :: Resolves(inner, arrays, ps) && Holding(arrays, calls, Scan(m)) ==>
                Resolves(code, arrays, Patterns(m) + ps)
    {
      code := Generate(m, inner);
      forall arrays, ps | Resolves(inner, arrays, ps) && Holding(arrays, old(calls) - |Scan(m)|, Scan(m))
        ensures Resolves(code, arrays, Patterns(m) + ps)
      {
        TestsFindTheirKinds(m, inner, ps, arrays, old(calls) - |Scan(m)|);
      }
      CounterFalls(m, inner, old(calls));
    }

    /** The recursion, against `Guards`. */
    method Generate(m: Match, inner: Code) returns (code: Code)
      modifies this`calls
      ensures (code, calls) == Guards(m, inner, old(calls))
      decreases m
    {
      match m
      case Pair(base, tail) =>
        code := Generate(tail, inner);
        code := Generate(base, code);
      case Events(src, before, after) =>
        calls := calls - 1;
        code := If(InHead(src, calls, |before + after|), inner);
      case Nothing(src) => code := If(IsEmpty(src), inner);
      case AtLeast(src, n) => code := If(HasAtLeast(src, n), inner);
      case Call(body) => code := Generate(body, inner);
    }

    /** `arbiter_rule_code` for one rule: arrays first, then the guards around the body.
        Every test gets the array with its own kinds, whatever was generated before. */
    method RuleCode(m: Match) returns (arrays: Arrays, code: Code)
      modifies this
      ensures declarations == old(declarations) + |Scan(m)| && calls == old(declarations)
      ensures Numbered(arrays, old(declarations), Scan(m))
      ensures Resolves(code, arrays, Patterns(m))
    {
      arrays := DeclareArrays(Scan(m));
      code := Condition(m, Body);
      assert Resolves(Body, arrays, []);
      assert Patterns(m) + [] == Patterns(m);
    }

    /** `arbiter_rule_code` on a rule list.  No array is declared twice, and with the
        arrays of all rules in scope every test still finds its own. */
    method RuleListCode(rules: seq<Match>) returns (arrays: Arrays, codes: seq<Code>)
      modifies this
      ensures declarations == old(declarations) + |ScanAll(rules)|
      ensures Numbered(arrays, old(declarations), ScanAll(rules))
      ensures |codes| == |rules|
      ensures forall i :: 0 <= i < |rules| ==> Resolves(codes[i], arrays, Patterns(rules[i]))
      decreases |rules|
    {
      if rules == [] {
        return map[], [];
      }
      var head, code := RuleCode(rules[0]);
      var tail, codes' := RuleListCode(rules[1..]);
      arrays, codes := head + tail, [code] + codes';
      MoreArrays(code, head, arrays, Patterns(rules[0]));
      forall i | 0 <= i < |codes'| ensures Resolves(codes'[i], arrays, Patterns(rules[1..][i])) {
        MoreArrays(codes'[i], tail, arrays, Patterns(rules[1..][i]));
      }
    }
  }

  function ScanAll(rules: seq<Match>): seq<seq<Kind>> {
    if rules == [] then [] else Scan(rules[0]) + ScanAll(rules[1..])
  }

  // Which kinds each test is about ------------------------------------------------------------------

  /** A test with its kinds in place: what the rule says. */
  datatype Pattern = Kinds(src: string, kinds: seq<Kind>) | Empty(src: string) | Count(src: string, n: nat) {
    /** How many events decide the test. */
    function Need(): nat {
      match this
      case Kinds(_, kinds) => |kinds|
      case Empty(_) => 0
      case Count(_, n) => n
    }
  }

  /** The patterns of a rule, left to right. */
  function Patterns(m: Match): seq<Pattern> {
    match m
    case Pair(base, tail) => Patterns(base) + Patterns(tail)
    case Events(src, before, after) => [Kinds(src, before + after)]
    case Nothing(src) => [Empty(src)]
    case AtLeast(src, n) => [Count(src, n)]
    case Call(body) => Patterns(body)
  }

  /** The code performs these tests in this order, each finding its kinds in the arrays. */
  ghost predicate Resolves(code: Code, arrays: Arrays, ps: seq<Pattern>) {
    match code
    case Body => ps == []
    case If(test, inner) => ps != [] && Tests(test, arrays, ps[0]) && Resolves(inner, arrays, ps[1..])
  }

  ghost predicate Tests(test: Test, arrays: Arrays, p: Pattern) {
    match test
    case InHead(src, arr, n) => arr in arrays && p == Kinds(src, arrays[arr]) && n == |arrays[arr]|
    case IsEmpty(src) => p == Empty(src)
    case HasAtLeast(src, n) => p == Count(src, n)
  }

  /** The scan goes left to right and the counter right to left; they meet. */
  lemma {:induction false} TestsFindTheirKinds(m: Match, inner: Code, ps: seq<Pattern>, arrays: Arrays, first: int)
    requires Resolves(inner, arrays, ps)
    requires Holding(arrays, first, Scan(m))
    ensures Guards(m, inner, first + |Scan(m)|).1 == first
    ensures Resolves(Guards(m, inner, first + |Scan(m)|).0, arrays, Patterns(m) + ps)
    decreases m
  {
    match m
    case Pair(base, tail) =>
      var mid := first + |Scan(base)|;
      HoldingParts(arrays, first, Scan(base), Scan(tail));
      TestsFindTheirKinds(tail, inner, ps, arrays, mid);
      var code := Guards(tail, inner, mid + |Scan(tail)|).0;
      TestsFindTheirKinds(base, code, Patterns(tail) + ps, arrays, first);
      assert Patterns(base) + (Patterns(tail) + ps) == Patterns(m) + ps;
    case Call(body) => TestsFindTheirKinds(body, inner, ps, arrays, first);
    case _ => OneTest(m, inner, ps, arrays, first);
  }

  lemma {:induction false} CounterFalls(m: Match, inner: Code, calls: int)
    ensures Guards(m, inner, calls).1 == calls - |Scan(m)|
    decreases m
  {
    match m
    case Pair(base, tail) =>
      CounterFalls(tail, inner, calls);
      CounterFalls(base, Guards(tail, inner, calls).0, calls - |Scan(tail)|);
    case Call(body) => CounterFalls(body, inner, calls);
    case _ =>
  }

  lemma HoldingParts(arrays: Arrays, first: int, a: seq<seq<Kind>>, b: seq<seq<Kind>>)
    requires Holding(arrays, first, a + b)
    ensures Holding(arrays, first, a) && Holding(arrays, first + |a|, b)
  {}

  lemma OneTest(m: Match, inner: Code, ps: seq<Pattern>, arrays: Arrays, first: int)
    requires Resolves(inner, arrays, ps) && Holding(arrays, first, Scan(m)) && !m.Pair? && !m.Call?
    ensures Guards(m, inner, first + |Scan(m)|).1 == first
    ensures Resolves(Guards(m, inner, first + |Scan(m)|).0, arrays, Patterns(m) + ps)
  {
    assert (Patterns(m) + ps)[1..] == ps;
  }

  /** Declaring more arrays disturbs no test. */
  lemma {:induction false} MoreArrays(code: Code, arrays: Arrays, more: Arrays, ps: seq<Pattern>)
    requires Resolves(code, arrays, ps)
    requires forall i :: i in arrays ==> i in more && more[i] == arrays[i]
    ensures Resolves(code, more, ps)
    decreases code
  {
    if code.If? {
      MoreArrays(code.inner, arrays, more, ps[1..]);
    }
  }
}
