/** Pure facts about the order of a buffer group: what `bg_update` and `bg_insert` do to
    the sequence of keys.

    `order(a, b)` is the generated order expression: true when a belongs after b. */
module StableOrder {

  predicate Late(order: (int, int) -> bool, a: int, b: int) {
    order(a, b)
  }

  ghost predicate Asymmetric(order: (int, int) -> bool) {
    forall a, b :: Late(order, a, b) ==> !Late(order, b, a)
  }

  ghost predicate NegativelyTransitive(order: (int, int) -> bool) {
    forall a, b, c {:trigger Late(order, a, b), Late(order, b, c)} :: !Late(order, a, b) && !Late(order, b, c) ==> !Late(order, a, c)
  }

  /** No neighbours are in the wrong order. */
  ghost predicate NeighboursSorted(order: (int, int) -> bool, k: seq<int>) {
    forall i :: 0 <= i < |k| - 1 ==> !Late(order, k[i], k[i + 1])
  }

  /** No two elements are in the wrong order. */
  ghost predicate Sorted(order: (int, int) -> bool, k: seq<int>) {
    forall i, j :: 0 <= i < j < |k| ==> !Late(order, k[i], k[j])
  }

  lemma {:induction false} NeighboursSuffice(order: (int, int) -> bool, k: seq<int>)
    requires NegativelyTransitive(order) && NeighboursSorted(order, k)
    ensures Sorted(order, k)
  {
    forall i, j | 0 <= i < j < |k| ensures !Late(order, k[i], k[j]) {
      FarSorted(order, k, i, j);
    }
  }

  lemma {:induction false} FarSorted(order: (int, int) -> bool, k: seq<int>, i: nat, j: nat)
    requires NegativelyTransitive(order) && NeighboursSorted(order, k) && i < j < |k|
    ensures !Late(order, k[i], k[j])
    decreases j
  {
    if i + 1 < j {
      FarSorted(order, k, i, j - 1);
      assert !Late(order, k[j - 1], k[j - 1 + 1]);
    }
  }

  // Inversions --------------------------------------------------------------------------------

  /** How many elements of s belong before x. */
  ghost function CountBelow(order: (int, int) -> bool, x: int, s: seq<int>): nat {
    if s == [] then 0 else (if Late(order, x, s[0]) then 1 else 0) + CountBelow(order, x, s[1..])
  }

  ghost function Inversions(order: (int, int) -> bool, k: seq<int>): nat {
    if k == [] then 0 else CountBelow(order, k[0], k[1..]) + Inversions(order, k[1..])
  }

  function Swap<T>(s: seq<T>, p: nat): (r: seq<T>)
    requires p + 1 < |s|
    ensures |r| == |s|
  {
    s[p := s[p + 1]][p + 1 := s[p]]
  }

  lemma {:induction false} CountBelowSwap(order: (int, int) -> bool, x: int, s: seq<int>, p: nat)
    requires p + 1 < |s|
    ensures CountBelow(order, x, Swap(s, p)) == CountBelow(order, x, s)
  {
    var r := Swap(s, p);
    if p == 0 {
      assert r[1..][1..] == s[1..][1..];
      assert r[1..][0] == s[0] && s[1..][0] == r[0];
    } else {
      assert r[1..] == Swap(s[1..], p - 1);
      CountBelowSwap(order, x, s[1..], p - 1);
    }
  }

  /** Each exchange removes exactly one inversion. */
  lemma {:induction false} SwapLowersInversions(order: (int, int) -> bool, k: seq<int>, p: nat)
    requires p + 1 < |k| && Late(order, k[p], k[p + 1]) && !Late(order, k[p + 1], k[p])
    ensures Inversions(order, k) == Inversions(order, Swap(k, p)) + 1
  {
    var r := Swap(k, p);
    if p == 0 {
      assert r[1..][1..] == k[1..][1..];
      assert r[1..][0] == k[0] && k[1..][0] == r[0];
    } else {
      assert r[1..] == Swap(k[1..], p - 1);
      SwapLowersInversions(order, k[1..], p - 1);
      CountBelowSwap(order, k[0], k[1..], p - 1);
    }
  }

  // Permutations that are stable ------------------------------------------------------------------

  ghost predicate IsPerm(perm: seq<nat>, n: nat) {
    |perm| == n && (forall i :: 0 <= i < n ==> perm[i] < n) && forall i, j :: 0 <= i < j < n ==> perm[i] != perm[j]
  }

  /** Whoever overtook someone had the right to. */
  ghost predicate OvertakesFairly(order: (int, int) -> bool, keys: seq<int>, perm: seq<nat>)
    requires IsPerm(perm, |keys|)
  {
    forall i, j :: 0 <= i < j < |perm| ==> perm[i] < perm[j] || Late(order, keys[perm[j]], keys[perm[i]])
  }

  ghost function Arranged<T>(s: seq<T>, perm: seq<nat>): (r: seq<T>)
    requires IsPerm(perm, |s|)
    ensures |r| == |s| && forall i :: 0 <= i < |s| ==> r[i] == s[perm[i]]
  {
    seq(|s|, i requires 0 <= i < |s| => s[perm[i]])
  }

  lemma {:induction false} SwapKeepsFairness(order: (int, int) -> bool, keys: seq<int>, perm: seq<nat>, p: nat)
    requires IsPerm(perm, |keys|) && OvertakesFairly(order, keys, perm)
    requires p + 1 < |perm| && Late(order, keys[perm[p]], keys[perm[p + 1]])
    ensures IsPerm(Swap(perm, p), |keys|) && OvertakesFairly(order, keys, Swap(perm, p))
  {
    var r := Swap(perm, p);
    assert IsPerm(r, |keys|);
    forall i, j | 0 <= i < j < |r| ensures r[i] < r[j] || Late(order, keys[r[j]], keys[r[i]]) {
      var i' := if i == p then p + 1 else if i == p + 1 then p else i;
      var j' := if j == p then p + 1 else if j == p + 1 then p else j;
      assert r[i] == perm[i'] && r[j] == perm[j'];
    }
  }

  /** A fair arrangement so far; `Disorder` is what is left to do. */
  ghost predicate Fair(order: (int, int) -> bool, keys: seq<int>, perm: seq<nat>) {
    IsPerm(perm, |keys|) && OvertakesFairly(order, keys, perm)
  }

  ghost function Disorder(order: (int, int) -> bool, keys: seq<int>, perm: seq<nat>): nat
    requires IsPerm(perm, |keys|)
  {
    Inversions(order, Arranged(keys, perm))
  }

  /** The first p neighbours of an arrangement are in order. */
  ghost predicate SortedUpTo(order: (int, int) -> bool, keys: seq<int>, perm: seq<nat>, p: nat) {
    IsPerm(perm, |keys|) && NeighboursSorted(order, Arranged(keys, perm)[..if p < |perm| then p + 1 else |perm|])
  }

  lemma SortedUpToNext(order: (int, int) -> bool, keys: seq<int>, perm: seq<nat>, p: nat)
    requires SortedUpTo(order, keys, perm, p) && p + 1 < |perm| && !Late(order, keys[perm[p]], keys[perm[p + 1]])
    ensures SortedUpTo(order, keys, perm, p + 1)
  {}

  lemma SortedUpToEnd(order: (int, int) -> bool, keys: seq<int>, perm: seq<nat>, p: nat)
    requires SortedUpTo(order, keys, perm, p) && p + 1 >= |perm|
    ensures NeighboursSorted(order, Arranged(keys, perm))
  {
    var k := Arranged(keys, perm);
    assert k[..if p < |perm| then p + 1 else |perm|] == k;
  }

  /** What one exchange of neighbours does. */
  lemma {:induction false} ExchangeFacts<T>(order: (int, int) -> bool, keys: seq<int>, perm: seq<nat>, p: nat, s: seq<T>)
    requires Asymmetric(order) && Fair(order, keys, perm) && |s| == |keys|
    requires p + 1 < |perm| && Late(order, keys[perm[p]], keys[perm[p + 1]])
    ensures Fair(order, keys, Swap(perm, p)) && Arranged(s, Swap(perm, p)) == Swap(Arranged(s, perm), p)
    ensures Disorder(order, keys, Swap(perm, p)) + 1 == Disorder(order, keys, perm)
  {
    SwapKeepsFairness(order, keys, perm, p);
    var k := Arranged(keys, perm);
    SwapLowersInversions(order, k, p);
    assert Arranged(keys, Swap(perm, p)) == Swap(k, p);
  }

  /** The place of two elements in the stable order: by key, and by age among equals. */
  ghost predicate Precedes(order: (int, int) -> bool, keys: seq<int>, a: nat, b: nat)
    requires a < |keys| && b < |keys|
  {
    !Late(order, keys[a], keys[b]) && (a < b || Late(order, keys[b], keys[a]))
  }

  ghost predicate StablySorted(order: (int, int) -> bool, keys: seq<int>, perm: seq<nat>) {
    IsPerm(perm, |keys|) && forall i, j :: 0 <= i < j < |perm| ==> Precedes(order, keys, perm[i], perm[j])
  }

  lemma {:induction false} SortedAndFairIsStable(order: (int, int) -> bool, keys: seq<int>, perm: seq<nat>)
    requires IsPerm(perm, |keys|) && OvertakesFairly(order, keys, perm) && Sorted(order, Arranged(keys, perm))
    ensures StablySorted(order, keys, perm)
  {
    var k := Arranged(keys, perm);
    forall i, j | 0 <= i < j < |perm| ensures Precedes(order, keys, perm[i], perm[j]) {
      assert !Late(order, k[i], k[j]);
    }
  }

  lemma {:induction false} SettledIsStable(order: (int, int) -> bool, keys: seq<int>, perm: seq<nat>)
    requires Fair(order, keys, perm) && NeighboursSorted(order, Arranged(keys, perm))
    ensures NegativelyTransitive(order) ==> StablySorted(order, keys, perm)
  {
    if NegativelyTransitive(order) {
      NeighboursSuffice(order, Arranged(keys, perm));
      SortedAndFairIsStable(order, keys, perm);
    }
  }

  /** The stable order leaves no choice: at most one arrangement is stably sorted. */
  lemma {:induction false} StableSortIsUnique(order: (int, int) -> bool, keys: seq<int>, p1: seq<nat>, p2: seq<nat>, m: nat)
    requires StablySorted(order, keys, p1) && StablySorted(order, keys, p2) && Asymmetric(order) && m <= |keys|
    ensures p1[..m] == p2[..m]
  {
    if m > 0 {
      StableSortIsUnique(order, keys, p1, p2, m - 1);
      var a, b := p1[m - 1], p2[m - 1];
      var i := PlaceOf(p1, |keys|, b);
      var j := PlaceOf(p2, |keys|, a);
      NotBefore(p1, p2, m - 1, i);
      NotBefore(p2, p1, m - 1, j);
      assert p1[..m] == p1[..m - 1] + [a] && p2[..m] == p2[..m - 1] + [b];
    }
  }

  /** What comes next in one of two arrangements that agree so far is not among that part. */
  lemma {:induction false} NotBefore(p1: seq<nat>, p2: seq<nat>, m: nat, i: nat)
    requires IsPerm(p2, |p1|) && m < |p1| && p1[..m] == p2[..m] && i < |p1| && p1[i] == p2[m]
    ensures i >= m
  {
    forall k | 0 <= k < m ensures p1[k] == p2[k] {
      assert p1[..m][k] == p2[..m][k];
    }
  }

  lemma {:induction false} PlaceOf(perm: seq<nat>, n: nat, x: nat) returns (i: nat)
    requires IsPerm(perm, n) && x < n
    ensures i < n && perm[i] == x
  {
    var used, all := set j: nat | j < n :: perm[j], Below(n);
    if x !in used {
      SizeOfImage(perm, n, n);
      assert used <= all - {x};
      SubsetSize(used, all - {x});
    }
    i :| i < n && perm[i] == x;
  }

  ghost function Below(n: nat): (r: set<nat>)
    ensures |r| == n && forall y: nat :: y in r <==> y < n
  {
    if n == 0 then {} else Below(n - 1) + {n - 1}
  }

  lemma {:induction false} SizeOfImage(perm: seq<nat>, n: nat, m: nat)
    requires IsPerm(perm, n) && m <= n
    ensures |set j: nat | j < m :: perm[j]| == m
  {
    if m > 0 {
      SizeOfImage(perm, n, m - 1);
      assert (set j: nat | j < m :: perm[j]) == (set j: nat | j < m - 1 :: perm[j]) + {perm[m - 1]};
    }
  }

  lemma {:induction false} SubsetSize(a: set<nat>, b: set<nat>)
    requires a <= b
    ensures |a| <= |b|
  {
    if a != {} {
      var x :| x in a;
      SubsetSize(a - {x}, b - {x});
    }
  }

  // Insertion -------------------------------------------------------------------------------------

  function InsertAt<T>(s: seq<T>, at: nat, x: T): (r: seq<T>)
    requires at <= |s|
    ensures |r| == |s| + 1
  {
    s[..at] + [x] + s[at..]
  }

  function RemoveAt<T>(s: seq<T>, at: nat): (r: seq<T>)
    requires at < |s|
    ensures |r| == |s| - 1
  {
    s[..at] + s[at + 1..]
  }

  /** Where a key goes: behind the last one if it is to go after that, otherwise before the first
      that it is not to go after. */
  ghost predicate GoesTo(order: (int, int) -> bool, x: int, k: seq<int>, at: nat) {
    if k == [] || Late(order, x, k[|k| - 1]) then at == |k|
    else at < |k| && !Late(order, x, k[at]) && forall i :: 0 <= i < at ==> Late(order, x, k[i])
  }

  lemma {:induction false} PlaceExists(order: (int, int) -> bool, x: int, k: seq<int>) returns (at: nat)
    ensures GoesTo(order, x, k, at)
  {
    at := 0;
    if k == [] || Late(order, x, k[|k| - 1]) {
      at := |k|;
    } else {
      while Late(order, x, k[at])
        invariant at < |k| && forall i :: 0 <= i < at ==> Late(order, x, k[i])
        decreases |k| - at
      {
        at := at + 1;
      }
    }
  }

  /** Inserting where the neighbours allow it keeps the whole sequence sorted. */
  lemma {:induction false} InsertKeepsSorted(order: (int, int) -> bool, k: seq<int>, at: nat, x: int)
    requires Asymmetric(order) && NegativelyTransitive(order) && Sorted(order, k) && at <= |k|
    requires at > 0 ==> Late(order, x, k[at - 1])
    requires at < |k| ==> !Late(order, x, k[at])
    ensures Sorted(order, InsertAt(k, at, x))
  {
    var r := InsertAt(k, at, x);
    forall i, j | 0 <= i < j < |r| ensures !Late(order, r[i], r[j]) {
      if j == at {
        assert !Late(order, k[at - 1], x);
        assert i == at - 1 || !Late(order, k[i], k[at - 1]);
      } else if i == at {
        assert j - 1 == at || !Late(order, k[at], k[j - 1]);
      }
    }
  }

  lemma InsertThenRemove<T>(s: seq<T>, at: nat, x: T)
    requires at <= |s|
    ensures InsertAt(s, at, x)[at] == x && RemoveAt(InsertAt(s, at, x), at) == s
  {
    var r := InsertAt(s, at, x);
    assert r[..at] == s[..at] && r[at + 1..] == s[at..];
  }

  // The generated order expressions ------------------------------------------------------------------

  /** `declare_order_expressions` emits one of these two; both are strict weak orders. */
  lemma GeneratedOrders()
    ensures Asymmetric((a: int, b: int) => a > b) && NegativelyTransitive((a: int, b: int) => a > b)
    ensures Asymmetric((a: int, b: int) => false) && NegativelyTransitive((a: int, b: int) => false)
  {}

  // Passes ------------------------------------------------------------------------------------------

  /** What one pass of `bg_update` does to the keys from position p on: after an exchange it
      goes on two positions further, otherwise one. */
  ghost function Sweep(order: (int, int) -> bool, k: seq<int>, p: nat): (r: seq<int>)
    ensures |r| == |k|
    decreases |k| - p
  {
    if p + 1 >= |k| then k
    else if Late(order, k[p], k[p + 1]) then Sweep(order, Swap(k, p), p + 2)
    else Sweep(order, k, p + 1)
  }

  /** Where a pass that began with the arrangement `start` stands: at position p, with fewer
      inversions if it changed anything, and with the first p pairs in order if not.  What
      is left to do completes the pass. */
  ghost predicate Sweeping(order: (int, int) -> bool, keys: seq<int>, start: seq<nat>, perm: seq<nat>, p: nat, change: bool) {
    Fair(order, keys, start) && Fair(order, keys, perm)
    && Sweep(order, Arranged(keys, perm), p) == Sweep(order, Arranged(keys, start), 0)
    && (change ==> Disorder(order, keys, perm) < Disorder(order, keys, start))
    && (change ==> !NeighboursSorted(order, Arranged(keys, start)))
    && (!change ==> perm == start && SortedUpTo(order, keys, perm, p))
  }

  lemma {:induction false} SweepingStep(order: (int, int) -> bool, keys: seq<int>, start: seq<nat>, perm: seq<nat>, p: nat, change: bool)
    requires Asymmetric(order) && Sweeping(order, keys, start, perm, p, change) && p + 1 < |perm|
    ensures if Late(order, keys[perm[p]], keys[perm[p + 1]])
            then Sweeping(order, keys, start, Swap(perm, p), p + 2, true)
            else Sweeping(order, keys, start, perm, p + 1, change)
  {
    var k := Arranged(keys, perm);
    assert k[p] == keys[perm[p]] && k[p + 1] == keys[perm[p + 1]];
    if Late(order, k[p], k[p + 1]) {
      ExchangeFacts(order, keys, perm, p, keys);
    } else if !change {
      SortedUpToNext(order, keys, perm, p);
    }
  }

  lemma {:induction false} SweepingEnds(order: (int, int) -> bool, keys: seq<int>, start: seq<nat>, perm: seq<nat>, p: nat, change: bool)
    requires Sweeping(order, keys, start, perm, p, change) && p + 1 >= |perm|
    ensures Arranged(keys, perm) == Sweep(order, Arranged(keys, start), 0)
    ensures change <==> !NeighboursSorted(order, Arranged(keys, start))
  {
    if !change {
      SortedUpToEnd(order, keys, perm, p);
    }
  }

  /** n passes lead from the keys k to the keys r. */
  ghost predicate Passes(order: (int, int) -> bool, k: seq<int>, n: nat, r: seq<int>)
    decreases n
  {
    if n == 0 then r == k else exists m :: Passes(order, k, n - 1, m) && r == Sweep(order, m, 0)
  }

  /** The first pass and n more. */
  lemma {:induction false} PassesLater(order: (int, int) -> bool, k: seq<int>, n: nat, r: seq<int>)
    requires Passes(order, Sweep(order, k, 0), n, r)
    ensures Passes(order, k, n + 1, r)
  {
    if n == 0 {
      assert Passes(order, k, 0, k);
    } else {
      var m :| Passes(order, Sweep(order, k, 0), n - 1, m) && r == Sweep(order, m, 0);
      PassesLater(order, k, n - 1, m);
    }
  }

  /** The keys before each of a number of passes and after the last. */
  ghost predicate IsTrail(order: (int, int) -> bool, trail: seq<seq<int>>) {
    trail != [] && forall i :: 0 < i < |trail| ==> trail[i] == Sweep(order, trail[i - 1], 0)
  }

  lemma {:induction false} TrailPasses(order: (int, int) -> bool, trail: seq<seq<int>>, n: nat)
    requires IsTrail(order, trail) && n < |trail|
    ensures Passes(order, trail[0], n, trail[n])
  {
    if n > 0 {
      TrailPasses(order, trail, n - 1);
    }
  }

  /** The arrangement that changes nothing. */
  ghost function Unmoved(n: nat): (perm: seq<nat>)
    ensures IsPerm(perm, n) && forall i :: 0 <= i < n ==> perm[i] == i
  {
    seq(n, i => i)
  }

  lemma {:induction false} UnmovedFacts<T>(order: (int, int) -> bool, keys: seq<int>, s: seq<T>)
    requires |s| == |keys|
    ensures Fair(order, keys, Unmoved(|keys|)) && Arranged(s, Unmoved(|keys|)) == s
    ensures Arranged(keys, Unmoved(|keys|)) == keys
  {
  }

  /** A pass never adds inversions, and removes one if it meets a pair in the wrong order. */
  lemma {:induction false} SweepLowersInversions(order: (int, int) -> bool, k: seq<int>, p: nat)
    requires Asymmetric(order)
    ensures Inversions(order, Sweep(order, k, p)) <= Inversions(order, k)
    ensures (exists i :: p <= i < |k| - 1 && Late(order, k[i], k[i + 1])) ==>
              Inversions(order, Sweep(order, k, p)) < Inversions(order, k)
    decreases |k| - p
  {
    if p + 1 < |k| {
      if Late(order, k[p], k[p + 1]) {
        SwapLowersInversions(order, k, p);
        SweepLowersInversions(order, Swap(k, p), p + 2);
      } else {
        SweepLowersInversions(order, k, p + 1);
      }
    }
  }

  lemma {:induction false} AsymmetricSettles(order: (int, int) -> bool, k: seq<int>) returns (n: nat, r: seq<int>)
    requires Asymmetric(order)
    ensures Passes(order, k, n, r) && NeighboursSorted(order, r)
    decreases Inversions(order, k)
  {
    n, r := 0, k;
    if !NeighboursSorted(order, k) {
      SweepLowersInversions(order, k, 0);
      n, r := AsymmetricSettles(order, Sweep(order, k, 0));
      PassesLater(order, k, n, r);
      n := n + 1;
    }
  }

  /** Two keys each of which is to go after the other change places in every pass. */
  lemma {:induction false} PairNeverSettles(order: (int, int) -> bool, a: int, b: int, n: nat, r: seq<int>)
    requires Late(order, a, b) && Late(order, b, a) && Passes(order, [a, b], n, r)
    ensures r == [a, b] || r == [b, a]
    ensures !NeighboursSorted(order, r)
  {
    if n > 0 {
      var m :| Passes(order, [a, b], n - 1, m) && r == Sweep(order, m, 0);
      PairNeverSettles(order, a, b, n - 1, m);
      assert Swap(m, 0) == [m[1], m[0]] && r == Sweep(order, Swap(m, 0), 2);
    }
    assert Late(order, r[0], r[0 + 1]);
  }

  /** Some number of passes leaves nothing to exchange, so that the next one is the last. */
  ghost predicate Settles(order: (int, int) -> bool, k: seq<int>) {
    exists n: nat, r :: Passes(order, k, n, r) && NeighboursSorted(order, r)
  }

  /** `bg_update` comes to an end on every list if and only if the order is asymmetric. */
  lemma {:induction false} SettlesIffAsymmetric(order: (int, int) -> bool)
    ensures Asymmetric(order) <==> forall k :: Settles(order, k)
  {
    if Asymmetric(order) {
      forall k ensures Settles(order, k) {
        var n, r := AsymmetricSettles(order, k);
      }
    } else {
      var a, b :| Late(order, a, b) && Late(order, b, a);
      forall n: nat, r | Passes(order, [a, b], n, r) ensures !NeighboursSorted(order, r) {
        PairNeverSettles(order, a, b, n, r);
      }
      assert !Settles(order, [a, b]);
    }
  }
}
