/**
 * The clauses `backtrack_loop` (include/poac/core/resolver.hpp, lines 153-233) builds
 * over the candidate list, as specification functions, and what they mean: variable
 * `p + 1` stands for candidate `p`.
 */
module Cnf {
  import opened Model
  import opened BinStr

  type Clause = seq<int>

  /** The number of candidates among `act[..q]` named `name` (`std::count_if`). */
  function CountUpTo(act: seq<Package>, name: string, q: nat): nat
    requires q <= |act|
  {
    if q == 0 then 0 else CountUpTo(act, name, q - 1) + (if act[q - 1].name == name then 1 else 0)
  }

  function CountName(act: seq<Package>, name: string): nat
  {
    CountUpTo(act, name, |act|)
  }

  /** A candidate before position `p` has the name of candidate `p`. */
  predicate EarlierSameName(act: seq<Package>, p: nat)
    requires p < |act|
  {
    exists q :: 0 <= q < p && act[q].name == act[p].name
  }

  /** `std::find(first, last, dep)`: the first position whose candidate is `==` to `dep`
      (name, version and source), or `|act|` when there is none. */
  function FindIndex(act: seq<Package>, dep: Package): (i: nat)
    ensures i <= |act|
    ensures i < |act| ==> SamePackage(act[i], dep)
    ensures forall j :: 0 <= j < i ==> !SamePackage(act[j], dep)
  {
    if act == [] then 0
    else if SamePackage(act[0], dep) then 0
    else 1 + FindIndex(act[1..], dep)
  }

  /** The variables of a candidate's children: `distance(first, find(first, last, dep)) + 1`. */
  function ChildVars(act: seq<Package>, deps: seq<Package>): (r: seq<int>)
    ensures |r| == |deps|
  {
    seq(|deps|, k requires 0 <= k < |deps| => FindIndex(act, deps[k]) + 1)
  }

  /** The 1-based positions of the candidates among `act[..q]` named `name`, in order. */
  function Positions(act: seq<Package>, name: string, q: nat): (r: seq<int>)
    requires q <= |act|
    ensures |r| == CountUpTo(act, name, q)
  {
    if q == 0 then []
    else Positions(act, name, q - 1) + (if act[q - 1].name == name then [q] else [])
  }

  /** The implication clauses `[index, child1, child2, ...]` emitted by the `while` loop
      for the candidates among `act[..q]` named `name` that have children. */
  function GroupImplications(act: seq<Package>, name: string, q: nat): seq<Clause>
    requires q <= |act|
  {
    if q == 0 then []
    else GroupImplications(act, name, q - 1) +
         (if act[q - 1].name == name && act[q - 1].deps != []
          then [[q] + ChildVars(act, act[q - 1].deps)] else [])
  }

  /** The blocking clause for the sign pattern `m`: literal `i` is `vars[i]` when bit `i`
      of `m` is 0, and `-vars[i]` when it is 1. */
  function Blocking(vars: seq<int>, m: nat): (c: Clause)
    ensures |c| == |vars|
  {
    seq(|vars|, i requires 0 <= i < |vars| => if Bit(m, i) == 0 then vars[i] else -vars[i])
  }

  /** The blocking clauses for the counters `0 .. m - 1`, skipping those with exactly one
      one bit. */
  function OneHot(vars: seq<int>, m: nat): seq<Clause>
  {
    if m == 0 then []
    else OneHot(vars, m - 1) + (if PopCount(m - 1, |vars|) == 1 then [] else [Blocking(vars, m - 1)])
  }

  /** The clauses emitted when the outer loop visits candidate `p`. */
  function StepClauses(act: seq<Package>, p: nat): seq<Clause>
    requires p < |act|
  {
    var name := act[p].name;
    var c := CountName(act, name);
    if c == 1 then
      [[p + 1]] + (if act[p].deps != [] then [[-(p + 1)] + ChildVars(act, act[p].deps)] else [])
    else if c > 1 && !EarlierSameName(act, p) then
      var vars := Positions(act, name, |act|);
      GroupImplications(act, name, |act|) + OneHot(vars, Pow2(|vars|))
    else
      []
  }

  /** The clauses emitted while visiting candidates `0 .. p - 1`. */
  function EncodingUpTo(act: seq<Package>, p: nat): seq<Clause>
    requires p <= |act|
  {
    if p == 0 then [] else EncodingUpTo(act, p - 1) + StepClauses(act, p - 1)
  }

  /** One more visit appends that visit's clauses. */
  lemma EncodingStep(act: seq<Package>, p: nat)
    requires p < |act|
    ensures EncodingUpTo(act, p + 1) == EncodingUpTo(act, p) + StepClauses(act, p)
  {
  }

  /** The whole clause list handed to the solver. */
  function Encoding(act: seq<Package>): seq<Clause>
  {
    EncodingUpTo(act, |act|)
  }

  // ---------------------------------------------------------------------------------
  // Meaning of a clause list under an assignment: `t` is the set of true variables.

  predicate Holds(lit: int, t: set<int>)
  {
    if lit > 0 then lit in t else -lit !in t
  }

  predicate ClauseHolds(c: Clause, t: set<int>)
  {
    exists i :: 0 <= i < |c| && Holds(c[i], t)
  }

  predicate Satisfies(f: seq<Clause>, t: set<int>)
  {
    forall c :: c in f ==> ClauseHolds(c, t)
  }

  /** How many of `vars` are true. */
  function CountTrue(vars: seq<int>, t: set<int>): nat
  {
    if vars == [] then 0 else (if vars[0] in t then 1 else 0) + CountTrue(vars[1..], t)
  }

  /** The number of negative literals in a clause. */
  function Negatives(c: Clause): nat
  {
    if c == [] then 0 else (if c[0] < 0 then 1 else 0) + Negatives(c[1..])
  }

  /** The counter whose bit `i` is set exactly when `vars[i]` is true. */
  function PatternOf(vars: seq<int>, t: set<int>): nat
  {
    if vars == [] then 0 else (if vars[0] in t then 1 else 0) + 2 * PatternOf(vars[1..], t)
  }

  predicate AllPositive(vars: seq<int>)
  {
    forall i :: 0 <= i < |vars| ==> vars[i] > 0
  }

  /** The number of counters below `m` whose low `k` bits hold exactly `c` ones. */
  function NumWithPop(c: nat, k: nat, m: nat): nat
  {
    if m == 0 then 0 else NumWithPop(c, k, m - 1) + (if PopCount(m - 1, k) == c then 1 else 0)
  }

  // ---------------------------------------------------------------------------------
  // The one-hot block.

  lemma {:induction false} OneHotMembers(vars: seq<int>, m: nat)
    ensures forall c :: c in OneHot(vars, m) ==>
              exists x :: 0 <= x < m && PopCount(x, |vars|) != 1 && c == Blocking(vars, x)
    ensures forall x :: 0 <= x < m && PopCount(x, |vars|) != 1 ==> Blocking(vars, x) in OneHot(vars, m)
  {
    if m > 0 {
      OneHotMembers(vars, m - 1);
    }
  }

  lemma BlockingFalsified(vars: seq<int>, x: nat, t: set<int>)
    requires AllPositive(vars)
    ensures !ClauseHolds(Blocking(vars, x), t) <==>
            forall i :: 0 <= i < |vars| ==> (vars[i] in t <==> Bit(x, i) == 1)
  {
    var c := Blocking(vars, x);
    if !ClauseHolds(c, t) {
      forall i | 0 <= i < |vars| ensures vars[i] in t <==> Bit(x, i) == 1 {
        assert !Holds(c[i], t);
      }
    }
  }

  lemma {:induction false} PatternOfBits(vars: seq<int>, t: set<int>)
    ensures PatternOf(vars, t) < Pow2(|vars|)
    ensures forall i :: 0 <= i < |vars| ==> (vars[i] in t <==> Bit(PatternOf(vars, t), i) == 1)
  {
    if vars != [] {
      PatternOfBits(vars[1..], t);
      var x := PatternOf(vars, t);
      assert x / 2 == PatternOf(vars[1..], t);
      forall i | 0 <= i < |vars| ensures vars[i] in t <==> Bit(x, i) == 1 {
        if i > 0 {
          assert vars[1..][i - 1] == vars[i];
        }
      }
    }
  }

  lemma {:induction false} MatchingPopCount(vars: seq<int>, x: nat, t: set<int>)
    requires forall i :: 0 <= i < |vars| ==> (vars[i] in t <==> Bit(x, i) == 1)
    ensures PopCount(x, |vars|) == CountTrue(vars, t)
  {
    if vars != [] {
      forall i | 0 <= i < |vars| - 1 ensures vars[1..][i] in t <==> Bit(x / 2, i) == 1 {
        assert Bit(x, i + 1) == Bit(x / 2, i);
      }
      MatchingPopCount(vars[1..], x / 2, t);
      assert Bit(x, 0) == x % 2;
    }
  }

  lemma {:induction false} BlockingNegatives(vars: seq<int>, x: nat)
    requires AllPositive(vars)
    ensures Negatives(Blocking(vars, x)) == PopCount(x, |vars|)
  {
    if vars != [] {
      BlockingNegatives(vars[1..], x / 2);
      var c := Blocking(vars, x);
      assert c[1..] == Blocking(vars[1..], x / 2) by {
        forall i | 0 <= i < |vars| - 1 ensures c[1..][i] == Blocking(vars[1..], x / 2)[i] {
          assert Bit(x, i + 1) == Bit(x / 2, i);
        }
      }
    }
  }

  /** The blocking clauses for a group of `k` candidate variables are satisfied exactly
      when one of the `k` variables is true. */
  lemma OneHotExactlyOne(vars: seq<int>, t: set<int>)
    requires AllPositive(vars)
    ensures Satisfies(OneHot(vars, Pow2(|vars|)), t) <==> CountTrue(vars, t) == 1
  {
    var k := |vars|;
    OneHotMembers(vars, Pow2(k));
    if Satisfies(OneHot(vars, Pow2(k)), t) {
      var x := PatternOf(vars, t);
      PatternOfBits(vars, t);
      BlockingFalsified(vars, x, t);
      MatchingPopCount(vars, x, t);
      if PopCount(x, k) != 1 {
        assert false;
      }
    } else {
      var c :| c in OneHot(vars, Pow2(k)) && !ClauseHolds(c, t);
      var x :| 0 <= x < Pow2(k) && PopCount(x, k) != 1 && c == Blocking(vars, x);
      BlockingFalsified(vars, x, t);
      MatchingPopCount(vars, x, t);
    }
  }

  /** Each blocking clause has one literal per candidate of the group; the all-positive
      clause is one of them; none has exactly one negative literal. */
  lemma OneHotShape(vars: seq<int>)
    requires AllPositive(vars)
    ensures forall c :: c in OneHot(vars, Pow2(|vars|)) ==> |c| == |vars| && Negatives(c) != 1
    ensures vars in OneHot(vars, Pow2(|vars|))
  {
    var k := |vars|;
    OneHotMembers(vars, Pow2(k));
    forall c | c in OneHot(vars, Pow2(k)) ensures |c| == k && Negatives(c) != 1 {
      var x :| 0 <= x < Pow2(k) && PopCount(x, k) != 1 && c == Blocking(vars, x);
      BlockingNegatives(vars, x);
    }
    ZeroPopCount(k);
    assert Blocking(vars, 0) == vars by {
      forall i | 0 <= i < k ensures Blocking(vars, 0)[i] == vars[i] {
        ZeroBit(i);
      }
    }
  }

  lemma {:induction false} ZeroPopCount(k: nat)
    ensures PopCount(0, k) == 0
  {
    if k > 0 { ZeroPopCount(k - 1); }
  }

  lemma {:induction false} ZeroBit(i: nat)
    ensures Bit(0, i) == 0
  {
    if i > 0 { ZeroBit(i - 1); }
  }

  lemma {:induction false} NumWithPopDouble(c: nat, k: nat, m: nat)
    ensures NumWithPop(c, k + 1, 2 * m) == NumWithPop(c, k, m) + (if c > 0 then NumWithPop(c - 1, k, m) else 0)
  {
    if m > 0 {
      NumWithPopDouble(c, k, m - 1);
      assert PopCount(2 * m - 2, k + 1) == PopCount(m - 1, k);
      assert PopCount(2 * m - 1, k + 1) == 1 + PopCount(m - 1, k);
      if c > 0 {
        assert NumWithPop(c - 1, k, m) == NumWithPop(c - 1, k, m - 1) + (if PopCount(m - 1, k) == c - 1 then 1 else 0);
      }
    }
  }

  lemma {:induction false} NumWithPopZeroOne(k: nat)
    ensures NumWithPop(0, k, Pow2(k)) == 1 && NumWithPop(1, k, Pow2(k)) == k
  {
    if k > 0 {
      NumWithPopZeroOne(k - 1);
      NumWithPopDouble(0, k - 1, Pow2(k - 1));
      NumWithPopDouble(1, k - 1, Pow2(k - 1));
    }
  }

  lemma {:induction false} OneHotLength(vars: seq<int>, m: nat)
    ensures |OneHot(vars, m)| == m - NumWithPop(1, |vars|, m)
  {
    if m > 0 {
      OneHotLength(vars, m - 1);
    }
  }

  /** A group of `k` candidates gets `2^k - k` blocking clauses. */
  lemma OneHotCount(vars: seq<int>)
    ensures |OneHot(vars, Pow2(|vars|))| == Pow2(|vars|) - |vars|
  {
    OneHotLength(vars, Pow2(|vars|));
    NumWithPopZeroOne(|vars|);
  }

  // ---------------------------------------------------------------------------------
  // The whole clause list.

  lemma {:induction false} EncodingUpToContains(act: seq<Package>, p: nat, n: nat)
    requires p < n <= |act|
    ensures forall c :: c in StepClauses(act, p) ==> c in EncodingUpTo(act, n)
  {
    EncodingStep(act, p);
    EncodingUpToPrefix(act, p + 1, n);
    InPrefixPart(EncodingUpTo(act, p), StepClauses(act, p), EncodingUpTo(act, n));
  }

  lemma InPrefixPart<T>(a: seq<T>, x: seq<T>, b: seq<T>)
    requires a + x <= b
    ensures forall c :: c in x ==> c in b
  {
    forall c | c in x ensures c in b {
      var k :| 0 <= k < |x| && x[k] == c;
      assert (a + x)[|a| + k] == c;
    }
  }

  /** The clauses of the first `m` visits are a prefix of those of the first `n`. */
  lemma {:induction false} EncodingUpToPrefix(act: seq<Package>, m: nat, n: nat)
    requires m <= n <= |act|
    ensures EncodingUpTo(act, m) <= EncodingUpTo(act, n)
    decreases n
  {
    if m < n {
      EncodingUpToPrefix(act, m, n - 1);
      EncodingStep(act, n - 1);
      PrefixConcat(EncodingUpTo(act, m), EncodingUpTo(act, n - 1), StepClauses(act, n - 1));
    }
  }

  lemma PrefixConcat<T>(a: seq<T>, b: seq<T>, x: seq<T>)
    requires a <= b
    ensures a <= b + x
  {
    assert forall i :: 0 <= i < |a| ==> (b + x)[i] == b[i];
  }

  lemma {:induction false} CountUpToZero(act: seq<Package>, name: string, q: nat)
    requires q <= |act| && CountUpTo(act, name, q) == 0
    ensures forall j :: 0 <= j < q ==> act[j].name != name
  {
    if q > 0 { CountUpToZero(act, name, q - 1); }
  }

  lemma {:induction false} CountUpToPositive(act: seq<Package>, name: string, q: nat, j: nat)
    requires j < q <= |act| && act[j].name == name
    ensures CountUpTo(act, name, q) >= 1
    ensures forall j' :: 0 <= j' < q && j' != j && act[j'].name == name ==> CountUpTo(act, name, q) >= 2
  {
    if j < q - 1 {
      CountUpToPositive(act, name, q - 1, j);
    } else {
      forall j' | 0 <= j' < q && j' != j && act[j'].name == name ensures CountUpTo(act, name, q) >= 2 {
        CountUpToPositive(act, name, q - 1, j');
      }
    }
  }

  /** The first candidate carrying `name` among `act[..q]`. */
  lemma {:induction false} FirstOfName(act: seq<Package>, name: string, q: nat) returns (p: nat)
    requires q <= |act| && CountUpTo(act, name, q) > 0
    ensures p < q && act[p].name == name && !EarlierSameName(act, p)
  {
    if CountUpTo(act, name, q - 1) > 0 {
      p := FirstOfName(act, name, q - 1);
    } else {
      CountUpToZero(act, name, q - 1);
      p := q - 1;
    }
  }

  lemma {:induction false} PositionsAt(act: seq<Package>, name: string, q: nat)
    requires q <= |act|
    ensures forall i :: 0 <= i < |Positions(act, name, q)| ==>
              1 <= Positions(act, name, q)[i] <= q && act[Positions(act, name, q)[i] - 1].name == name
    ensures forall j :: 0 <= j < q && act[j].name == name ==> j + 1 in Positions(act, name, q)
  {
    if q > 0 { PositionsAt(act, name, q - 1); }
  }

  lemma {:induction false} GroupImplicationsMembers(act: seq<Package>, name: string, q: nat)
    requires q <= |act|
    ensures forall j :: 0 <= j < q && act[j].name == name && act[j].deps != [] ==>
              [j + 1] + ChildVars(act, act[j].deps) in GroupImplications(act, name, q)
    ensures forall c :: c in GroupImplications(act, name, q) ==>
              exists j :: 0 <= j < q && act[j].name == name && act[j].deps != [] &&
                          c == [j + 1] + ChildVars(act, act[j].deps)
  {
    if q > 0 { GroupImplicationsMembers(act, name, q - 1); }
  }

  /** A name carried by one candidate `p` gets the unit clause `[p + 1]`, and, when the
      candidate has children, the clause `[-(p + 1), j1, j2, ...]` over the positions of
      the first candidates equal to its children. */
  lemma SingleCandidateClauses(act: seq<Package>, p: nat)
    requires p < |act| && CountName(act, act[p].name) == 1
    ensures [p + 1] in Encoding(act)
    ensures act[p].deps != [] ==> [-(p + 1)] + ChildVars(act, act[p].deps) in Encoding(act)
  {
    var step := StepClauses(act, p);
    assert step == [[p + 1]] + (if act[p].deps != [] then [[-(p + 1)] + ChildVars(act, act[p].deps)] else []);
    assert step[0] == [p + 1];
    EncodingUpToContains(act, p, |act|);
    if act[p].deps != [] {
      assert step[1] == [-(p + 1)] + ChildVars(act, act[p].deps);
    }
  }

  /** A name carried by `k > 1` candidates gets, once, an implication clause
      `[+index, j1, j2, ...]` for every such candidate with children, and the blocking
      clauses over their positions. */
  lemma MultiCandidateClauses(act: seq<Package>, name: string)
    requires CountName(act, name) > 1
    ensures var vars := Positions(act, name, |act|);
            |vars| == CountName(act, name) &&
            (forall c :: c in OneHot(vars, Pow2(|vars|)) ==> c in Encoding(act)) &&
            (forall j :: 0 <= j < |act| && act[j].name == name && act[j].deps != [] ==>
                [j + 1] + ChildVars(act, act[j].deps) in Encoding(act))
  {
    var p := FirstOfName(act, name, |act|);
    EncodingUpToContains(act, p, |act|);
    GroupImplicationsMembers(act, name, |act|);
  }

  /** Visiting a later candidate of an already encoded name adds nothing: each name
      group is encoded once (`already_added`). */
  lemma LaterOccurrenceAddsNothing(act: seq<Package>, p: nat)
    requires p < |act| && EarlierSameName(act, p)
    ensures StepClauses(act, p) == []
  {
    var q :| 0 <= q < p && act[q].name == act[p].name;
    CountUpToPositive(act, act[p].name, |act|, p);
  }

  /** What an assignment `t` satisfying the whole clause list guarantees: every sole
      candidate of its name is selected, and a selected one with children selects at
      least one of its children's variables; every name with several candidates has
      exactly one selected; and any candidate of such a name with children that is NOT
      selected selects at least one child variable (the `+index` clause). */
  lemma EncodingSound(act: seq<Package>, t: set<int>)
    requires Satisfies(Encoding(act), t)
    ensures forall p :: 0 <= p < |act| && CountName(act, act[p].name) == 1 ==>
              p + 1 in t &&
              (act[p].deps != [] ==> exists m :: 0 <= m < |act[p].deps| && ChildVars(act, act[p].deps)[m] in t)
    ensures forall p :: 0 <= p < |act| && CountName(act, act[p].name) > 1 ==>
              CountTrue(Positions(act, act[p].name, |act|), t) == 1 &&
              (act[p].deps != [] && p + 1 !in t ==>
                exists m :: 0 <= m < |act[p].deps| && ChildVars(act, act[p].deps)[m] in t)
  {
    forall p | 0 <= p < |act| && CountName(act, act[p].name) == 1
      ensures p + 1 in t
      ensures act[p].deps != [] ==> exists m :: 0 <= m < |act[p].deps| && ChildVars(act, act[p].deps)[m] in t
    {
      SingleCandidateClauses(act, p);
      assert ClauseHolds([p + 1], t);
      if act[p].deps != [] {
        var c := [-(p + 1)] + ChildVars(act, act[p].deps);
        assert ClauseHolds(c, t);
        var i :| 0 <= i < |c| && Holds(c[i], t);
        assert i > 0;
        assert ChildVars(act, act[p].deps)[i - 1] == c[i];
      }
    }
    forall p | 0 <= p < |act| && CountName(act, act[p].name) > 1
      ensures CountTrue(Positions(act, act[p].name, |act|), t) == 1
      ensures act[p].deps != [] && p + 1 !in t ==>
                exists m :: 0 <= m < |act[p].deps| && ChildVars(act, act[p].deps)[m] in t
    {
      var name := act[p].name;
      var vars := Positions(act, name, |act|);
      MultiCandidateClauses(act, name);
      PositionsAt(act, name, |act|);
      OneHotExactlyOne(vars, t);
      if act[p].deps != [] && p + 1 !in t {
        var c := [p + 1] + ChildVars(act, act[p].deps);
        assert ClauseHolds(c, t);
        var i :| 0 <= i < |c| && Holds(c[i], t);
        assert i > 0;
        assert ChildVars(act, act[p].deps)[i - 1] == c[i];
      }
    }
  }

  // ---------------------------------------------------------------------------------
  // Well-formedness: every literal names one of the `|act|` variables.

  /** Every child of every candidate is `==` to some candidate of the list. */
  predicate ChildrenFound(act: seq<Package>)
  {
    forall p, c :: 0 <= p < |act| && c in act[p].deps ==> FindIndex(act, c) < |act|
  }

  /** Every literal of the clause is `v` or `-v` for a variable `1 <= v <= n`. */
  predicate ClauseIn(c: Clause, n: nat)
  {
    forall l :: l in c ==> 0 < l <= n || 0 < -l <= n
  }

  /** Every clause of the list mentions only the variables `1 ..= n`. */
  predicate LiteralsIn(cls: seq<Clause>, n: nat)
  {
    forall i :: 0 <= i < |cls| ==> ClauseIn(cls[i], n)
  }

  lemma LiteralsConcat(a: seq<Clause>, b: seq<Clause>, n: nat)
    requires LiteralsIn(a, n) && LiteralsIn(b, n)
    ensures LiteralsIn(a + b, n)
  {
    forall i | 0 <= i < |a + b| ensures ClauseIn((a + b)[i], n) {
      if i >= |a| {
        assert (a + b)[i] == b[i - |a|];
      }
    }
  }

  lemma ChildVarsInRange(act: seq<Package>, deps: seq<Package>)
    requires forall c :: c in deps ==> FindIndex(act, c) < |act|
    ensures forall l :: l in ChildVars(act, deps) ==> 1 <= l <= |act|
  {
    forall l | l in ChildVars(act, deps) ensures 1 <= l <= |act| {
      var k :| 0 <= k < |deps| && ChildVars(act, deps)[k] == l;
      assert deps[k] in deps;
    }
  }

  lemma {:induction false} GroupLiterals(act: seq<Package>, name: string, q: nat)
    requires q <= |act| && ChildrenFound(act)
    ensures LiteralsIn(GroupImplications(act, name, q), |act|)
  {
    if q > 0 {
      GroupLiterals(act, name, q - 1);
      if act[q - 1].name == name && act[q - 1].deps != [] {
        ChildVarsInRange(act, act[q - 1].deps);
        var cl := [q] + ChildVars(act, act[q - 1].deps);
        assert forall l :: l in cl ==> l == q || l in ChildVars(act, act[q - 1].deps);
        assert ClauseIn(cl, |act|);
        LiteralsConcat(GroupImplications(act, name, q - 1), [cl], |act|);
      }
    }
  }

  lemma {:induction false} OneHotLiterals(vars: seq<int>, m: nat, n: nat)
    requires forall i :: 0 <= i < |vars| ==> 1 <= vars[i] <= n
    ensures LiteralsIn(OneHot(vars, m), n)
  {
    if m > 0 {
      OneHotLiterals(vars, m - 1, n);
      if PopCount(m - 1, |vars|) != 1 {
        var cl := Blocking(vars, m - 1);
        forall l | l in cl ensures 0 < l <= n || 0 < -l <= n {
          var i :| 0 <= i < |cl| && cl[i] == l;
        }
        assert ClauseIn(cl, n);
        LiteralsConcat(OneHot(vars, m - 1), [cl], n);
      }
    }
  }

  lemma StepLiterals(act: seq<Package>, p: nat)
    requires p < |act| && ChildrenFound(act)
    ensures LiteralsIn(StepClauses(act, p), |act|)
  {
    var name := act[p].name;
    var c := CountName(act, name);
    if c == 1 {
      ChildVarsInRange(act, act[p].deps);
    } else if c > 1 && !EarlierSameName(act, p) {
      var vars := Positions(act, name, |act|);
      PositionsAt(act, name, |act|);
      GroupLiterals(act, name, |act|);
      OneHotLiterals(vars, Pow2(|vars|), |act|);
      LiteralsConcat(GroupImplications(act, name, |act|), OneHot(vars, Pow2(|vars|)), |act|);
    }
  }

  lemma {:induction false} EncodingUpToLiterals(act: seq<Package>, p: nat)
    requires p <= |act| && ChildrenFound(act)
    ensures LiteralsIn(EncodingUpTo(act, p), |act|)
  {
    if p > 0 {
      EncodingUpToLiterals(act, p - 1);
      StepLiterals(act, p - 1);
      LiteralsConcat(EncodingUpTo(act, p - 1), StepClauses(act, p - 1), |act|);
      EncodingStep(act, p - 1);
    }
  }

  /** When every child is found in the list, the clause list only mentions the `|act|`
      variables handed to the solver. */
  lemma EncodingLiterals(act: seq<Package>)
    requires ChildrenFound(act)
    ensures LiteralsIn(Encoding(act), |act|)
  {
    EncodingUpToLiterals(act, |act|);
  }
}
