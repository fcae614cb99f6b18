/**
 * `backtrack_loop`, `activated_to_backtracked` and `duplicate_loose`
 * (include/poac/core/resolver.hpp, lines 153-279): the clause construction as the
 * source writes it, the solver call, and the extraction of the chosen candidates.
 */
module Backtrack {
  import opened Wrappers
  import opened Model
  import opened BinStr
  import opened Cnf

  /** `sat::Sat`: only `completed` is distinguished by the resolver. */
  datatype Sat = Completed | NotCompleted

  /** `sat::Formula`: the clauses and the variable count. */
  datatype Formula = Formula(clauses: seq<Clause>, variables: nat)

  /** What `sat::solve` returns: a status and one signed literal per variable. */
  datatype Solution = Solution(status: Sat, assignments: seq<int>)

  // ---------------------------------------------------------------------------------
  // duplicate_loose

  /** `duplicate_loose`: some candidate's name is counted more than once. */
  predicate DuplicateLoose(act: seq<Package>)
  {
    exists i :: 0 <= i < |act| && CountName(act, act[i].name) > 1
  }

  lemma {:induction false} CountTwo(act: seq<Package>, name: string, q: nat) returns (i: nat, j: nat)
    requires q <= |act| && CountUpTo(act, name, q) > 1
    ensures i < j < q && act[i].name == name && act[j].name == name
  {
    if CountUpTo(act, name, q - 1) > 1 {
      i, j := CountTwo(act, name, q - 1);
    } else {
      i := FirstOfName(act, name, q - 1);
      j := q - 1;
    }
  }

  /** `duplicate_loose` holds exactly when two different candidates share a name. */
  lemma DuplicateLooseMeans(act: seq<Package>)
    ensures DuplicateLoose(act) <==>
            exists i, j :: 0 <= i < j < |act| && act[i].name == act[j].name
  {
    if DuplicateLoose(act) {
      var k :| 0 <= k < |act| && CountName(act, act[k].name) > 1;
      var i, j := CountTwo(act, act[k].name, |act|);
    }
    if i, j :| 0 <= i < j < |act| && act[i].name == act[j].name {
      CountUpToPositive(act, act[i].name, |act|, i);
    }
  }

  // ---------------------------------------------------------------------------------
  // activated_to_backtracked

  /** `activated_to_backtracked`: the candidate list is copied, and each name is pinned to
      the last candidate carrying it; with no repeated name, each candidate's own pin. */
  method ActivatedToBacktracked(deps: Resolved) returns (r: Resolved)
    ensures r.activated == deps.activated
    ensures r.backtracked == Pins(deps.activated)
    ensures r.backtracked.Keys == set p | p in deps.activated :: p.name
    ensures !DuplicateLoose(deps.activated) ==>
              forall i :: 0 <= i < |deps.activated| ==> r.backtracked[deps.activated[i].name] == PinOf(deps.activated[i])
  {
    var act := deps.activated;
    var backtracked: map<string, MiniPackage> := map[];
    var i := 0;
    while i < |act|
      invariant i <= |act|
      invariant backtracked == Pins(act[..i])
    {
      PinsSnoc(act[..i], act[i]);
      assert act[..i + 1] == act[..i] + [act[i]];
      backtracked := backtracked[act[i].name := PinOf(act[i])];
      i := i + 1;
    }
    assert act[..i] == act;
    r := Resolved(act, backtracked);
    PinsKeys(act);
    if !DuplicateLoose(act) {
      DuplicateLooseMeans(act);
      forall i | 0 <= i < |act| ensures r.backtracked[act[i].name] == PinOf(act[i]) {
        PinsLastWins(act, i);
      }
    }
  }

  // ---------------------------------------------------------------------------------
  // The clause construction of backtrack_loop

  /** The loop `for (dep : deps) clause.emplace_back(find(first, last, dep) + 1)`. */
  method AppendChildVars(act: seq<Package>, clause: Clause, deps: seq<Package>) returns (r: Clause)
    ensures r == clause + ChildVars(act, deps)
  {
    r := clause;
    var k := 0;
    while k < |deps|
      invariant k <= |deps|
      invariant r == clause + ChildVars(act, deps)[..k]
    {
      assert ChildVars(act, deps)[..k + 1] == ChildVars(act, deps)[..k] + [FindIndex(act, deps[k]) + 1];
      r := r + [FindIndex(act, deps[k]) + 1];
      k := k + 1;
    }
  }

  /** The clause built from the bitset of `to_bin_str(m, |vars|)`: bit `i` of the bitset
      is the string's character `|vars| - 1 - i`; a 0 keeps `vars[i]`, a 1 negates it. */
  method BlockingFromBits(vars: seq<int>, m: nat) returns (skip: bool, c: Clause)
    ensures skip <==> PopCount(m, |vars|) == 1
    ensures c == Blocking(vars, m)
  {
    var bs := ToBinStr(m, |vars|);
    BinStrProperties(m, |vars|);
    skip := Ones(bs) == 1;
    c := [];
    var i := 0;
    while i < |bs|
      invariant i <= |bs| == |vars|
      invariant c == Blocking(vars, m)[..i]
    {
      assert bs[|bs| - 1 - i] == BitChar(Bit(m, i));
      assert Blocking(vars, m)[..i + 1] == Blocking(vars, m)[..i] + [Blocking(vars, m)[i]];
      if bs[|bs| - 1 - i] == '0' {
        c := c + [vars[i]];
      } else {
        c := c + [-vars[i]];
      }
      i := i + 1;
    }
  }

  /** The clauses of a name carried by several candidates: the `while (true)` scan over
      the candidates of that name, then the `2^k` combinations. */
  method EncodeGroup(act: seq<Package>, name: string, clauses: seq<Clause>, alreadyAdded: seq<int>)
    returns (clauses': seq<Clause>, alreadyAdded': seq<int>)
    ensures clauses' == clauses + GroupImplications(act, name, |act|) + OneHot(Positions(act, name, |act|), Pow2(CountName(act, name)))
    ensures forall x :: x in alreadyAdded' <==> x in alreadyAdded || (1 <= x <= |act| && act[x - 1].name == name)
  {
    var clause: Clause := [];
    clauses', alreadyAdded' := clauses, alreadyAdded;
    var q := 0;
    while q < |act|
      invariant q <= |act|
      invariant clause == Positions(act, name, q)
      invariant clauses' == clauses + GroupImplications(act, name, q)
      invariant forall x :: x in alreadyAdded' <==> x in alreadyAdded || (1 <= x <= q && act[x - 1].name == name)
    {
      if act[q].name == name {
        var index := q + 1;
        clause := clause + [index];
        alreadyAdded' := alreadyAdded' + [index];
        if act[q].deps != [] {
          var newClause := AppendChildVars(act, [index], act[q].deps);
          clauses' := clauses' + [newClause];
        }
      }
      q := q + 1;
    }
    var combinations := Pow2(|clause|);
    var m := 0;
    while m < combinations
      invariant m <= combinations
      invariant clauses' == clauses + GroupImplications(act, name, |act|) + OneHot(clause, m)
    {
      var skip, newClause := BlockingFromBits(clause, m);
      if !skip {
        clauses' := clauses' + [newClause];
      }
      m := m + 1;
    }
  }

  /** `already_added` after visiting candidates `0 .. p - 1`: the positions of the
      candidates whose name is shared and was met among the first `p`. */
  predicate AddedBefore(act: seq<Package>, p: nat, alreadyAdded: seq<int>)
    requires p <= |act|
  {
    forall x :: 1 <= x <= |act| ==> (x in alreadyAdded <==> SharedAndSeen(act, x - 1, p))
  }

  /** Candidate `q`'s name is shared, and a candidate of that name is among the first `p`. */
  predicate SharedAndSeen(act: seq<Package>, q: nat, p: nat)
    requires q < |act| && p <= |act|
  {
    CountName(act, act[q].name) > 1 && exists r :: 0 <= r < p && act[r].name == act[q].name
  }

  /** The clauses for a name carried by the single candidate `p`: the unit clause, then,
      when it has children, the same clause with its literal negated and the children's
      variables appended. */
  method EncodeSingle(act: seq<Package>, p: nat) returns (cls: seq<Clause>)
    requires p < |act| && CountName(act, act[p].name) == 1
    ensures cls == StepClauses(act, p)
  {
    var clause := [p + 1];
    cls := [clause];
    if act[p].deps != [] {
      clause := clause[0 := clause[0] * -1];
      assert clause == [-(p + 1)];
      clause := AppendChildVars(act, clause, act[p].deps);
      cls := cls + [clause];
    }
  }

  lemma AddedAfterSingle(act: seq<Package>, p: nat, alreadyAdded: seq<int>)
    requires p < |act| && CountName(act, act[p].name) == 1 && AddedBefore(act, p, alreadyAdded)
    ensures AddedBefore(act, p + 1, alreadyAdded)
  {
    forall x | 1 <= x <= |act| ensures x in alreadyAdded <==> SharedAndSeen(act, x - 1, p + 1) {
      if act[x - 1].name == act[p].name {
        if x - 1 != p { CountUpToPositive(act, act[p].name, |act|, p); }
        assert !SharedAndSeen(act, x - 1, p + 1);
        assert !SharedAndSeen(act, x - 1, p);
      } else {
        assert SharedAndSeen(act, x - 1, p + 1) <==> SharedAndSeen(act, x - 1, p);
      }
    }
  }

  lemma AddedAfterGroup(act: seq<Package>, p: nat, alreadyAdded: seq<int>, alreadyAdded': seq<int>)
    requires p < |act| && CountName(act, act[p].name) > 1 && AddedBefore(act, p, alreadyAdded)
    requires forall x :: x in alreadyAdded' <==> x in alreadyAdded || (1 <= x <= |act| && act[x - 1].name == act[p].name)
    ensures AddedBefore(act, p + 1, alreadyAdded')
  {
    forall x | 1 <= x <= |act| ensures x in alreadyAdded' <==> SharedAndSeen(act, x - 1, p + 1) {
      if act[x - 1].name == act[p].name {
        assert x in alreadyAdded';
        assert SharedAndSeen(act, x - 1, p + 1);
      } else {
        assert x in alreadyAdded' <==> x in alreadyAdded;
        assert SharedAndSeen(act, x - 1, p + 1) <==> SharedAndSeen(act, x - 1, p);
      }
    }
  }

  lemma AddedAfterSkip(act: seq<Package>, p: nat, alreadyAdded: seq<int>)
    requires p < |act| && p + 1 in alreadyAdded && AddedBefore(act, p, alreadyAdded)
    ensures EarlierSameName(act, p)
    ensures AddedBefore(act, p + 1, alreadyAdded)
  {
    assert SharedAndSeen(act, p, p);
    var r0 :| 0 <= r0 < p && act[r0].name == act[p].name;
    forall x | 1 <= x <= |act| ensures x in alreadyAdded <==> SharedAndSeen(act, x - 1, p + 1) {
      if act[x - 1].name == act[p].name {
        assert act[r0].name == act[x - 1].name;
        assert SharedAndSeen(act, x - 1, p + 1) <==> SharedAndSeen(act, x - 1, p);
      } else {
        assert SharedAndSeen(act, x - 1, p + 1) <==> SharedAndSeen(act, x - 1, p);
      }
    }
  }

  lemma StepMulti(act: seq<Package>, p: nat)
    requires p < |act| && CountName(act, act[p].name) > 1 && !EarlierSameName(act, p)
    ensures StepClauses(act, p) ==
            GroupImplications(act, act[p].name, |act|) +
            OneHot(Positions(act, act[p].name, |act|), Pow2(CountName(act, act[p].name)))
  {
  }

  /** One visit of the outer loop: skip a candidate whose position is in `already_added`,
      otherwise encode its name group. */
  method EncodeVisit(act: seq<Package>, p: nat, clauses: seq<Clause>, alreadyAdded: seq<int>)
    returns (clauses': seq<Clause>, alreadyAdded': seq<int>)
    requires p < |act| && AddedBefore(act, p, alreadyAdded)
    ensures clauses' == clauses + StepClauses(act, p)
    ensures AddedBefore(act, p + 1, alreadyAdded')
  {
    clauses', alreadyAdded' := clauses, alreadyAdded;
    var name := act[p].name;
    if p + 1 !in alreadyAdded {
      var c := CountName(act, name);
      if c == 1 {
        var cls := EncodeSingle(act, p);
        clauses' := clauses + cls;
        AddedAfterSingle(act, p, alreadyAdded);
      } else if c > 1 {
        assert !SharedAndSeen(act, p, p);
        assert !EarlierSameName(act, p);
        clauses', alreadyAdded' := EncodeGroup(act, name, clauses, alreadyAdded);
        StepMulti(act, p);
        AddedAfterGroup(act, p, alreadyAdded, alreadyAdded');
      } else {
        CountUpToPositive(act, name, |act|, p);
      }
    } else {
      AddedAfterSkip(act, p, alreadyAdded);
      LaterOccurrenceAddsNothing(act, p);
    }
  }

  /** The outer loop of `backtrack_loop`: the clause list it builds is `Encoding(act)`. */
  method EncodeClauses(act: seq<Package>) returns (clauses: seq<Clause>)
    ensures clauses == Encoding(act)
  {
    clauses := [];
    var alreadyAdded: seq<int> := [];
    var p := 0;
    while p < |act|
      invariant p <= |act|
      invariant clauses == EncodingUpTo(act, p)
      invariant AddedBefore(act, p, alreadyAdded)
    {
      clauses, alreadyAdded := EncodeVisit(act, p, clauses, alreadyAdded);
      EncodingStep(act, p);
      p := p + 1;
    }
  }

  // ---------------------------------------------------------------------------------
  // Solving and extraction

  /** The set of variables an assignment makes true. */
  function TrueSet(asg: seq<int>): set<int>
  {
    set i | 0 <= i < |asg| && asg[i] > 0 :: asg[i]
  }

  /** Extraction reads `deps.activated[a]` for every positive `a`: it stays inside the
      list only when no true variable is `|act|` or more. */
  predicate InRange(asg: seq<int>, n: nat)
  {
    forall i :: 0 <= i < |asg| && asg[i] > 0 ==> asg[i] < n
  }

  /** The candidates extraction picks: `act[a]` for each positive literal `a`, in order. */
  function Chosen(act: seq<Package>, asg: seq<int>): (r: seq<Package>)
    requires InRange(asg, |act|)
    ensures |r| <= |asg|
  {
    if asg == [] then []
    else Chosen(act, asg[..|asg| - 1]) + (if asg[|asg| - 1] > 0 then [act[asg[|asg| - 1]]] else [])
  }

  /** The number of positive literals. */
  function Positives(asg: seq<int>): nat
  {
    if asg == [] then 0 else Positives(asg[..|asg| - 1]) + (if asg[|asg| - 1] > 0 then 1 else 0)
  }

  /** Each positive literal contributes one candidate, and the candidate it contributes for
      the literal `a` is `act[a]`, the one numbered `a + 1` in the formula. */
  lemma ChosenShape(act: seq<Package>, asg: seq<int>)
    requires InRange(asg, |act|)
    ensures |Chosen(act, asg)| == Positives(asg)
    ensures forall p :: p in Chosen(act, asg) <==> exists i :: 0 <= i < |asg| && asg[i] > 0 && p == act[asg[i]]
  {
    ChosenLength(act, asg);
    ChosenMembers(act, asg);
  }

  lemma {:induction false} ChosenLength(act: seq<Package>, asg: seq<int>)
    requires InRange(asg, |act|)
    ensures |Chosen(act, asg)| == Positives(asg)
  {
    if asg != [] {
      ChosenLength(act, asg[..|asg| - 1]);
    }
  }

  lemma {:induction false} ChosenMembers(act: seq<Package>, asg: seq<int>)
    requires InRange(asg, |act|)
    ensures forall p :: p in Chosen(act, asg) <==> exists i :: 0 <= i < |asg| && asg[i] > 0 && p == act[asg[i]]
  {
    if asg != [] {
      var init, n := asg[..|asg| - 1], |asg| - 1;
      ChosenMembers(act, init);
      var tail := if asg[n] > 0 then [act[asg[n]]] else [];
      assert Chosen(act, asg) == Chosen(act, init) + tail;
      forall p | p in Chosen(act, asg) ensures exists i :: 0 <= i < |asg| && asg[i] > 0 && p == act[asg[i]] {
        if p in Chosen(act, init) {
          var i :| 0 <= i < |init| && init[i] > 0 && p == act[init[i]];
          assert asg[i] == init[i];
        } else {
          assert p in tail;
        }
      }
      forall p, i | 0 <= i < |asg| && asg[i] > 0 && p == act[asg[i]] ensures p in Chosen(act, asg) {
        if i < n {
          assert init[i] == asg[i];
          assert p in Chosen(act, init);
        } else {
          assert p in tail;
        }
      }
    }
  }

  /** The loop over the assignment: each positive literal `a` appends `act[a]` and pins
      its name; the pin map is that of the extracted list. */
  method Extract(act: seq<Package>, asg: seq<int>) returns (r: Resolved)
    requires InRange(asg, |act|)
    ensures r.activated == Chosen(act, asg)
    ensures r.backtracked == Pins(r.activated)
  {
    r := Resolved([], map[]);
    var k := 0;
    while k < |asg|
      invariant k <= |asg|
      invariant r.activated == Chosen(act, asg[..k])
      invariant r.backtracked == Pins(r.activated)
    {
      var a := asg[k];
      assert asg[..k + 1][..k] == asg[..k];
      if a > 0 {
        var dep := act[a];
        PinsSnoc(r.activated, dep);
        r := Resolved(r.activated + [dep], r.backtracked[dep.name := PinOf(dep)]);
      }
      k := k + 1;
    }
    assert asg[..k] == asg;
  }

  /** `backtrack_loop`: encode, hand `|act|` variables and the clauses to the solver, throw
      unless it reports `completed`, and extract. */
  method BacktrackLoop(deps: Resolved, solve: Formula -> Solution) returns (r: Result<Resolved, Error>)
    requires var s := solve(Formula(Encoding(deps.activated), |deps.activated|));
             s.status == Completed ==> InRange(s.assignments, |deps.activated|)
    ensures var s := solve(Formula(Encoding(deps.activated), |deps.activated|));
            (r.Err? <==> s.status != Completed) &&
            (r.Err? ==> r.error == CouldNotSolve) &&
            (r.Ok? ==> r.value.activated == Chosen(deps.activated, s.assignments) &&
                       r.value.backtracked == Pins(r.value.activated))
  {
    var clauses := EncodeClauses(deps.activated);
    var formula := Formula(clauses, |deps.activated|);
    var solution := solve(formula);
    if solution.status == Completed {
      var resolved := Extract(deps.activated, solution.assignments);
      r := Ok(resolved);
    } else {
      r := Err(CouldNotSolve);
    }
  }

  /** The off-by-one in extraction is hit by every correct solver run in which the last
      candidate is the only one of its name (as the last top-level candidate usually is):
      the unit clause forces variable `|act|` true, and `act[|act|]` is past the end. */
  lemma LastSoleCandidateOutOfRange(act: seq<Package>, s: Solution)
    requires |act| > 0 && CountName(act, act[|act| - 1].name) == 1
    requires s.status == Completed && Satisfies(Encoding(act), TrueSet(s.assignments))
    ensures !InRange(s.assignments, |act|)
  {
    EncodingSound(act, TrueSet(s.assignments));
    assert |act| in TrueSet(s.assignments);
  }
}
