/**
 * The top-level driver `resolve` (include/poac/core/resolver.hpp, lines 382-414): split
 * the requirements by source, activate the registry ones, pin them directly or through
 * the solver, and append the others verbatim.
 */
module Resolver {
  import opened Wrappers
  import opened Model
  import opened Versions
  import opened Expansion
  import opened Cnf
  import opened Backtrack

  /** The requirements whose source is the registry, in order (`poac_deps`). */
  function PoacDeps(deps: seq<Dep>): seq<Dep>
  {
    if deps == [] then []
    else PoacDeps(deps[..|deps| - 1]) + (if deps[|deps| - 1].source == Poac then [deps[|deps| - 1]] else [])
  }

  /** The other requirements, in order (`others_deps`). */
  function OtherDeps(deps: seq<Dep>): seq<Dep>
  {
    if deps == [] then []
    else OtherDeps(deps[..|deps| - 1]) + (if deps[|deps| - 1].source != Poac then [deps[|deps| - 1]] else [])
  }

  /** The candidates `{name, interval, source, {}}` the merge appends for `others`. */
  function Verbatim(others: seq<Dep>): (r: seq<Package>)
    ensures |r| == |others|
    ensures forall k :: 0 <= k < |others| ==>
              r[k] == Package(others[k].name, others[k].interval, others[k].source, [])
  {
    seq(|others|, k requires 0 <= k < |others| =>
      Package(others[k].name, others[k].interval, others[k].source, []))
  }

  /** The split sends every requirement to exactly one side. */
  lemma {:induction false} PartitionCount(deps: seq<Dep>)
    ensures multiset(PoacDeps(deps)) + multiset(OtherDeps(deps)) == multiset(deps)
  {
    if deps != [] {
      var init := deps[..|deps| - 1];
      var last := deps[|deps| - 1];
      PartitionCount(init);
      assert deps == init + [last];
      assert multiset(deps) == multiset(init) + multiset{last};
    }
  }

  /** Each side holds only requirements with its source. */
  lemma {:induction false} PartitionSources(deps: seq<Dep>)
    ensures forall d :: d in PoacDeps(deps) ==> d.source == Poac
    ensures forall d :: d in OtherDeps(deps) ==> d.source != Poac
  {
    if deps != [] {
      PartitionSources(deps[..|deps| - 1]);
    }
  }

  /** A registry requirement is on the registry side. */
  lemma PoacDepsMember(deps: seq<Dep>, d: Dep)
    requires d in deps && d.source == Poac
    ensures d in PoacDeps(deps)
  {
    PartitionCount(deps);
    PartitionSources(deps);
    assert d in multiset(deps);
  }

  /** A requirement of the registry side is a registry requirement of `deps`. */
  lemma PoacRequirement(deps: seq<Dep>, i: int)
    requires 0 <= i < |PoacDeps(deps)|
    ensures PoacDeps(deps)[i] in deps && PoacDeps(deps)[i].source == Poac
  {
    PartitionCount(deps);
    PartitionSources(deps);
    assert PoacDeps(deps)[i] in multiset(PoacDeps(deps));
  }

  /** `(name, interval)` is the requirement of a registry dependency of `deps`. */
  predicate RegistryRequirement(deps: seq<Dep>, name: string, interval: string)
  {
    exists d :: d in deps && d.source == Poac && d.name == name && d.interval == interval
  }

  /** `p`'s version is one `decide_versions` picks for a registry dependency of `deps`. */
  predicate ChosenForRequirement(reg: Registry, deps: seq<Dep>, p: Package)
    requires reg.Valid()
  {
    exists d :: d in deps && d.source == Poac && d.name == p.name &&
      DecideVersions(reg, d.name, d.interval).Ok? && p.version in DecideVersions(reg, d.name, d.interval).value
  }

  /** A pair offered for the registry side's requirements is chosen for a registry
      dependency of `deps`. */
  lemma OfferedForRequirement(reg: Registry, deps: seq<Dep>, p: Package)
    requires reg.Valid() && (p.name, p.version) in Offered(reg, Reqs(PoacDeps(deps)))
    ensures ChosenForRequirement(reg, deps, p)
  {
    var reqs := Reqs(PoacDeps(deps));
    var r, v :| r in reqs && DecideVersions(reg, r.0, r.1).Ok? && v in DecideVersions(reg, r.0, r.1).value
                && (p.name, p.version) == (r.0, v);
    var i :| 0 <= i < |reqs| && reqs[i] == r;
    PoacRequirement(deps, i);
  }

  /** With every child covered by a registry candidate of the list, every child is `==`
      to a candidate, so the clause encoding only names the `|act|` variables. */
  lemma ClosedChildrenFound(reg: Registry, act: seq<Package>)
    requires forall p :: p in act ==> WellFormedNode(reg, p)
    requires forall i, c :: 0 <= i < |act| && c in act[i].deps ==> Covered(c, act)
    ensures ChildrenFound(act)
    ensures LiteralsIn(Encoding(act), |act|)
  {
    forall p, c | 0 <= p < |act| && c in act[p].deps ensures FindIndex(act, c) < |act| {
      assert act[p] in act;
      assert FromRegistry(reg, c);
      assert Covered(c, act);
      var i :| 0 <= i < |act| && SameNameVersion(act[i], c);
      assert act[i] in act;
      assert SamePackage(act[i], c);
    }
    EncodingLiterals(act);
  }

  /** The merge: a later write for the same name wins, so the last other requirement of
      a name pins that name to its interval and source, whatever the registry side chose. */
  lemma OtherPinWins(picked: seq<Package>, others: seq<Dep>, k: int)
    requires 0 <= k < |others|
    requires forall j :: k < j < |others| ==> others[j].name != others[k].name
    ensures var pins := Pins(picked + Verbatim(others));
            others[k].name in pins && pins[others[k].name] == MiniPackage(others[k].interval, others[k].source)
  {
    var all := picked + Verbatim(others);
    assert all[|picked| + k] == Package(others[k].name, others[k].interval, others[k].source, []);
    forall j | |picked| + k < j < |all| ensures all[j].name != all[|picked| + k].name {
      assert all[j] == Verbatim(others)[j - |picked|];
    }
    PinsLastWins(all, |picked| + k);
  }

  /** The loop dividing the requirements by source. */
  method Split(deps: seq<Dep>) returns (poacDeps: seq<Dep>, othersDeps: seq<Dep>)
    ensures poacDeps == PoacDeps(deps) && othersDeps == OtherDeps(deps)
  {
    poacDeps, othersDeps := [], [];
    var i := 0;
    while i < |deps|
      invariant 0 <= i <= |deps|
      invariant poacDeps == PoacDeps(deps[..i]) && othersDeps == OtherDeps(deps[..i])
    {
      assert deps[..i + 1][..i] == deps[..i];
      if deps[i].source == Poac {
        poacDeps := poacDeps + [deps[i]];
      } else {
        othersDeps := othersDeps + [deps[i]];
      }
      i := i + 1;
    }
    assert deps[..i] == deps;
  }

  /** The loop merging the other requirements: each is appended verbatim and pins its
      name to its interval and source, so a map induced by the list stays induced by it. */
  method MergeOthers(resolved: Resolved, others: seq<Dep>) returns (r: Resolved)
    ensures r.activated == resolved.activated + Verbatim(others)
    ensures resolved.backtracked == Pins(resolved.activated) ==> r.backtracked == Pins(r.activated)
  {
    r := resolved;
    var k := 0;
    while k < |others|
      invariant 0 <= k <= |others|
      invariant r.activated == resolved.activated + Verbatim(others[..k])
      invariant resolved.backtracked == Pins(resolved.activated) ==> r.backtracked == Pins(r.activated)
    {
      var dep := others[k];
      var pkg := Package(dep.name, dep.interval, dep.source, []);
      assert Verbatim(others[..k + 1]) == Verbatim(others[..k]) + [pkg];
      PinsSnoc(r.activated, pkg);
      r := Resolved(r.activated + [pkg], r.backtracked[dep.name := MiniPackage(dep.interval, dep.source)]);
      k := k + 1;
    }
    assert others[..k] == others;
  }

  /**
   * `resolve(deps)`. The solver is a parameter; extraction reads `activated[a]` for
   * each true variable `a` without a bound check, so a completed answer with a true
   * variable at or past the number of candidates (see `LastSoleCandidateOutOfRange`
   * for a satisfying answer that has one) ends in `PastEnd`, the undefined read.
   * `candidates` is the activation result.
   *
   * The pin map is always the one the final list induces; the registry side is the
   * candidate list itself when no name repeats and the solver's choice otherwise; the
   * other requirements follow verbatim. Every candidate is well-formed, every child is
   * a candidate (so the formula only names existing variables), every version chosen
   * for a registry requirement is activated, and an unknown registry requirement is an
   * error.
   */
  method Resolve(reg: Registry, deps: seq<Dep>, solve: Formula -> Solution)
    returns (r: Result<Resolved, Error>, ghost candidates: seq<Package>)
    requires reg.Valid()
    ensures (exists d :: d in deps && d.source == Poac && DecideVersions(reg, d.name, d.interval).Err?) ==>
              r.Err?
    ensures r.Err? ==> r.error.NotFound? || r.error == CouldNotSolve || r.error == PastEnd
    ensures r.Err? && r.error.NotFound? ==>
              && DecideVersions(reg, r.error.name, r.error.interval).Err?
              && (RegistryRequirement(deps, r.error.name, r.error.interval) ||
                  FailsUnder(reg, (r.error.name, r.error.interval), Offered(reg, Reqs(PoacDeps(deps)))))
    ensures r.Err? && r.error == CouldNotSolve ==>
              DuplicateLoose(candidates) &&
              solve(Formula(Encoding(candidates), |candidates|)).status != Completed
    ensures var s := solve(Formula(Encoding(candidates), |candidates|));
            (r.Err? && r.error == PastEnd) <==>
              DuplicateLoose(candidates) && s.status == Completed && !InRange(s.assignments, |candidates|)
    ensures r.Ok? ==> r.value.backtracked == Pins(r.value.activated)
    ensures r.Ok? && !DuplicateLoose(candidates) ==>
              r.value.activated == candidates + Verbatim(OtherDeps(deps))
    ensures r.Ok? && DuplicateLoose(candidates) ==>
              var s := solve(Formula(Encoding(candidates), |candidates|));
              s.status == Completed && InRange(s.assignments, |candidates|) &&
              r.value.activated == Chosen(candidates, s.assignments) + Verbatim(OtherDeps(deps))
    ensures r.Ok? ==> forall p :: p in candidates ==> WellFormedNode(reg, p)
    ensures r.Ok? ==> LiteralsIn(Encoding(candidates), |candidates|)
    ensures r.Ok? ==>
              forall d, v ::
                d in deps && d.source == Poac && v in DecideVersions(reg, d.name, d.interval).value ==>
                  Covered(Leaf(d.name, v), candidates)
    ensures r.Ok? ==>
              forall p :: p in candidates ==> ChosenForRequirement(reg, deps, p) || Reached(reg, candidates, p)
  {
    candidates := [];
    var poacDeps, othersDeps := Split(deps);

    var activated := ActivateDepsLoop(reg, poacDeps);
    if activated.Err? {
      if d :| d in deps && d.source == Poac && DecideVersions(reg, d.name, d.interval).Err? {
        PoacDepsMember(deps, d);
      }
      var e := activated.error;
      if (e.name, e.interval) in Reqs(poacDeps) {
        var i :| 0 <= i < |poacDeps| && Reqs(poacDeps)[i] == (e.name, e.interval);
        PoacRequirement(deps, i);
      }
      return Err(activated.error), candidates;
    }
    candidates := activated.value.activated;
    forall d | d in deps && d.source == Poac ensures d in poacDeps {
      PoacDepsMember(deps, d);
    }
    ClosedChildrenFound(reg, candidates);
    forall p | p in candidates && !Reached(reg, candidates, p)
      ensures ChosenForRequirement(reg, deps, p)
    {
      OfferedForRequirement(reg, deps, p);
    }

    var resolved: Resolved;
    if DuplicateLoose(activated.value.activated) {
      var act := activated.value.activated;
      var s := solve(Formula(Encoding(act), |act|));
      if s.status == Completed && !InRange(s.assignments, |act|) {
        return Err(PastEnd), candidates;
      }
      var bt := BacktrackLoop(activated.value, solve);
      if bt.Err? {
        return Err(bt.error), candidates;
      }
      resolved := bt.value;
    } else {
      resolved := ActivatedToBacktracked(activated.value);
    }

    // The requirements from other sources join the result unchanged.
    resolved := MergeOthers(resolved, othersDeps);
    return Ok(resolved), candidates;
  }
}
