/**
 * Candidate graph expansion: `activate` and `activate_deps_loop`
 * (include/poac/core/resolver.hpp, lines 313-379).
 *
 * The C++ code threads two lists by reference through the recursion: the flat list of
 * activated candidates (`new_deps.activated`) and the parent's child list
 * (`activated_deps`). Here both are passed in and handed back in an `Activation`; the
 * ancestor list (`prev_activated_deps`) is a by-value parameter in the source and stays
 * an input. The registry replaces `decide_versions`' network calls and `get_deps_api`.
 * A thrown `"not found"` error is an `Err` result.
 */
module Expansion {
  import opened Wrappers
  import opened Model
  import opened Versions
  import opened Dedup

  /** The two lists the recursion appends to. */
  datatype Activation = Activation(activated: seq<Package>, children: seq<Package>)

  /** The leaf candidates `{name, v, "poac", {}}` for the versions `vs`, in order. */
  function Leaves(name: string, vs: seq<string>): (r: seq<Package>)
    ensures |r| == |vs| && forall k :: 0 <= k < |vs| ==> r[k] == Leaf(name, vs[k])
  {
    seq(|vs|, k requires 0 <= k < |vs| => Leaf(name, vs[k]))
  }

  /** The measure of the recursion: the published (name, version) pairs not yet on the
      ancestor list. The registry is finite, so the recursion terminates. */
  function Unvisited(reg: Registry, anc: seq<Package>): nat
  {
    |Universe(reg) - PairSet(anc)|
  }

  /**
   * What an appended candidate looks like: a published version with the registry
   * source, whose children are leaves made from published versions, each a version
   * `decide_versions` returns for a requirement of its manifest, with the first such
   * version of every requirement among them, and none when the registry has no
   * manifest for it.
   */
  predicate WellFormedNode(reg: Registry, p: Package)
  {
    && FromRegistry(reg, p)
    && (forall c :: c in p.deps ==> FromRegistry(reg, c) && c.deps == [])
    && ChildrenDecided(reg, ManifestOf(reg, p), |ManifestOf(reg, p)|, p.deps)
  }

  /** The child `c` carries the name of the requirement `req` and a version
      `decide_versions` returns for it. */
  predicate DecidedLeaf(reg: Registry, req: (string, string), c: Package)
  {
    && reg.Valid()
    && c.name == req.0
    && DecideVersions(reg, req.0, req.1).Ok?
    && c.version in DecideVersions(reg, req.0, req.1).value
  }

  /** The leaf of the first version `decide_versions` returns for `req` is among `children`:
      `activate` records it before either guard can stop the loop. */
  predicate FirstDecided(reg: Registry, req: (string, string), children: seq<Package>)
  {
    && reg.Valid()
    && DecideVersions(reg, req.0, req.1).Ok?
    && Leaf(req.0, DecideVersions(reg, req.0, req.1).value[0]) in children
  }

  /** The child list made for the requirements `reqs[..n]`: every child is a decided
      version of one of them, and each of them contributed its first decided version. */
  predicate ChildrenDecided(reg: Registry, reqs: seq<(string, string)>, n: int, children: seq<Package>)
    requires 0 <= n <= |reqs|
  {
    && (forall c :: c in children ==> exists m :: 0 <= m < n && DecidedLeaf(reg, reqs[m], c))
    && (forall m :: 0 <= m < n ==> FirstDecided(reg, reqs[m], children))
  }

  /** A node whose manifest requires `b` at an interval only `b@1` satisfies cannot carry
      the leaf `b@2` instead, nor leave `b` out. */
  lemma WrongChildRejected(reg: Registry)
    requires reg.versions == map["a" := ["1"], "b" := ["1", "2"]]
    requires reg.manifests == map[("a", "1") := [("b", "one")]]
    requires forall v :: reg.satisfies("b", "one", v) <==> v == "1"
    ensures !WellFormedNode(reg, Package("a", "1", Poac, [Leaf("b", "2")]))
    ensures !WellFormedNode(reg, Package("a", "1", Poac, []))
    ensures WellFormedNode(reg, Package("a", "1", Poac, [Leaf("b", "1")]))
  {
    var req := ("b", "one");
    assert ManifestOf(reg, Package("a", "1", Poac, [])) == [req];
    assert reg.Valid();
    var d := DecideVersions(reg, "b", "one");
    assert reg.satisfies("b", "one", "1");
    assert d.Ok? && d.value[0] in d.value;
    assert !FirstDecided(reg, [req][0], []);
    assert !ChildrenDecided(reg, [req], 1, []);
    assert !DecidedLeaf(reg, req, Leaf("b", "2"));
    assert Leaf("b", "1") in [Leaf("b", "1")];
    assert DecidedLeaf(reg, req, Leaf("b", "1"));
  }

  /** Every child of the candidates `act[lo..hi]` has its name and version somewhere in
      `act` or on the list `anc`. */
  predicate ChildrenCovered(act: seq<Package>, lo: int, hi: int, anc: seq<Package>)
    requires 0 <= lo <= hi <= |act|
  {
    forall i, c :: lo <= i < hi && c in act[i].deps ==> Covered(c, act) || Covered(c, anc)
  }

  /** `after` extends `before` with well-formed candidates whose children are found in
      `after` or on the ancestor list `anc`. */
  predicate Grown(reg: Registry, before: seq<Package>, after: seq<Package>, anc: seq<Package>)
  {
    && before <= after
    && (forall i :: |before| <= i < |after| ==> WellFormedNode(reg, after[i]))
    && ChildrenCovered(after, |before|, |after|, anc)
  }

  // ---------------------------------------------------------------------------------
  // Facts about `Covered`, `Grown` and the measure.

  lemma CoveredPairSet(p: Package, list: seq<Package>)
    ensures Covered(p, list) <==> (p.name, p.version) in PairSet(list)
  {
    if (p.name, p.version) in PairSet(list) {
      var q :| q in list && (q.name, q.version) == (p.name, p.version);
      var i :| 0 <= i < |list| && list[i] == q;
    }
  }

  lemma CoveredPrefix(p: Package, a: seq<Package>, b: seq<Package>)
    requires a <= b && Covered(p, a)
    ensures Covered(p, b)
  {
    var i :| 0 <= i < |a| && SameNameVersion(a[i], p);
    assert b[i] == a[i];
  }

  lemma CoveredAppend(p: Package, a: seq<Package>, b: seq<Package>)
    ensures Covered(p, a + b) <==> Covered(p, a) || Covered(p, b)
  {
    if Covered(p, a + b) {
      var i :| 0 <= i < |a + b| && SameNameVersion((a + b)[i], p);
      if i >= |a| {
        assert b[i - |a|] == (a + b)[i];
      }
    }
    if Covered(p, a) {
      var i :| 0 <= i < |a| && SameNameVersion(a[i], p);
      assert (a + b)[i] == a[i];
    }
    if Covered(p, b) {
      var i :| 0 <= i < |b| && SameNameVersion(b[i], p);
      assert (a + b)[|a| + i] == b[i];
    }
  }

  lemma CoveredLast(a: seq<Package>, p: Package)
    ensures Covered(p, a + [p])
  {
    assert (a + [p])[|a|] == p;
  }

  /** Extending the list keeps earlier children covered. */
  lemma ChildrenCoveredGrow(a: seq<Package>, b: seq<Package>, lo: int, hi: int, anc: seq<Package>)
    requires 0 <= lo <= hi <= |a| && a <= b && ChildrenCovered(a, lo, hi, anc)
    ensures ChildrenCovered(b, lo, hi, anc)
  {
    forall i, c | lo <= i < hi && c in b[i].deps
      ensures Covered(c, b) || Covered(c, anc)
    {
      assert b[i] == a[i];
      if Covered(c, a) {
        CoveredPrefix(c, a, b);
      }
    }
  }

  /** Appending a node whose children are covered keeps the stretch from `lo` covered. */
  lemma ChildrenCoveredSnoc(nd: seq<Package>, node: Package, lo: int, anc: seq<Package>)
    requires 0 <= lo <= |nd| && ChildrenCovered(nd, lo, |nd|, anc)
    requires forall c :: c in node.deps ==> Covered(c, nd) || Covered(c, anc)
    ensures ChildrenCovered(nd + [node], lo, |nd| + 1, anc)
  {
    var nd' := nd + [node];
    ChildrenCoveredGrow(nd, nd', lo, |nd|, anc);
    forall i, c | lo <= i < |nd'| && c in nd'[i].deps ensures Covered(c, nd') || Covered(c, anc) {
      if i == |nd| && Covered(c, nd) {
        CoveredPrefix(c, nd, nd');
      }
    }
  }

  /** An ancestor list `anc + extra` can be shortened to `anc` once every entry of
      `extra` is itself covered by the list or by `anc`. */
  lemma ChildrenCoveredDrop(act: seq<Package>, lo: int, hi: int, anc: seq<Package>, extra: seq<Package>)
    requires 0 <= lo <= hi <= |act| && ChildrenCovered(act, lo, hi, anc + extra)
    requires forall e :: e in extra ==> Covered(e, act) || Covered(e, anc)
    ensures ChildrenCovered(act, lo, hi, anc)
  {
    forall i, c | lo <= i < hi && c in act[i].deps
      ensures Covered(c, act) || Covered(c, anc)
    {
      if !Covered(c, act) {
        CoveredAppend(c, anc, extra);
        if Covered(c, extra) {
          var k :| 0 <= k < |extra| && SameNameVersion(extra[k], c);
          assert extra[k] in extra;
        }
      }
    }
  }

  lemma GrownTrans(reg: Registry, a: seq<Package>, b: seq<Package>, c: seq<Package>, anc: seq<Package>)
    requires Grown(reg, a, b, anc) && Grown(reg, b, c, anc)
    ensures Grown(reg, a, c, anc)
  {
    ChildrenCoveredGrow(b, c, |a|, |b|, anc);
  }

  /** Putting a pair that is published and not yet visited on the ancestor list makes
      the measure smaller. */
  lemma UnvisitedShrinks(reg: Registry, prev: seq<Package>, anc: seq<Package>, p: Package)
    requires PairSet(prev) <= PairSet(anc)
    requires p.name in reg.versions && p.version in reg.versions[p.name]
    requires !Covered(p, prev) && Covered(p, anc)
    ensures Unvisited(reg, anc) < Unvisited(reg, prev)
  {
    CoveredPairSet(p, prev);
    CoveredPairSet(p, anc);
    var x := (p.name, p.version);
    var u := Universe(reg);
    assert x in u;
    var smaller := u - PairSet(prev) - {x};
    assert u - PairSet(anc) <= smaller;
    SubsetCard(u - PairSet(anc), smaller);
    assert u - PairSet(prev) == smaller + {x};
  }

  lemma {:induction false} SubsetCard<T>(a: set<T>, b: set<T>)
    requires a <= b
    ensures |a| <= |b|
    decreases |b|
  {
    if b != {} {
      var y :| y in b;
      SubsetCard(a - {y}, b - {y});
    }
  }

  lemma PairSetAppend(a: seq<Package>, b: seq<Package>)
    ensures PairSet(a + b) == PairSet(a) + PairSet(b)
  {
    assert forall p :: p in a + b <==> p in a || p in b;
  }

  // ---------------------------------------------------------------------------------
  // Where a "not found" error comes from.

  /** The error is `decide_versions` failing on one of the requirements `reqs`, or on a
      requirement of the manifest of a pair reached from them, and carries that
      requirement. */
  ghost predicate FailedLookup(reg: Registry, e: Error, reqs: seq<(string, string)>)
    requires reg.Valid()
  {
    && e.NotFound?
    && DecideVersions(reg, e.name, e.interval).Err?
    && ((e.name, e.interval) in reqs || FailsUnder(reg, (e.name, e.interval), Offered(reg, reqs)))
  }

  /** The error is `decide_versions` failing on a requirement of the manifest of a pair
      reached from the pairs `start`, and carries that requirement. */
  ghost predicate FailedBelow(reg: Registry, e: Error, start: set<(string, string)>)
    requires reg.Valid()
  {
    && e.NotFound?
    && DecideVersions(reg, e.name, e.interval).Err?
    && FailsUnder(reg, (e.name, e.interval), start)
  }

  /** The requirement `req` is listed by the manifest at the end of a chain from `start`. */
  ghost predicate FailsUnder(reg: Registry, req: (string, string), start: set<(string, string)>)
    requires reg.Valid()
  {
    exists path :: Chain(reg, start, path) && req in ManifestAt(reg, path[|path| - 1])
  }

  /** A chain of pairs from `start`: each next pair is picked by `decide_versions` for a
      requirement of the manifest of the one before. */
  ghost predicate Chain(reg: Registry, start: set<(string, string)>, path: seq<(string, string)>)
    requires reg.Valid()
    ensures Chain(reg, start, path) ==> |path| > 0
    decreases |path|
  {
    && |path| > 0
    && path[0] in start
    && (|path| > 1 ==> Chain(reg, Offered(reg, ManifestAt(reg, path[0])), path[1..]))
  }

  /** The (name, interval) pairs of the top-level requirements. */
  function Reqs(deps: seq<Dep>): (r: seq<(string, string)>)
    ensures |r| == |deps| && forall i :: 0 <= i < |deps| ==> r[i] == (deps[i].name, deps[i].interval)
  {
    seq(|deps|, i requires 0 <= i < |deps| => (deps[i].name, deps[i].interval))
  }

  // ---------------------------------------------------------------------------------
  // Why a candidate is on the list.

  /** The (name, version) pairs `decide_versions` picks for the requirements `reqs`. */
  ghost function Offered(reg: Registry, reqs: seq<(string, string)>): set<(string, string)>
    requires reg.Valid()
  {
    set r, v | r in reqs && DecideVersions(reg, r.0, r.1).Ok? && v in DecideVersions(reg, r.0, r.1).value
      :: (r.0, v)
  }

  /** The requirements of the registry's manifest for `p`'s name and version, if any. */
  function ManifestOf(reg: Registry, p: Package): seq<(string, string)>
  {
    ManifestAt(reg, (p.name, p.version))
  }

  /** The requirements of the registry's manifest for the pair `x`, if any. */
  function ManifestAt(reg: Registry, x: (string, string)): seq<(string, string)>
  {
    if x in reg.manifests then reg.manifests[x] else []
  }

  /** `p`'s pair is picked for a requirement of the manifest of some candidate of `list`. */
  ghost predicate Reached(reg: Registry, list: seq<Package>, p: Package)
    requires reg.Valid()
  {
    exists q :: q in list && (p.name, p.version) in Offered(reg, ManifestOf(reg, q))
  }

  /** Each candidate of `list[lo..hi]` is a pair from `base` or is reached from a
      candidate of `list`. */
  ghost predicate Justified(reg: Registry, list: seq<Package>, lo: int, hi: int, base: set<(string, string)>)
    requires reg.Valid()
  {
    forall i :: lo <= i < hi && 0 <= i < |list| ==>
      (list[i].name, list[i].version) in base || Reached(reg, list, list[i])
  }

  /** A version `decide_versions` returns is offered for its requirement. */
  lemma OfferedPick(reg: Registry, name: string, interval: string, v: string)
    requires reg.Valid()
    requires DecideVersions(reg, name, interval).Ok? && v in DecideVersions(reg, name, interval).value
    ensures (name, v) in Offered(reg, [(name, interval)])
  {
    assert (name, interval) in [(name, interval)];
  }

  /** What is offered for one requirement of `reqs` is offered for `reqs`. */
  lemma OfferedSub(reg: Registry, reqs: seq<(string, string)>, i: int)
    requires reg.Valid() && 0 <= i < |reqs|
    ensures Offered(reg, [reqs[i]]) <= Offered(reg, reqs)
  {
    assert reqs[i] in reqs;
  }

  /** The pairs of one name's versions. */
  ghost function Picked(name: string, vs: seq<string>): set<(string, string)>
  {
    set v | v in vs :: (name, v)
  }

  /** The versions `decide_versions` returns are offered for the requirement. */
  lemma PickedOffered(reg: Registry, name: string, interval: string)
    requires reg.Valid() && DecideVersions(reg, name, interval).Ok?
    ensures Picked(name, DecideVersions(reg, name, interval).value) <= Offered(reg, [(name, interval)])
  {
    forall v | v in DecideVersions(reg, name, interval).value
      ensures (name, v) in Offered(reg, [(name, interval)])
    {
      OfferedPick(reg, name, interval, v);
    }
  }

  /** Growing the list keeps what was justified justified, and a wider base does too. */
  lemma {:induction false} JustifiedGrow(reg: Registry, a: seq<Package>, b: seq<Package>, lo: int, hi: int,
                                         base: set<(string, string)>, base': set<(string, string)>)
    requires reg.Valid() && a <= b && hi <= |a| && base <= base'
    requires Justified(reg, a, lo, hi, base)
    ensures Justified(reg, b, lo, hi, base')
  {
    forall i | lo <= i < hi && 0 <= i < |b| && (b[i].name, b[i].version) !in base'
      ensures Reached(reg, b, b[i])
    {
      assert b[i] == a[i];
      var q :| q in a && (a[i].name, a[i].version) in Offered(reg, ManifestOf(reg, q));
      var j :| 0 <= j < |a| && a[j] == q;
      assert b[j] == q;
    }
  }

  /** The list `nd` justified from `lo`, grown to `nd2` by candidates reached from
      `node`'s manifest, then ended by `node` itself, a pair of `base`. */
  lemma JustifyNode(reg: Registry, lo: int, nd: seq<Package>, nd2: seq<Package>, node: Package,
                    base: set<(string, string)>)
    requires reg.Valid() && lo <= |nd| && nd <= nd2
    requires Justified(reg, nd, lo, |nd|, base)
    requires Justified(reg, nd2, |nd|, |nd2|, Offered(reg, ManifestOf(reg, node)))
    requires (node.name, node.version) in base
    ensures Justified(reg, nd2 + [node], lo, |nd2| + 1, base)
  {
    var c := nd2 + [node];
    var m := Offered(reg, ManifestOf(reg, node));
    JustifiedGrow(reg, nd, c, lo, |nd|, base, base);
    JustifiedGrow(reg, nd2, c, |nd|, |nd2|, m, m);
    assert node == c[|nd2|];
    forall i | |nd| <= i < |nd2| && (c[i].name, c[i].version) !in base
      ensures Reached(reg, c, c[i])
    {
      if !Reached(reg, c, c[i]) {
        assert (c[i].name, c[i].version) in m;
        assert node in c;
      }
    }
  }

  /** Two justified stretches join, the later one on a smaller base. */
  lemma JustifyJoin(reg: Registry, lo: int, nd: seq<Package>, nd2: seq<Package>,
                    base: set<(string, string)>, sub: set<(string, string)>)
    requires reg.Valid() && lo <= |nd| && nd <= nd2 && sub <= base
    requires Justified(reg, nd, lo, |nd|, base)
    requires Justified(reg, nd2, |nd|, |nd2|, sub)
    ensures Justified(reg, nd2, lo, |nd2|, base)
  {
    JustifiedGrow(reg, nd, nd2, lo, |nd|, base, base);
  }

  /** A requirement of the manifest of `x` fails under `{x}`. */
  lemma FailsUnderEntry(reg: Registry, x: (string, string), req: (string, string))
    requires reg.Valid() && req in ManifestAt(reg, x)
    ensures FailsUnder(reg, req, {x})
  {
    assert Chain(reg, {x}, [x]);
  }

  /** Nothing fails under no pairs at all: a manifest entry no chain reaches, however
      it fails, is never the error. */
  lemma FailsUnderEmpty(reg: Registry, req: (string, string))
    requires reg.Valid()
    ensures !FailsUnder(reg, req, {})
  {
  }

  /** A failure under what the manifest of `x` offers is a failure under `{x}`. */
  lemma FailsUnderCons(reg: Registry, x: (string, string), req: (string, string))
    requires reg.Valid() && FailsUnder(reg, req, Offered(reg, ManifestAt(reg, x)))
    ensures FailsUnder(reg, req, {x})
  {
    var path :| Chain(reg, Offered(reg, ManifestAt(reg, x)), path) && req in ManifestAt(reg, path[|path| - 1]);
    var path' := [x] + path;
    assert path'[1..] == path;
    assert Chain(reg, {x}, path');
    assert path'[|path'| - 1] == path[|path| - 1];
  }

  /** A failure under `start` is a failure under any wider set. */
  lemma FailsUnderWiden(reg: Registry, req: (string, string), start: set<(string, string)>,
                        start': set<(string, string)>)
    requires reg.Valid() && start <= start' && FailsUnder(reg, req, start)
    ensures FailsUnder(reg, req, start')
  {
    var path :| Chain(reg, start, path) && req in ManifestAt(reg, path[|path| - 1]);
    assert Chain(reg, start', path);
  }

  /** A failed lookup under the manifest of `x` is a failure below `{x}`. */
  lemma FailedManifest(reg: Registry, e: Error, x: (string, string))
    requires reg.Valid() && FailedLookup(reg, e, ManifestAt(reg, x))
    ensures FailedBelow(reg, e, {x})
  {
    if (e.name, e.interval) in ManifestAt(reg, x) {
      FailsUnderEntry(reg, x, (e.name, e.interval));
    } else {
      FailsUnderCons(reg, x, (e.name, e.interval));
    }
  }

  /** A failed lookup for the requirement `reqs[i]` is a failed lookup for `reqs`. */
  lemma FailedSub(reg: Registry, e: Error, reqs: seq<(string, string)>, i: int)
    requires reg.Valid() && 0 <= i < |reqs| && FailedLookup(reg, e, [reqs[i]])
    ensures FailedLookup(reg, e, reqs)
  {
    if (e.name, e.interval) in [reqs[i]] {
      assert reqs[i] in reqs;
    } else {
      OfferedSub(reg, reqs, i);
      FailsUnderWiden(reg, (e.name, e.interval), Offered(reg, [reqs[i]]), Offered(reg, reqs));
    }
  }

  // ---------------------------------------------------------------------------------
  // The recursion.

  /** `activate`'s two guards at version `vs[j]`: the pair is on the ancestor list as it
      stands at that version (on the caller's list, or an earlier version of this call),
      or it is already on the activated list `snap`. */
  predicate Fires(prev: seq<Package>, name: string, vs: seq<string>, j: int, snap: seq<Package>)
    requires 0 <= j < |vs|
  {
    Covered(Leaf(name, vs[j]), prev) || vs[j] in vs[..j] || Covered(Leaf(name, vs[j]), snap)
  }

  /** The ancestor list at version `vs[k]` holds its pair exactly when the caller's list
      does or an earlier version is the same. */
  lemma CoveredAncestors(prev: seq<Package>, name: string, vs: seq<string>, k: int)
    requires 0 <= k < |vs|
    ensures Covered(Leaf(name, vs[k]), prev + Leaves(name, vs[..k])) <==>
            Covered(Leaf(name, vs[k]), prev) || vs[k] in vs[..k]
  {
    var leaf := Leaf(name, vs[k]);
    CoveredAppend(leaf, prev, Leaves(name, vs[..k]));
    if Covered(leaf, Leaves(name, vs[..k])) {
      var i :| 0 <= i < k && SameNameVersion(Leaves(name, vs[..k])[i], leaf);
      assert vs[..k][i] == vs[k];
    }
    if vs[k] in vs[..k] {
      var i :| 0 <= i < k && vs[..k][i] == vs[k];
      assert SameNameVersion(Leaves(name, vs[..k])[i], leaf);
    }
  }

  /** The last candidate of `list` is the registry node for `name` at version `v`. */
  predicate EndsWithNode(list: seq<Package>, name: string, v: string)
  {
    |list| > 0 && list[|list| - 1].name == name && list[|list| - 1].version == v &&
    list[|list| - 1].source == Poac
  }

  /** The activated list after version `j` of a history ending with `last`. */
  function Next(snaps: seq<seq<Package>>, j: int, last: seq<Package>): seq<Package>
    requires 0 <= j < |snaps|
  {
    if j + 1 < |snaps| then snaps[j + 1] else last
  }

  /** Version `vs[j]` was expanded: neither guard fired against the activated list
      `snaps[j]` found there, and the list after it ends with that version's node. */
  predicate Expanded(prev: seq<Package>, name: string, vs: seq<string>, snaps: seq<seq<Package>>,
                     j: int, last: seq<Package>)
    requires 0 <= j < |vs| && j < |snaps|
  {
    && !Fires(prev, name, vs, j, snaps[j])
    && snaps[j] <= Next(snaps, j, last)
    && EndsWithNode(Next(snaps, j, last), name, vs[j])
  }

  /** What expanding the version `(name, version)` onto `newDeps` under the ancestors
      `anc` yields: the list grows by well-formed candidates, each reached from the
      version's manifest; the children are registry leaves found on the grown list or
      among the ancestors, none without a manifest and one or more per requirement of it. */
  ghost predicate Expansion(reg: Registry, newDeps: seq<Package>, anc: seq<Package>,
                            name: string, version: string, a: Activation)
    requires reg.Valid()
  {
    && Expands(reg, newDeps, anc, name, version, a)
    && Justified(reg, a.activated, |newDeps|, |a.activated|, Offered(reg, ManifestOf(reg, Leaf(name, version))))
  }

  /** The part of `Expansion` about the shape of the grown list and of the children. */
  predicate Expands(reg: Registry, newDeps: seq<Package>, anc: seq<Package>,
                    name: string, version: string, a: Activation)
  {
    && Grown(reg, newDeps, a.activated, anc)
    && (forall c :: c in a.children ==> FromRegistry(reg, c) && c.deps == [])
    && (forall c :: c in a.children ==> Covered(c, a.activated) || Covered(c, anc))
    && ChildrenDecided(reg, ManifestAt(reg, (name, version)), |ManifestAt(reg, (name, version))|, a.children)
  }

  /** The state of `activate`'s version loop after the versions `vs[..k]` were all
      expanded: `anc` and `sib` end with their leaves and each of them is activated. */
  predicate VersionLoop(reg: Registry, newDeps: seq<Package>, prev: seq<Package>,
                        siblings: seq<Package>, name: string, vs: seq<string>, k: int,
                        nd: seq<Package>, sib: seq<Package>, anc: seq<Package>)
  {
    && 0 <= k <= |vs|
    && anc == prev + Leaves(name, vs[..k])
    && sib == siblings + Leaves(name, vs[..k])
    && Grown(reg, newDeps, nd, prev)
    && (k == 0 ==> nd == newDeps)
    && (forall j :: 0 <= j < k ==> Covered(Leaf(name, vs[j]), nd))
  }

  /** The history of the versions `vs[..k]`, all expanded, ending with the list `nd`. */
  predicate History(newDeps: seq<Package>, prev: seq<Package>, name: string, vs: seq<string>,
                    k: int, nd: seq<Package>, snaps: seq<seq<Package>>)
  {
    && 0 <= k <= |vs|
    && |snaps| == k
    && (k == 0 ==> nd == newDeps)
    && (k > 0 ==> snaps[0] == newDeps)
    && (forall j :: 0 <= j < k ==> snaps[j] <= nd && Expanded(prev, name, vs, snaps, j, nd))
  }

  /** Expanding version `vs[k]`, which no guard stops, extends the history. */
  lemma HistoryExpand(newDeps: seq<Package>, prev: seq<Package>, name: string, vs: seq<string>,
                      k: int, nd: seq<Package>, snaps: seq<seq<Package>>, nd3: seq<Package>)
    requires History(newDeps, prev, name, vs, k, nd, snaps) && k < |vs|
    requires !Covered(Leaf(name, vs[k]), prev + Leaves(name, vs[..k])) && !Covered(Leaf(name, vs[k]), nd)
    requires nd <= nd3 && EndsWithNode(nd3, name, vs[k])
    ensures History(newDeps, prev, name, vs, k + 1, nd3, snaps + [nd])
  {
    CoveredAncestors(prev, name, vs, k);
    var snaps' := snaps + [nd];
    NextSnoc(snaps, nd, nd3);
    forall j | 0 <= j < k + 1 ensures snaps'[j] <= nd3 && Expanded(prev, name, vs, snaps', j, nd3) {
      if j < k {
        assert Expanded(prev, name, vs, snaps, j, nd);
      }
    }
  }

  /** A guard that fires at version `vs[k]` closes the history with the list it found. */
  lemma HistoryBreak(newDeps: seq<Package>, prev: seq<Package>, name: string, vs: seq<string>,
                     k: int, nd: seq<Package>, snaps: seq<seq<Package>>)
    requires History(newDeps, prev, name, vs, k, nd, snaps) && k < |vs|
    requires Covered(Leaf(name, vs[k]), prev + Leaves(name, vs[..k])) || Covered(Leaf(name, vs[k]), nd)
    ensures Guarded(newDeps, prev, name, vs, k + 1, nd, snaps + [nd])
  {
    CoveredAncestors(prev, name, vs, k);
    var snaps' := snaps + [nd];
    NextSnoc(snaps, nd, nd);
    forall j | 0 <= j < k ensures Expanded(prev, name, vs, snaps', j, nd) {
      assert Expanded(prev, name, vs, snaps, j, nd);
    }
  }

  /** Running through all versions closes the history: the last one was expanded too. */
  lemma HistoryDone(newDeps: seq<Package>, prev: seq<Package>, name: string, vs: seq<string>,
                    nd: seq<Package>, snaps: seq<seq<Package>>)
    requires History(newDeps, prev, name, vs, |vs|, nd, snaps) && |vs| > 0
    ensures Guarded(newDeps, prev, name, vs, |vs|, nd, snaps)
  {
    assert Expanded(prev, name, vs, snaps, |vs| - 1, nd);
  }

  /** Adding the activated list found at version `k` to a history of `k` expanded versions
      leaves the lists after the earlier versions as they were. */
  lemma NextSnoc(snaps: seq<seq<Package>>, nd: seq<Package>, last: seq<Package>)
    ensures forall j :: 0 <= j < |snaps| ==> Next(snaps + [nd], j, last) == Next(snaps, j, nd)
    ensures Next(snaps + [nd], |snaps|, last) == last
  {
  }

  /** Expanding version `vs[k]` into the node `{name, vs[k], "poac", kids}` keeps the loop
      state. */
  lemma ExpandStep(reg: Registry, newDeps: seq<Package>, prev: seq<Package>,
                   siblings: seq<Package>, name: string, vs: seq<string>, k: int,
                   nd: seq<Package>, sib: seq<Package>, anc: seq<Package>,
                   nd2: seq<Package>, kids: seq<Package>)
    requires VersionLoop(reg, newDeps, prev, siblings, name, vs, k, nd, sib, anc) && k < |vs|
    requires name in reg.versions && vs[k] in reg.versions[name]
    requires !Covered(Leaf(name, vs[k]), anc) && !Covered(Leaf(name, vs[k]), nd)
    requires Expands(reg, nd, anc + [Leaf(name, vs[k])], name, vs[k], Activation(nd2, kids))
    ensures VersionLoop(reg, newDeps, prev, siblings, name, vs, k + 1,
                        nd2 + [Package(name, vs[k], Poac, kids)],
                        sib + [Leaf(name, vs[k])], anc + [Leaf(name, vs[k])])
  {
    var leaf := Leaf(name, vs[k]);
    var node := Package(name, vs[k], Poac, kids);
    var nd3 := nd2 + [node];
    assert vs[..k + 1] == vs[..k] + [vs[k]];
    assert Leaves(name, vs[..k + 1]) == Leaves(name, vs[..k]) + [leaf];
    // Every leaf on the new ancestor list is activated in `nd3`.
    var extra := Leaves(name, vs[..k + 1]);
    CoveredLast(nd2, node);
    forall e | e in extra ensures Covered(e, nd3) || Covered(e, prev) {
      var j :| 0 <= j < |extra| && extra[j] == e;
      if j < k {
        CoveredPrefix(e, nd, nd3);
      }
    }
    // The children of the nodes added by the recursive calls and of the new node.
    assert anc + [leaf] == prev + extra;
    ChildrenCoveredGrow(nd2, nd3, |nd|, |nd2|, prev + extra);
    forall c | c in node.deps ensures Covered(c, nd3) || Covered(c, prev + extra) {
      if Covered(c, nd2) {
        CoveredPrefix(c, nd2, nd3);
      }
    }
    assert ChildrenCovered(nd3, |nd|, |nd3|, prev + extra);
    ChildrenCoveredDrop(nd3, |nd|, |nd3|, prev, extra);
    ChildrenCoveredGrow(nd, nd3, |newDeps|, |nd|, prev);
    assert WellFormedNode(reg, node);
    forall j | 0 <= j < k + 1 ensures Covered(Leaf(name, vs[j]), nd3) {
      if j < k {
        CoveredPrefix(Leaf(name, vs[j]), nd, nd3);
      }
    }
  }

  /** One expanded version keeps all three invariants of `activate`'s loop. */
  lemma VersionStep(reg: Registry, newDeps: seq<Package>, prev: seq<Package>,
                    siblings: seq<Package>, name: string, vs: seq<string>, k: int,
                    nd: seq<Package>, sib: seq<Package>, anc: seq<Package>,
                    snaps: seq<seq<Package>>, a: Activation)
    requires reg.Valid() && k < |vs|
    requires VersionLoop(reg, newDeps, prev, siblings, name, vs, k, nd, sib, anc)
    requires History(newDeps, prev, name, vs, k, nd, snaps)
    requires |newDeps| <= |nd| && Justified(reg, nd, |newDeps|, |nd|, Picked(name, vs))
    requires name in reg.versions && vs[k] in reg.versions[name]
    requires !Covered(Leaf(name, vs[k]), anc) && !Covered(Leaf(name, vs[k]), nd)
    requires Expansion(reg, nd, anc + [Leaf(name, vs[k])], name, vs[k], a)
    ensures VersionLoop(reg, newDeps, prev, siblings, name, vs, k + 1,
                        a.activated + [Package(name, vs[k], Poac, a.children)],
                        sib + [Leaf(name, vs[k])], anc + [Leaf(name, vs[k])])
    ensures History(newDeps, prev, name, vs, k + 1,
                    a.activated + [Package(name, vs[k], Poac, a.children)], snaps + [nd])
    ensures |newDeps| <= |a.activated| + 1
    ensures Justified(reg, a.activated + [Package(name, vs[k], Poac, a.children)],
                      |newDeps|, |a.activated| + 1, Picked(name, vs))
  {
    var node := Package(name, vs[k], Poac, a.children);
    ExpandStep(reg, newDeps, prev, siblings, name, vs, k, nd, sib, anc, a.activated, a.children);
    assert vs[k] in vs;
    JustifyNode(reg, |newDeps|, nd, a.activated, node, Picked(name, vs));
    HistoryExpand(newDeps, prev, name, vs, k, nd, snaps, a.activated + [node]);
  }

  /**
   * What one `activate` call hands back when it does not throw, for the versions `vs`
   * that `decide_versions` returned: the activated list only grew, and the parent's
   * child list gained the leaves of the first `t` versions (`t >= 1`, since the leaf is
   * pushed before the guards run). Each of those leaves is activated or on the ancestor
   * list, and all but the last are activated.
   */
  predicate Outcome(reg: Registry, newDeps: seq<Package>, prev: seq<Package>,
                    siblings: seq<Package>, name: string, vs: seq<string>, a: Activation)
  {
    var t := |a.children| - |siblings|;
    && Grown(reg, newDeps, a.activated, prev)
    && 1 <= t <= |vs|
    && a.children == siblings + Leaves(name, vs[..t])
    && (forall j :: 0 <= j < t ==>
          Covered(Leaf(name, vs[j]), a.activated) || Covered(Leaf(name, vs[j]), prev))
    && (forall j :: 0 <= j < t - 1 ==> Covered(Leaf(name, vs[j]), a.activated))
  }

  /**
   * The guards of the `t` versions one `activate` call reached, where `snaps[j]` is the
   * activated list version `vs[j]` found and `last` the list handed back. Every version
   * but the last was expanded: no guard fired there, and the list after it ends with
   * its node, appended after the candidates its requirements added. At the last one a
   * guard fired exactly when nothing was appended for it, and the loop stopped before
   * the end of `vs` only because a guard fired.
   */
  predicate Guarded(newDeps: seq<Package>, prev: seq<Package>, name: string, vs: seq<string>,
                    t: int, last: seq<Package>, snaps: seq<seq<Package>>)
  {
    && 1 <= t <= |vs|
    && |snaps| == t && snaps[0] == newDeps
    && (forall j :: 0 <= j < t ==> snaps[j] <= last)
    && (forall j :: 0 <= j < t - 1 ==> Expanded(prev, name, vs, snaps, j, last))
    && (Fires(prev, name, vs, t - 1, snaps[t - 1]) <==> last == snaps[t - 1])
    && (!Fires(prev, name, vs, t - 1, snaps[t - 1]) ==> EndsWithNode(last, name, vs[t - 1]))
    && (t < |vs| ==> Fires(prev, name, vs, t - 1, snaps[t - 1]))
  }


  /** A guard that fires at version `vs[k]` ends the call with an `Outcome`: nothing is
      appended for it and the history records the list it found. */
  lemma BreakOutcome(reg: Registry, newDeps: seq<Package>, prev: seq<Package>,
                     siblings: seq<Package>, name: string, vs: seq<string>, k: int,
                     nd: seq<Package>, sib: seq<Package>, anc: seq<Package>)
    requires VersionLoop(reg, newDeps, prev, siblings, name, vs, k, nd, sib, anc) && k < |vs|
    requires Covered(Leaf(name, vs[k]), anc) || Covered(Leaf(name, vs[k]), nd)
    ensures Outcome(reg, newDeps, prev, siblings, name, vs,
                    Activation(nd, sib + [Leaf(name, vs[k])]))
  {
    var leaf := Leaf(name, vs[k]);
    assert vs[..k + 1] == vs[..k] + [vs[k]];
    assert Leaves(name, vs[..k + 1]) == Leaves(name, vs[..k]) + [leaf];
    assert vs[..k + 1][..k] == vs[..k];
    if Covered(leaf, anc) && !Covered(leaf, nd) {
      CoveredAppend(leaf, prev, Leaves(name, vs[..k]));
    }
  }

  /** Running through all versions ends the call with an `Outcome`: the last version was
      expanded too. */
  lemma DoneOutcome(reg: Registry, newDeps: seq<Package>, prev: seq<Package>,
                    siblings: seq<Package>, name: string, vs: seq<string>,
                    nd: seq<Package>, sib: seq<Package>, anc: seq<Package>)
    requires VersionLoop(reg, newDeps, prev, siblings, name, vs, |vs|, nd, sib, anc) && |vs| > 0
    ensures Outcome(reg, newDeps, prev, siblings, name, vs, Activation(nd, sib))
  {
    assert vs[..|vs|] == vs;
  }

  /** Putting an unvisited published version on the ancestor list shrinks the measure. */
  lemma DescendStep(reg: Registry, newDeps: seq<Package>, prev: seq<Package>,
                    siblings: seq<Package>, name: string, vs: seq<string>, k: int,
                    nd: seq<Package>, sib: seq<Package>, anc: seq<Package>)
    requires VersionLoop(reg, newDeps, prev, siblings, name, vs, k, nd, sib, anc) && k < |vs|
    requires name in reg.versions && vs[k] in reg.versions[name]
    requires !Covered(Leaf(name, vs[k]), anc)
    ensures Unvisited(reg, anc + [Leaf(name, vs[k])]) < Unvisited(reg, prev)
  {
    var leaf := Leaf(name, vs[k]);
    PairSetAppend(prev, Leaves(name, vs[..k]));
    PairSetAppend(anc, [leaf]);
    CoveredAppend(leaf, prev, Leaves(name, vs[..k]));
    CoveredLast(anc, leaf);
    UnvisitedShrinks(reg, prev, anc + [leaf], leaf);
  }

  /**
   * `activate(new_deps, prev_activated_deps, activated_deps, name, interval)`: look the
   * interval up and run the version loop over what `decide_versions` returns.
   */
  method Activate(reg: Registry, newDeps: seq<Package>, prev: seq<Package>,
                  siblings: seq<Package>, name: string, interval: string)
    returns (r: Result<Activation, Error>, ghost snaps: seq<seq<Package>>)
    requires reg.Valid()
    ensures r.Err? ==> FailedLookup(reg, r.error, [(name, interval)])
    ensures DecideVersions(reg, name, interval).Err? ==>
              r == Err(DecideVersions(reg, name, interval).error)
    ensures r.Ok? ==> DecideVersions(reg, name, interval).Ok?
    ensures r.Ok? ==>
              Outcome(reg, newDeps, prev, siblings, name, DecideVersions(reg, name, interval).value, r.value)
    ensures r.Ok? ==>
              Guarded(newDeps, prev, name, DecideVersions(reg, name, interval).value,
                      |r.value.children| - |siblings|, r.value.activated, snaps)
    ensures r.Ok? ==>
              Justified(reg, r.value.activated, |newDeps|, |r.value.activated|, Offered(reg, [(name, interval)]))
    decreases Unvisited(reg, prev), 2
  {
    var decided := DecideVersions(reg, name, interval);
    if decided.Err? {
      return Err(decided.error), [];
    }
    var vs := decided.value;
    r, snaps := ActivateVersions(reg, newDeps, prev, siblings, name, vs);
    PickedOffered(reg, name, interval);
    if r.Err? {
      FailsUnderWiden(reg, (r.error.name, r.error.interval), Picked(name, vs),
                      Offered(reg, [(name, interval)]));
    } else {
      var a := r.value;
      JustifiedGrow(reg, a.activated, a.activated, |newDeps|, |a.activated|,
                    Picked(name, vs), Offered(reg, [(name, interval)]));
      assert Outcome(reg, newDeps, prev, siblings, name, vs, a);
      assert Guarded(newDeps, prev, name, vs, |a.children| - |siblings|, a.activated, snaps);
    }
  }

  /**
   * The version loop of `activate`. For each version, in order: push the leaf onto the
   * parent's child list; stop the whole loop (`break`) when the pair is on the ancestor
   * list or already activated; otherwise put it on the ancestor list, which keeps
   * growing across versions, expand its manifest's requirements into a fresh child
   * list, and append the node after them.
   */
  method ActivateVersions(reg: Registry, newDeps: seq<Package>, prev: seq<Package>,
                          siblings: seq<Package>, name: string, vs: seq<string>)
    returns (r: Result<Activation, Error>, ghost snaps: seq<seq<Package>>)
    requires reg.Valid()
    requires |vs| > 0 && name in reg.versions && forall v :: v in vs ==> v in reg.versions[name]
    ensures r.Err? ==> FailedBelow(reg, r.error, Picked(name, vs))
    ensures r.Ok? ==> Outcome(reg, newDeps, prev, siblings, name, vs, r.value)
    ensures r.Ok? ==> Guarded(newDeps, prev, name, vs, |r.value.children| - |siblings|, r.value.activated, snaps)
    ensures r.Ok? ==> Justified(reg, r.value.activated, |newDeps|, |r.value.activated|, Picked(name, vs))
    decreases Unvisited(reg, prev), 1
  {
    snaps := [];
    var nd := newDeps;
    var sib := siblings;
    var anc := prev;
    var k := 0;
    var cut := false;
    assert vs[..0] == [];
    while k < |vs|
      invariant VersionLoop(reg, newDeps, prev, siblings, name, vs, k, nd, sib, anc)
      invariant History(newDeps, prev, name, vs, k, nd, snaps)
      invariant |newDeps| <= |nd| && Justified(reg, nd, |newDeps|, |nd|, Picked(name, vs))
      invariant !cut
    {
      var leaf := Leaf(name, vs[k]);
      var res;
      res, cut := VisitVersion(reg, newDeps, prev, siblings, name, vs, k, nd, sib, anc, snaps);
      if res.Err? {
        return Err(res.error), snaps;
      }
      if cut {
        break;
      }
      nd, snaps := res.value, snaps + [nd];
      anc, sib := anc + [leaf], sib + [leaf];
      k := k + 1;
    }
    ghost var found := snaps;
    if cut {
      r, snaps := Ok(Activation(nd, sib + [Leaf(name, vs[k])])), snaps + [nd];
    } else {
      r := Ok(Activation(nd, sib));
    }
    FinishVersions(reg, newDeps, prev, siblings, name, vs, k, nd, sib, anc, found, cut, r.value, snaps);
  }

  /** The loop of `activate` ends with an `Outcome`, a closed history and a justified
      list, whether a guard stopped it at version `vs[k]` or it ran out of versions. */
  lemma FinishVersions(reg: Registry, newDeps: seq<Package>, prev: seq<Package>,
                       siblings: seq<Package>, name: string, vs: seq<string>, k: int,
                       nd: seq<Package>, sib: seq<Package>, anc: seq<Package>,
                       found: seq<seq<Package>>, cut: bool, a: Activation, snaps: seq<seq<Package>>)
    requires reg.Valid() && |vs| > 0
    requires VersionLoop(reg, newDeps, prev, siblings, name, vs, k, nd, sib, anc)
    requires History(newDeps, prev, name, vs, k, nd, found)
    requires |newDeps| <= |nd| && Justified(reg, nd, |newDeps|, |nd|, Picked(name, vs))
    requires cut ==> k < |vs| && (Covered(Leaf(name, vs[k]), anc) || Covered(Leaf(name, vs[k]), nd))
    requires !cut ==> k == |vs|
    requires cut ==> a == Activation(nd, sib + [Leaf(name, vs[k])]) && snaps == found + [nd]
    requires !cut ==> a == Activation(nd, sib) && snaps == found
    ensures Outcome(reg, newDeps, prev, siblings, name, vs, a)
    ensures Guarded(newDeps, prev, name, vs, |a.children| - |siblings|, a.activated, snaps)
    ensures Justified(reg, a.activated, |newDeps|, |a.activated|, Picked(name, vs))
  {
    assert |sib| == |siblings| + k;
    if cut {
      BreakOutcome(reg, newDeps, prev, siblings, name, vs, k, nd, sib, anc);
      HistoryBreak(newDeps, prev, name, vs, k, nd, found);
    } else {
      DoneOutcome(reg, newDeps, prev, siblings, name, vs, nd, sib, anc);
      HistoryDone(newDeps, prev, name, vs, nd, found);
    }
  }

  /**
   * The body of `activate`'s loop for the version `vs[k]`, whose leaf the caller records
   * as a child: `cut` says that the cycle guard (the pair is already an ancestor) or
   * the memo guard (the pair is already activated) fired, which ends the loop;
   * otherwise the version is expanded under the ancestors `anc` plus its own leaf, and
   * its node appended, which keeps the loop's invariants.
   */
  method VisitVersion(reg: Registry, newDeps: seq<Package>, prev: seq<Package>,
                      siblings: seq<Package>, name: string, vs: seq<string>, k: int,
                      nd: seq<Package>, sib: seq<Package>, anc: seq<Package>,
                      ghost snaps: seq<seq<Package>>)
    returns (r: Result<seq<Package>, Error>, cut: bool)
    requires reg.Valid() && k < |vs|
    requires name in reg.versions && forall v :: v in vs ==> v in reg.versions[name]
    requires VersionLoop(reg, newDeps, prev, siblings, name, vs, k, nd, sib, anc)
    requires History(newDeps, prev, name, vs, k, nd, snaps)
    requires |newDeps| <= |nd| && Justified(reg, nd, |newDeps|, |nd|, Picked(name, vs))
    ensures r.Err? ==> FailedBelow(reg, r.error, Picked(name, vs)) && !cut
    ensures cut <==> r.Ok? && (Covered(Leaf(name, vs[k]), anc) || Covered(Leaf(name, vs[k]), nd))
    ensures r.Ok? && cut ==> r.value == nd
    ensures r.Ok? && !cut ==>
              && VersionLoop(reg, newDeps, prev, siblings, name, vs, k + 1, r.value,
                             sib + [Leaf(name, vs[k])], anc + [Leaf(name, vs[k])])
              && History(newDeps, prev, name, vs, k + 1, r.value, snaps + [nd])
              && |newDeps| <= |r.value| && Justified(reg, r.value, |newDeps|, |r.value|, Picked(name, vs))
    decreases Unvisited(reg, prev), 0
  {
    var version := vs[k];
    var leaf := Leaf(name, version);
    if Covered(leaf, anc) || Covered(leaf, nd) {
      return Ok(nd), true;
    }
    assert version in vs;
    DescendStep(reg, newDeps, prev, siblings, name, vs, k, nd, sib, anc);
    var res := ExpandVersion(reg, nd, anc + [leaf], name, version);
    if res.Err? {
      FailsUnderWiden(reg, (res.error.name, res.error.interval), {(name, version)}, Picked(name, vs));
      return Err(res.error), false;
    }
    VersionStep(reg, newDeps, prev, siblings, name, vs, k, nd, sib, anc, snaps, res.value);
    return Ok(res.value.activated + [Package(name, version, Poac, res.value.children)]), false;
  }

  /** The requirements of version `version`'s manifest, activated under the ancestor
      list `anc` into a fresh child list; no manifest means no children. */
  method ExpandVersion(reg: Registry, newDeps: seq<Package>, anc: seq<Package>,
                       name: string, version: string)
    returns (r: Result<Activation, Error>)
    requires reg.Valid()
    ensures r.Err? ==> FailedBelow(reg, r.error, {(name, version)})
    ensures r.Ok? ==> Expansion(reg, newDeps, anc, name, version, r.value)
    decreases Unvisited(reg, anc), 5
  {
    var reqs := ManifestAt(reg, (name, version));
    assert ManifestOf(reg, Leaf(name, version)) == reqs;
    if (name, version) in reg.manifests {
      r := ActivateAll(reg, newDeps, anc, reqs);
      if r.Err? {
        FailedManifest(reg, r.error, (name, version));
      } else {
        assert Expands(reg, newDeps, anc, name, version, r.value);
      }
    } else {
      r := Ok(Activation(newDeps, []));
      assert Expands(reg, newDeps, anc, name, version, r.value);
    }
  }

  /** The requirement `reqs[i]` of a manifest, activated onto `a.activated` and the
      child list `a.children`, keeps the invariant of the loop over the manifest. */
  lemma AllStep(reg: Registry, newDeps: seq<Package>, anc: seq<Package>,
                reqs: seq<(string, string)>, i: int, a: Activation, a': Activation)
    requires reg.Valid() && 0 <= i < |reqs|
    requires AllShape(reg, newDeps, anc, reqs, i, a)
    requires DecideVersions(reg, reqs[i].0, reqs[i].1).Ok?
    requires Outcome(reg, a.activated, anc, a.children, reqs[i].0,
                     DecideVersions(reg, reqs[i].0, reqs[i].1).value, a')
    ensures AllShape(reg, newDeps, anc, reqs, i + 1, a')
  {
    var name, interval := reqs[i].0, reqs[i].1;
    var nd, kids := a.activated, a.children;
    var vs := DecideVersions(reg, name, interval).value;
    AllChildren(reg, nd, anc, kids, name, vs, a');
    AllDecided(reg, reqs, i, kids, a'.children);
    GrownTrans(reg, newDeps, nd, a'.activated, anc);
  }

  /** The child list after `activate` for `reqs[i]` pushed the leaves of the first `t >= 1`
      versions decided for it is the child list of `reqs[..i + 1]`. */
  lemma AllDecided(reg: Registry, reqs: seq<(string, string)>, i: int, kids: seq<Package>,
                   children: seq<Package>)
    requires reg.Valid() && 0 <= i < |reqs| && ChildrenDecided(reg, reqs, i, kids)
    requires DecideVersions(reg, reqs[i].0, reqs[i].1).Ok?
    requires var vs := DecideVersions(reg, reqs[i].0, reqs[i].1).value;
             var t := |children| - |kids|;
             1 <= t <= |vs| && children == kids + Leaves(reqs[i].0, vs[..t])
    ensures ChildrenDecided(reg, reqs, i + 1, children)
  {
    var vs := DecideVersions(reg, reqs[i].0, reqs[i].1).value;
    var ws := vs[..|children| - |kids|];
    forall v | v in ws ensures v in vs {
      var j :| 0 <= j < |ws| && ws[j] == v;
      assert vs[j] == v;
    }
    assert ws[0] == vs[0];
    AllDecidedLeaves(reg, reqs, i, kids, ws);
    AllDecidedFirst(reg, reqs, i, kids, ws);
  }

  /** Every child pushed for `reqs[i]` is a decided version of it. */
  lemma AllDecidedLeaves(reg: Registry, reqs: seq<(string, string)>, i: int, kids: seq<Package>,
                         ws: seq<string>)
    requires reg.Valid() && 0 <= i < |reqs|
    requires forall c :: c in kids ==> exists m :: 0 <= m < i && DecidedLeaf(reg, reqs[m], c)
    requires DecideVersions(reg, reqs[i].0, reqs[i].1).Ok?
    requires forall v :: v in ws ==> v in DecideVersions(reg, reqs[i].0, reqs[i].1).value
    ensures forall c :: c in kids + Leaves(reqs[i].0, ws) ==>
              exists m :: 0 <= m < i + 1 && DecidedLeaf(reg, reqs[m], c)
  {
    var children := kids + Leaves(reqs[i].0, ws);
    forall c | c in children ensures exists m :: 0 <= m < i + 1 && DecidedLeaf(reg, reqs[m], c) {
      var j :| 0 <= j < |children| && children[j] == c;
      if j < |kids| {
        assert kids[j] == c && c in kids;
      } else {
        assert ws[j - |kids|] in ws;
        assert DecidedLeaf(reg, reqs[i], c);
      }
    }
  }

  /** The first decided version of each of `reqs[..i + 1]` is a child. */
  lemma AllDecidedFirst(reg: Registry, reqs: seq<(string, string)>, i: int, kids: seq<Package>,
                        ws: seq<string>)
    requires reg.Valid() && 0 <= i < |reqs|
    requires forall m :: 0 <= m < i ==> FirstDecided(reg, reqs[m], kids)
    requires DecideVersions(reg, reqs[i].0, reqs[i].1).Ok?
    requires |ws| > 0 && ws[0] == DecideVersions(reg, reqs[i].0, reqs[i].1).value[0]
    ensures forall m :: 0 <= m < i + 1 ==> FirstDecided(reg, reqs[m], kids + Leaves(reqs[i].0, ws))
  {
    var children := kids + Leaves(reqs[i].0, ws);
    forall m | 0 <= m < i + 1 ensures FirstDecided(reg, reqs[m], children) {
      var first := Leaf(reqs[m].0, DecideVersions(reg, reqs[m].0, reqs[m].1).value[0]);
      if m < i {
        var j :| 0 <= j < |kids| && kids[j] == first;
        assert children[j] == first;
      } else {
        assert children[|kids|] == first;
      }
    }
  }

  /** The children after one more requirement are registry leaves found on the grown
      list or among the ancestors. */
  lemma AllChildren(reg: Registry, nd: seq<Package>, anc: seq<Package>, kids: seq<Package>,
                    name: string, vs: seq<string>, a: Activation)
    requires name in reg.versions && forall v :: v in vs ==> v in reg.versions[name]
    requires forall c :: c in kids ==> FromRegistry(reg, c) && c.deps == []
    requires forall c :: c in kids ==> Covered(c, nd) || Covered(c, anc)
    requires Outcome(reg, nd, anc, kids, name, vs, a)
    ensures forall c :: c in a.children ==> FromRegistry(reg, c) && c.deps == []
    ensures forall c :: c in a.children ==> Covered(c, a.activated) || Covered(c, anc)
  {
    var t := |a.children| - |kids|;
    assert a.children == kids + Leaves(name, vs[..t]);
    forall c | c in a.children
      ensures FromRegistry(reg, c) && c.deps == []
      ensures Covered(c, a.activated) || Covered(c, anc)
    {
      if c !in kids {
        var j :| 0 <= j < |a.children| && a.children[j] == c;
        assert c == Leaf(name, vs[j - |kids|]);
        assert vs[j - |kids|] in vs;
      } else if Covered(c, nd) {
        CoveredPrefix(c, nd, a.activated);
      }
    }
  }

  /**
   * The loop over one manifest's requirements: each is activated with the same ancestor
   * list, and all of them push onto one fresh child list.
   */
  method ActivateAll(reg: Registry, newDeps: seq<Package>, anc: seq<Package>,
                     reqs: seq<(string, string)>)
    returns (r: Result<Activation, Error>)
    requires reg.Valid()
    ensures r.Err? ==> FailedLookup(reg, r.error, reqs)
    ensures r.Ok? ==> Grown(reg, newDeps, r.value.activated, anc)
    ensures r.Ok? ==> forall c :: c in r.value.children ==> FromRegistry(reg, c) && c.deps == []
    ensures r.Ok? ==> forall c :: c in r.value.children ==>
              Covered(c, r.value.activated) || Covered(c, anc)
    ensures r.Ok? ==> reqs == [] ==> r.value.children == []
    ensures r.Ok? ==> ChildrenDecided(reg, reqs, |reqs|, r.value.children)
    ensures r.Ok? ==> Justified(reg, r.value.activated, |newDeps|, |r.value.activated|, Offered(reg, reqs))
    decreases Unvisited(reg, anc), 4
  {
    var nd := newDeps;
    var kids: seq<Package> := [];
    var i := 0;
    while i < |reqs|
      invariant AllLoop(reg, newDeps, anc, reqs, i, Activation(nd, kids))
    {
      var res := ActivateReq(reg, newDeps, anc, reqs, i, nd, kids);
      if res.Err? {
        return Err(res.error);
      }
      nd, kids := res.value.activated, res.value.children;
      i := i + 1;
    }
    return Ok(Activation(nd, kids));
  }

  /** The invariant of the loop over a manifest's requirements after the first `i`. */
  ghost predicate AllLoop(reg: Registry, newDeps: seq<Package>, anc: seq<Package>,
                          reqs: seq<(string, string)>, i: int, a: Activation)
    requires reg.Valid()
  {
    && AllShape(reg, newDeps, anc, reqs, i, a)
    && Justified(reg, a.activated, |newDeps|, |a.activated|, Offered(reg, reqs))
  }

  /** The part of `AllLoop` about the shape of the grown list and of the children. */
  predicate AllShape(reg: Registry, newDeps: seq<Package>, anc: seq<Package>,
                     reqs: seq<(string, string)>, i: int, a: Activation)
  {
    && 0 <= i <= |reqs|
    && Grown(reg, newDeps, a.activated, anc)
    && (forall c :: c in a.children ==> FromRegistry(reg, c) && c.deps == [])
    && (forall c :: c in a.children ==> Covered(c, a.activated) || Covered(c, anc))
    && (i == 0 ==> a.children == [])
    && ChildrenDecided(reg, reqs, i, a.children)
  }

  /** The requirement `reqs[i]` activated onto `nd`, pushing onto the child list `kids`. */
  method ActivateReq(reg: Registry, newDeps: seq<Package>, anc: seq<Package>,
                     reqs: seq<(string, string)>, i: int, nd: seq<Package>, kids: seq<Package>)
    returns (r: Result<Activation, Error>)
    requires reg.Valid() && 0 <= i < |reqs|
    requires AllLoop(reg, newDeps, anc, reqs, i, Activation(nd, kids))
    ensures r.Err? ==> FailedLookup(reg, r.error, reqs)
    ensures r.Ok? ==> AllLoop(reg, newDeps, anc, reqs, i + 1, r.value)
    decreases Unvisited(reg, anc), 3
  {
    var res, _ := Activate(reg, nd, anc, kids, reqs[i].0, reqs[i].1);
    if res.Err? {
      FailedSub(reg, res.error, reqs, i);
      return Err(res.error);
    }
    AllStep(reg, newDeps, anc, reqs, i, Activation(nd, kids), res.value);
    OfferedSub(reg, reqs, i);
    JustifyJoin(reg, |newDeps|, nd, res.value.activated, Offered(reg, reqs), Offered(reg, [reqs[i]]));
    return Ok(res.value);
  }

  // ---------------------------------------------------------------------------------
  // The top level.

  /** The invariant of the loop over a top-level requirement's versions `vs` after the
      first `k`: the list is closed (the loop runs with no ancestors) and each of those
      versions is activated. */
  predicate TopShape(reg: Registry, newDeps: seq<Package>, name: string, vs: seq<string>,
                     k: int, nd: seq<Package>)
  {
    && 0 <= k <= |vs|
    && Grown(reg, newDeps, nd, [])
    && (forall j :: 0 <= j < k ==> Covered(Leaf(name, vs[j]), nd))
  }

  /** Expanding a top-level version into its node keeps the list closed: the only
      ancestor of the recursive calls is the top leaf, which the node itself covers. */
  lemma TopStep(reg: Registry, newDeps: seq<Package>, name: string, vs: seq<string>, k: int,
                nd: seq<Package>, a: Activation)
    requires 0 <= k < |vs| && name in reg.versions && vs[k] in reg.versions[name]
    requires TopShape(reg, newDeps, name, vs, k, nd)
    requires Expands(reg, nd, [Leaf(name, vs[k])], name, vs[k], a)
    ensures TopShape(reg, newDeps, name, vs, k + 1, a.activated + [Package(name, vs[k], Poac, a.children)])
  {
    var top := [Leaf(name, vs[k])];
    var nd2 := a.activated;
    var node := Package(name, vs[k], Poac, a.children);
    var nd3 := nd2 + [node];
    CoveredLast(nd2, node);
    ChildrenCoveredSnoc(nd2, node, |nd|, top);
    assert [] + top == top;
    ChildrenCoveredDrop(nd3, |nd|, |nd3|, [], top);
    ChildrenCoveredGrow(nd, nd3, |newDeps|, |nd|, []);
    assert WellFormedNode(reg, node);
    forall j | 0 <= j < k ensures Covered(Leaf(name, vs[j]), nd3) {
      CoveredPrefix(Leaf(name, vs[j]), nd, nd3);
    }
  }

  /** `delete_duplicate` keeps every (name, version) pair of the list. */
  lemma DedupKeepsCovered(a: seq<Package>, p: Package)
    requires Covered(p, a)
    ensures Covered(p, Untag(Kept(a)))
  {
    KeptProperties(a);
    var kept := Kept(a);
    var i :| 0 <= i < |a| && SameNameVersion(a[i], p);
    var y := (i, a[i]);
    if y !in kept {
      y :| y in kept && y.0 < i && SameNameVersion(y.1, a[i]);
    }
    var idx :| 0 <= idx < |kept| && kept[idx] == y;
    assert SameNameVersion(Untag(kept)[idx], p);
  }

  /** `delete_duplicate` keeps only candidates of the list. */
  lemma DedupKeepsMembers(a: seq<Package>)
    ensures forall q :: q in Untag(Kept(a)) ==> q in a
  {
    KeptProperties(a);
    forall q | q in Untag(Kept(a)) ensures q in a {
      var idx :| 0 <= idx < |Kept(a)| && Untag(Kept(a))[idx] == q;
      assert Kept(a)[idx] in Kept(a);
    }
  }

  /** The body of `activate_deps_loop`'s outer loop for one top-level requirement:
      every version becomes a node. */
  method ActivateTop(reg: Registry, newDeps: seq<Package>, name: string, interval: string)
    returns (r: Result<seq<Package>, Error>)
    requires reg.Valid()
    ensures r.Err? ==> FailedLookup(reg, r.error, [(name, interval)])
    ensures DecideVersions(reg, name, interval).Err? ==>
              r == Err(DecideVersions(reg, name, interval).error)
    ensures r.Ok? ==> DecideVersions(reg, name, interval).Ok?
    ensures r.Ok? ==> Grown(reg, newDeps, r.value, [])
    ensures r.Ok? ==> forall v :: v in DecideVersions(reg, name, interval).value ==>
              Covered(Leaf(name, v), r.value)
    ensures r.Ok? ==> Justified(reg, r.value, |newDeps|, |r.value|, Offered(reg, [(name, interval)]))
  {
    var decided := DecideVersions(reg, name, interval);
    if decided.Err? {
      return Err(decided.error);
    }
    var vs := decided.value;
    var nd := newDeps;
    var k := 0;
    while k < |vs|
      invariant TopShape(reg, newDeps, name, vs, k, nd)
      invariant |newDeps| <= |nd| && Justified(reg, nd, |newDeps|, |nd|, Offered(reg, [(name, interval)]))
    {
      var version := vs[k];
      assert version in vs;
      var res := ExpandVersion(reg, nd, [Leaf(name, version)], name, version);
      OfferedPick(reg, name, interval, version);
      if res.Err? {
        FailsUnderWiden(reg, (res.error.name, res.error.interval), {(name, version)},
                        Offered(reg, [(name, interval)]));
        return Err(res.error);
      }
      TopStep(reg, newDeps, name, vs, k, nd, res.value);
      var node := Package(name, version, Poac, res.value.children);
      JustifyNode(reg, |newDeps|, nd, res.value.activated, node, Offered(reg, [(name, interval)]));
      nd := res.value.activated + [node];
      k := k + 1;
    }
    forall v | v in vs ensures Covered(Leaf(name, v), nd) {
      var j :| 0 <= j < |vs| && vs[j] == v;
    }
    return Ok(nd);
  }

  /** The properties of the activated list survive `delete_duplicate`. */
  lemma DedupKeepsClosed(reg: Registry, nd: seq<Package>)
    requires Grown(reg, [], nd, [])
    ensures forall p :: p in Untag(Kept(nd)) ==> WellFormedNode(reg, p)
    ensures forall i, c :: 0 <= i < |Untag(Kept(nd))| && c in Untag(Kept(nd))[i].deps ==>
              Covered(c, Untag(Kept(nd)))
  {
    DedupKeepsWellFormed(reg, nd);
    DedupKeepsChildren(reg, nd);
  }

  lemma DedupKeepsWellFormed(reg: Registry, nd: seq<Package>)
    requires forall i :: 0 <= i < |nd| ==> WellFormedNode(reg, nd[i])
    ensures forall p :: p in Untag(Kept(nd)) ==> WellFormedNode(reg, p)
  {
    DedupKeepsMembers(nd);
    forall p | p in Untag(Kept(nd)) ensures WellFormedNode(reg, p) {
      var j :| 0 <= j < |nd| && nd[j] == p;
    }
  }

  lemma DedupKeepsChildren(reg: Registry, nd: seq<Package>)
    requires ChildrenCovered(nd, 0, |nd|, [])
    ensures forall i, c :: 0 <= i < |Untag(Kept(nd))| && c in Untag(Kept(nd))[i].deps ==>
              Covered(c, Untag(Kept(nd)))
  {
    var kept := Untag(Kept(nd));
    DedupKeepsMembers(nd);
    forall i, c | 0 <= i < |kept| && c in kept[i].deps ensures Covered(c, kept) {
      assert kept[i] in kept;
      var j :| 0 <= j < |nd| && nd[j] == kept[i];
      assert Covered(c, nd) || Covered(c, []);
      DedupKeepsCovered(nd, c);
    }
  }

  /** Every candidate `delete_duplicate` keeps is still a pair of `base` or reached from
      a kept candidate: the one it was reached from, or the copy that replaced it. */
  lemma DedupKeepsJustified(reg: Registry, nd: seq<Package>, base: set<(string, string)>)
    requires reg.Valid() && Justified(reg, nd, 0, |nd|, base)
    ensures forall p :: p in Untag(Kept(nd)) ==>
              (p.name, p.version) in base || Reached(reg, Untag(Kept(nd)), p)
  {
    DedupKeepsMembers(nd);
    forall p | p in Untag(Kept(nd)) && (p.name, p.version) !in base
      ensures Reached(reg, Untag(Kept(nd)), p)
    {
      var j :| 0 <= j < |nd| && nd[j] == p;
      DedupKeepsReached(reg, nd, p);
    }
  }

  /** A candidate reached from `nd` is reached from what `delete_duplicate` keeps: the
      candidate it was reached from, or the kept copy with the same name and version,
      whose manifest is the same. */
  lemma DedupKeepsReached(reg: Registry, nd: seq<Package>, p: Package)
    requires reg.Valid() && Reached(reg, nd, p)
    ensures Reached(reg, Untag(Kept(nd)), p)
  {
    var kept := Untag(Kept(nd));
    var q :| q in nd && (p.name, p.version) in Offered(reg, ManifestOf(reg, q));
    var jq :| 0 <= jq < |nd| && nd[jq] == q;
    assert SameNameVersion(nd[jq], q);
    DedupKeepsCovered(nd, q);
    var idx :| 0 <= idx < |kept| && SameNameVersion(kept[idx], q);
    assert ManifestOf(reg, kept[idx]) == ManifestOf(reg, q);
    assert kept[idx] in kept;
  }

  /** The invariant of `activate_deps_loop`'s loop after the first `i` requirements: the
      list is closed and every version chosen for them is activated. */
  predicate DepsShape(reg: Registry, deps: seq<Dep>, i: int, nd: seq<Package>)
    requires reg.Valid()
  {
    && 0 <= i <= |deps|
    && Grown(reg, [], nd, [])
    && (forall m :: 0 <= m < i ==> DecideVersions(reg, deps[m].name, deps[m].interval).Ok?)
    && (forall m, v :: 0 <= m < i && v in DecideVersions(reg, deps[m].name, deps[m].interval).value ==>
          Covered(Leaf(deps[m].name, v), nd))
  }

  /** Activating the requirement `deps[i]` onto `nd` keeps the invariant. */
  lemma DepsStep(reg: Registry, deps: seq<Dep>, i: int, nd: seq<Package>, nd2: seq<Package>)
    requires reg.Valid() && 0 <= i < |deps| && DepsShape(reg, deps, i, nd)
    requires DecideVersions(reg, deps[i].name, deps[i].interval).Ok?
    requires Grown(reg, nd, nd2, [])
    requires forall v :: v in DecideVersions(reg, deps[i].name, deps[i].interval).value ==>
               Covered(Leaf(deps[i].name, v), nd2)
    ensures DepsShape(reg, deps, i + 1, nd2)
  {
    GrownTrans(reg, [], nd, nd2, []);
    forall m, v | 0 <= m < i && v in DecideVersions(reg, deps[m].name, deps[m].interval).value
      ensures Covered(Leaf(deps[m].name, v), nd2)
    {
      CoveredPrefix(Leaf(deps[m].name, v), nd, nd2);
    }
  }

  /** Every version chosen for a requirement is still activated after `delete_duplicate`. */
  lemma DedupKeepsChosen(reg: Registry, deps: seq<Dep>, nd: seq<Package>)
    requires reg.Valid() && DepsShape(reg, deps, |deps|, nd)
    ensures forall d, v :: d in deps && v in DecideVersions(reg, d.name, d.interval).value ==>
              Covered(Leaf(d.name, v), Untag(Kept(nd)))
  {
    forall d, v | d in deps && v in DecideVersions(reg, d.name, d.interval).value
      ensures Covered(Leaf(d.name, v), Untag(Kept(nd)))
    {
      var m :| 0 <= m < |deps| && deps[m] == d;
      DedupKeepsCovered(nd, Leaf(d.name, v));
    }
  }

  /**
   * `activate_deps_loop(deps)`: every version `decide_versions` returns for a top-level
   * requirement becomes a node (the guards do not apply at this level); the
   * requirements of its manifest are activated with the top leaf as the only ancestor
   * and one shared child list; `delete_duplicate` runs last.
   *
   * The result's nodes are well-formed, every child is found in the list (so the
   * clause encoding can name a variable for it), every chosen top-level version is
   * activated, and nothing is pinned yet. An unknown top-level package is an error.
   */
  method ActivateDepsLoop(reg: Registry, deps: seq<Dep>) returns (r: Result<Resolved, Error>)
    requires reg.Valid()
    ensures r.Err? ==> FailedLookup(reg, r.error, Reqs(deps))
    ensures (exists d :: d in deps && DecideVersions(reg, d.name, d.interval).Err?) ==> r.Err?
    ensures r.Ok? ==> r.value.backtracked == map[]
    ensures r.Ok? ==> forall p :: p in r.value.activated ==> WellFormedNode(reg, p)
    ensures r.Ok? ==> forall i, c :: 0 <= i < |r.value.activated| && c in r.value.activated[i].deps ==>
              Covered(c, r.value.activated)
    ensures r.Ok? ==> forall d, v :: d in deps && v in DecideVersions(reg, d.name, d.interval).value ==>
              Covered(Leaf(d.name, v), r.value.activated)
    ensures r.Ok? ==> forall p :: p in r.value.activated ==>
              (p.name, p.version) in Offered(reg, Reqs(deps)) || Reached(reg, r.value.activated, p)
  {
    var nd: seq<Package> := [];
    var i := 0;
    while i < |deps|
      invariant DepsShape(reg, deps, i, nd)
      invariant Justified(reg, nd, 0, |nd|, Offered(reg, Reqs(deps)))
    {
      var res := ActivateTop(reg, nd, deps[i].name, deps[i].interval);
      if res.Err? {
        FailedSub(reg, res.error, Reqs(deps), i);
        return Err(res.error);
      }
      DepsStep(reg, deps, i, nd, res.value);
      OfferedSub(reg, Reqs(deps), i);
      JustifyJoin(reg, 0, nd, res.value, Offered(reg, Reqs(deps)), Offered(reg, [Reqs(deps)[i]]));
      nd := res.value;
      i := i + 1;
    }
    var kept := DeleteDuplicate(nd);
    DedupKeepsClosed(reg, nd);
    DedupKeepsJustified(reg, nd, Offered(reg, Reqs(deps)));
    DedupKeepsChosen(reg, deps, nd);
    return Ok(Resolved(kept, map[]));
  }
}
