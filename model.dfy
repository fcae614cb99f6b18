/**
 * The resolver's data model (include/poac/core/resolver.hpp, lines 56-92) and the
 * outside collaborators it consults, given as values: the registry's version lists,
 * the per-version dependency manifests, the interval predicate and the version
 * ordering.
 */
module Model {

  /** One candidate: a concrete version of a package with the candidates of its direct
      dependencies (`Package`). */
  datatype Package = Package(name: string, version: string, source: string, deps: seq<Package>)

  /** A pin in the resolved map (`MiniPackage`); its `==` is the structural equality. */
  datatype MiniPackage = MiniPackage(version: string, source: string)

  /** A top-level requirement (`Dep`). */
  datatype Dep = Dep(name: string, interval: string, source: string)

  /** The resolver's result (`Resolved`): the candidate list and the name-to-pin map. */
  datatype Resolved = Resolved(activated: seq<Package>, backtracked: map<string, MiniPackage>)

  /** The exceptions the resolver throws: no published version of `name` matches
      `interval`, or the solver reports the clauses unsatisfiable. `PastEnd` is not an
      exception: it stands for the unchecked read `deps.activated[a]` with `a` at or
      past the end of the candidate list, whose behaviour is undefined. */
  datatype Error =
    | NotFound(name: string, interval: string)
    | CouldNotSolve
    | PastEnd

  /** The registry source tag. */
  const Poac: string := "poac"

  /**
   * The collaborators behind the network and the semver library:
   * `versions` answers `get_version` (an absent name is the `null` reply),
   * `manifests` answers `get_deps_api` as (name, interval) pairs (an absent key is
   * the `null` reply), `satisfies(name, interval, v)` is `semver::Interval(name,
   * interval).satisfies(v)` and `greater(a, b)` is `semver::Version(a) > b`.
   */
  datatype Registry = Registry(
    versions: map<string, seq<string>>,
    manifests: map<(string, string), seq<(string, string)>>,
    satisfies: (string, string, string) -> bool,
    greater: (string, string) -> bool)
  {
    /** A published version list is never empty: `"latest"` dereferences the result of
        `std::max_element`, which is undefined on an empty list. */
    predicate Valid()
    {
      forall n :: n in versions ==> |versions[n]| > 0
    }
  }

  /** `operator==` on `Package`: name, version and source, never the children. */
  predicate SamePackage(a: Package, b: Package)
  {
    a.name == b.name && a.version == b.version && a.source == b.source
  }

  /** The comparison the activation guards and `delete_duplicate` use: name and version. */
  predicate SameNameVersion(a: Package, b: Package)
  {
    a.name == b.name && a.version == b.version
  }

  /** Some element of `list` has the name and version of `p`. */
  predicate Covered(p: Package, list: seq<Package>)
  {
    exists i :: 0 <= i < |list| && SameNameVersion(list[i], p)
  }

  /** A leaf candidate `{name, version, "poac", {}}`. */
  function Leaf(name: string, version: string): Package
  {
    Package(name, version, Poac, [])
  }

  /** The (name, version) pairs of a list of candidates. */
  function PairSet(list: seq<Package>): set<(string, string)>
  {
    set p | p in list :: (p.name, p.version)
  }

  /** Every (name, version) the registry publishes. */
  function Universe(reg: Registry): set<(string, string)>
  {
    set n, v | n in reg.versions && v in reg.versions[n] :: (n, v)
  }

  /** A candidate made from the registry: registry source and a published version. */
  predicate FromRegistry(reg: Registry, p: Package)
  {
    p.source == Poac && p.name in reg.versions && p.version in reg.versions[p.name]
  }

  /** The pin a candidate contributes to the resolved map. */
  function PinOf(p: Package): MiniPackage
  {
    MiniPackage(p.version, p.source)
  }

  /** The map built by `backtracked[p.name] = {p.version, p.source}` over `list` in
      order: a later candidate with the same name overwrites an earlier one. */
  function Pins(list: seq<Package>): map<string, MiniPackage>
  {
    if list == [] then map[]
    else Pins(list[..|list| - 1])[list[|list| - 1].name := PinOf(list[|list| - 1])]
  }

  /** `operator==` ignores the children: two packages are equal exactly when they agree
      once their child lists are cleared. */
  lemma SamePackageIgnoresDeps(a: Package, b: Package)
    ensures SamePackage(a, b) <==> a.(deps := []) == b.(deps := [])
  {
  }

  /** No later candidate in `list` carries the name of `list[i]`. */
  predicate LastOfName(list: seq<Package>, i: int)
    requires 0 <= i < |list|
  {
    forall j :: i < j < |list| ==> list[j].name != list[i].name
  }

  /** The pin map has a key for exactly the names in the list. */
  lemma {:induction false} PinsKeys(list: seq<Package>)
    ensures Pins(list).Keys == set p | p in list :: p.name
  {
    if list != [] {
      var init := list[..|list| - 1];
      PinsKeys(init);
      assert list == init + [list[|list| - 1]];
      assert (set p | p in list :: p.name) == (set p | p in init :: p.name) + {list[|list| - 1].name};
    }
  }

  /** Each name maps to the pin of the last candidate carrying it. */
  lemma {:induction false} PinsLastWins(list: seq<Package>, i: int)
    requires 0 <= i < |list| && LastOfName(list, i)
    ensures list[i].name in Pins(list) && Pins(list)[list[i].name] == PinOf(list[i])
  {
    var init := list[..|list| - 1];
    if i < |list| - 1 {
      assert init[i] == list[i];
      forall j | i < j < |init| ensures init[j].name != init[i].name {
        assert init[j] == list[j];
      }
      PinsLastWins(init, i);
    }
  }

  /** Appending one candidate updates exactly its name in the pin map. */
  lemma PinsSnoc(list: seq<Package>, p: Package)
    ensures Pins(list + [p]) == Pins(list)[p.name := PinOf(p)]
  {
    assert (list + [p])[..|list + [p]| - 1] == list;
  }
}
