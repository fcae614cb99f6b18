# poac dependency resolver, modelled in Dafny

This project models the dependency resolver of poac, a C++ package manager
(`include/poac/core/resolver.hpp`). Given a list of top-level requirements
(name, version interval, source), the resolver does the following:

1. It splits the requirements by source. Only `source == "poac"` requirements go to the registry.
2. It turns each interval into a list of published versions (`decide_versions`).
3. It expands the candidates recursively through each version's dependency manifest
   (`activate`, `activate_deps_loop`). The result is one flat list of candidates. A cycle guard
   and a memo guard stop the expansion, and `delete_duplicate` then removes repeated
   name/version pairs from the list.
4. It pins one version per package name:
   - When no name repeats (`duplicate_loose`), the list is kept as it is and each name is
     pinned to its own candidate (`activated_to_backtracked`).
   - Otherwise it encodes the choice as CNF clauses and hands them to a SAT solver
     (`backtrack_loop`, with `to_bin_str` building the exactly-one clauses).
5. It appends the non-registry requirements verbatim.

Modules, one per part of the resolver:

| module | file | models |
|---|---|---|
| `Model` | `model.dfy` | `Package`, `MiniPackage`, `Dep`, `Resolved`, the errors, the registry collaborators, `Package::operator==` and the name-to-pin map |
| `Versions` | `versions.dfy` | `decide_versions`, with `copy_if` and `max_element` |
| `BinStr` | `binstr.dfy` | `to_bin_str`, as a method with its `while` loop |
| `Cnf` | `cnf.dfy` | the clause set `backtrack_loop` builds, as a function of the candidate list, and what an assignment satisfying it means |
| `Backtrack` | `backtrack.dfy` | the loops of `backtrack_loop`, solution extraction, `activated_to_backtracked` and `duplicate_loose` |
| `Dedup` | `dedup.dfy` | `delete_duplicate`, as a loop that erases from a sequence |
| `Expansion` | `activate.dfy` | `activate` and `activate_deps_loop`, as mutually recursive methods |
| `Resolver` | `resolve.dfy` | `resolve` |

The outside collaborators are values:
- `Registry.versions` stands for `get_version`. An absent name is the `null` reply.
- `Registry.manifests` stands for `get_deps_api` combined with `get_from_dep`. It gives
  (name, interval) pairs, and an absent key is the `null` reply.
- `Registry.satisfies` stands for `semver::Interval::satisfies`.
- `Registry.greater` stands for `semver::Version::operator>`.
- The SAT solver is a function parameter from a formula to a status and an assignment.

Thrown exceptions are `Err` results:
- `NotFound(name, interval)` for "was not found";
- `CouldNotSolve` for a solver failure.

`PastEnd` is not thrown by the program: it marks the point where extraction would read past the
end of the candidate list, which is undefined behaviour.

The by-reference vectors of `activate` are modelled as values:
- `new_deps.activated` and the parent's child list are passed in and handed back in an
  `Activation`;
- the by-value ancestor list `prev_activated_deps` is an input that the method extends
  locally.

The recursion terminates by a measure: the number of published (name, version) pairs that
are not yet on the ancestor list.

The model keeps the behaviour of the code as written, including these details:
- `"latest"` passes a greater-than comparator to `max_element`, so it selects a version that
  no other version is below, i.e. the least one under the ordering. See `Versions.LatestIsLeast`.
- A name with one candidate gets the unit clause `[i]` and the implication `[-i, children…]`.
  A name with k > 1 candidates gets implications that start with `+index`, so for a chosen
  candidate they say nothing. See `Cnf.EncodingSound`.
- Extraction reads `activated[a]` for the 1-based variable `a`, with no bound check.
  `Backtrack.BacktrackLoop` requires every true variable of the answer to the one formula it
  builds to be below the number of candidates. `Resolver.Resolve` requires nothing of the
  solver: a completed answer with a true variable at or past the end gives the error `PastEnd`,
  which stands for that undefined read, and `Resolve` states when exactly this happens.
  - `Backtrack.LastSoleCandidateOutOfRange` shows that a satisfying answer can break this. When
    the last candidate's name is unique, its unit clause forces variable `|activated|` true.
- Both guards in `activate` use `break`, so they abandon the remaining versions.
- The candidate goes into the parent's child list before the guards run.
- The ancestor list grows across the version loop within one call.
- `delete_duplicate` removes at most one later copy per visited position. A pair that occurs
  exactly twice survives once, but a third copy can survive. See `Dedup.ThirdCopySurvives`.
- `Package::operator==` compares name, version and source. The guards and `delete_duplicate`
  compare name and version only.

## Model

| member | source | states |
|---|---|---|
| Model.SamePackageIgnoresDeps | include/poac/core/resolver.hpp:62-66 | two packages are `==` exactly when they agree once their child lists are cleared |
| Model.PinsKeys | include/poac/core/resolver.hpp:258-265 | the pin map built over a list has a key for exactly the names in the list |
| Model.PinsLastWins | include/poac/core/resolver.hpp:261-263 | the candidate with the last occurrence of a name is the one whose version and source that name is pinned to |
| Model.PinsSnoc | include/poac/core/resolver.hpp:245-246 | writing one more candidate into the map changes only its own name's entry |
| Versions.CopyIf | include/poac/core/resolver.hpp:124-127 | the kept versions are an order-preserving subsequence, all satisfy the predicate, and every satisfying version is kept |
| Versions.MaxElementIsMaximal | include/poac/core/resolver.hpp:119-120 | for a strict order, `max_element` returns an element that is not `comp`-below any element |
| Versions.DecideVersions | include/poac/core/resolver.hpp:114-139 | error exactly when the name is unknown, or the interval is not "latest" and no version satisfies it, and then NotFound(name, interval); otherwise a non-empty set of published versions: one for "latest", else the order-preserving subsequence of every satisfying version |
| Versions.LatestIsLeast | include/poac/core/resolver.hpp:118-121 | under a strict order, "latest" yields a published version that is greater than no other published version, i.e. the least one |
| BinStr.ToBinStr | include/poac/core/resolver.hpp:141-151 | the string is exactly `digit_num` characters, all '0' or '1', and read most significant first its value is `n mod 2^digit_num` |
| BinStr.BinStrProperties | include/poac/core/resolver.hpp:141-151 | the string has length d, is binary, has value `n mod 2^d`, holds bit i of n at position d-1-i, and its count of '1's is the popcount of the low d bits |
| Cnf.FindIndex | include/poac/core/resolver.hpp:174 | `std::find` returns the first position whose candidate is `==` to the child, or the end |
| Cnf.PositionsAt | include/poac/core/resolver.hpp:183-192 | the collected variables are the 1-based positions of exactly the candidates with the name |
| Cnf.GroupImplicationsMembers | include/poac/core/resolver.hpp:194-204 | for a group, the implication clauses are exactly `[+index, child positions…]` for each candidate with children |
| Cnf.BlockingFalsified | include/poac/core/resolver.hpp:221-230 | the clause built from bit pattern x is false exactly when the variables true are those whose bit in x is 1 |
| Cnf.OneHotExactlyOne | include/poac/core/resolver.hpp:209-231 | an assignment satisfies all the blocking clauses of a group exactly when exactly one of its variables is true |
| Cnf.OneHotShape | include/poac/core/resolver.hpp:214-231 | every blocking clause has length k and does not have exactly one negative literal, and the all-positive clause is among them |
| Cnf.OneHotCount | include/poac/core/resolver.hpp:214-219 | a group of k variables yields 2^k − k blocking clauses |
| Cnf.EncodingUpToPrefix | include/poac/core/resolver.hpp:159-233 | the clauses of the first m outer-loop visits are a prefix of those of the first n |
| Cnf.SingleCandidateClauses | include/poac/core/resolver.hpp:165-178 | a name held by one candidate at position i yields the unit clause [i] and, when it has children, `[-i, child positions…]` |
| Cnf.MultiCandidateClauses | include/poac/core/resolver.hpp:180-231 | a name held by k > 1 candidates yields all its blocking clauses over those positions and its implication clauses |
| Cnf.LaterOccurrenceAddsNothing | include/poac/core/resolver.hpp:159-162 | a candidate whose name was already grouped adds no clauses |
| Cnf.EncodingSound | include/poac/core/resolver.hpp:153-233 | in any satisfying assignment a unique-name candidate is true and, when it has children, one of them is true, every repeated name has exactly one true candidate, and an unchosen candidate with children has a true child |
| Cnf.EncodingLiterals | include/poac/core/resolver.hpp:173-174 | when every child is found in the list, every literal names one of the `|activated|` variables |
| Backtrack.DuplicateLooseMeans | include/poac/core/resolver.hpp:268-279 | `duplicate_loose` is true exactly when two distinct positions carry the same name |
| Backtrack.ActivatedToBacktracked | include/poac/core/resolver.hpp:258-265 | the list is copied unchanged, the map has a key for exactly its names, and without repeated names each name maps to its own candidate's version and source |
| Backtrack.AppendChildVars | include/poac/core/resolver.hpp:172-176 | appends the 1-based position of each child in order |
| Backtrack.BlockingFromBits | include/poac/core/resolver.hpp:216-230 | skips exactly the patterns with one set bit, and otherwise builds the clause negating the variables whose bit is set |
| Backtrack.EncodeGroup | include/poac/core/resolver.hpp:180-231 | appends the group's implication clauses then its blocking clauses, and records every position of the name as added |
| Backtrack.EncodeSingle | include/poac/core/resolver.hpp:165-178 | produces the unit and implication clauses of a unique-name candidate |
| Backtrack.EncodeVisit | include/poac/core/resolver.hpp:159-233 | one outer-loop step appends that candidate's share of the encoding and keeps `already_added` in step |
| Backtrack.EncodeClauses | include/poac/core/resolver.hpp:153-233 | the clauses built are the encoding of the list |
| Backtrack.ChosenShape | include/poac/core/resolver.hpp:242-247 | extraction yields one candidate per positive literal, and exactly the candidates `activated[a]` for positive `a` |
| Backtrack.ChosenLength | include/poac/core/resolver.hpp:242-247 | extraction appends one candidate per positive literal |
| Backtrack.ChosenMembers | include/poac/core/resolver.hpp:242-247 | the extracted candidates are exactly `activated[a]` for the positive literals `a` |
| Backtrack.Extract | include/poac/core/resolver.hpp:241-248 | the list holds the chosen candidates in assignment order and the map is their pins, a later write overriding |
| Backtrack.BacktrackLoop | include/poac/core/resolver.hpp:236-255 | CouldNotSolve exactly when the solver does not complete; otherwise the chosen candidates and their pins |
| Backtrack.LastSoleCandidateOutOfRange | include/poac/core/resolver.hpp:167-168 | a satisfying answer, when the last candidate's name is unique, makes extraction index past the end |
| Dedup.FirstMatch | include/poac/core/resolver.hpp:305-306 | the search returns the first later element with the same name and version, or the end |
| Dedup.DedupFromFacts | include/poac/core/resolver.hpp:303-311 | survivors keep their order, come from the input, and each removed element matches an earlier survivor |
| Dedup.DedupFromCountTwo | include/poac/core/resolver.hpp:303-311 | a pair occurring twice occurs once afterwards, and no pair becomes more frequent |
| Dedup.KeptProperties | include/poac/core/resolver.hpp:302-311 | survivors keep their relative order and values, every first occurrence survives, each removed element matches an earlier survivor, and a pair occurring exactly twice occurs once |
| Dedup.VisitStep | include/poac/core/resolver.hpp:304-309 | one visit (find a later copy, erase it if any) advances the loop by one survivor |
| Dedup.FindLater | include/poac/core/resolver.hpp:305-306 | returns the first later position with the same name and version, or the end |
| Dedup.DedupFromOrdered | include/poac/core/resolver.hpp:303-311 | survivors are entries of the input, in increasing position |
| Dedup.DedupFromCovers | include/poac/core/resolver.hpp:303-311 | a removed entry has an earlier surviving copy of the same name and version |
| Dedup.ThirdCopySurvives | include/poac/core/resolver.hpp:303-311 | of three copies of a pair, two survive: the first visit erases only the second |
| Dedup.DeleteDuplicate | include/poac/core/resolver.hpp:302-311 | the list left is the survivors of the specification, and a pair occurring exactly twice occurs once |
| Expansion.UnvisitedShrinks | include/poac/core/resolver.hpp:338 | pushing a published pair that was not yet an ancestor lowers the recursion measure |
| Expansion.DescendStep | include/poac/core/resolver.hpp:338-345 | descending from a version not yet an ancestor lowers the measure |
| Expansion.OfferedPick | include/poac/core/resolver.hpp:314-319 | a version `decide_versions` returns for a requirement is a pair offered for it |
| Expansion.PickedOffered | include/poac/core/resolver.hpp:319 | every version `decide_versions` returns is offered for the requirement |
| Expansion.JustifiedGrow | include/poac/core/resolver.hpp:338-347 | a candidate reached from the list stays reached when the list only grows |
| Expansion.JustifyNode | include/poac/core/resolver.hpp:340-347 | candidates reached from a version's manifest, followed by that version's node, keep the list justified |
| Expansion.JustifyJoin | include/poac/core/resolver.hpp:342-344 | the candidates added for one requirement of a manifest are justified by the whole manifest |
| Expansion.FailsUnderEntry | include/poac/core/resolver.hpp:340-345 | a failing requirement of the manifest of a pair is a failure under that pair |
| Expansion.FailsUnderCons | include/poac/core/resolver.hpp:340-345 | a failure under what a pair's manifest offers is a failure under that pair: the chain grows by one link |
| Expansion.FailsUnderWiden | include/poac/core/resolver.hpp:319-345 | a failure under a set of pairs is a failure under any wider set |
| Expansion.FailedManifest | include/poac/core/resolver.hpp:340-345 | a failed lookup for a manifest's requirements is a failure below the pair that manifest belongs to |
| Expansion.FailedSub | include/poac/core/resolver.hpp:342-344 | a failed lookup for one requirement is a failed lookup for the list holding it |
| Expansion.CoveredAncestors | include/poac/core/resolver.hpp:327-338 | at version `vs[k]` the ancestor list holds its pair exactly when the caller's list did or an earlier version of the call is the same |
| Expansion.HistoryExpand | include/poac/core/resolver.hpp:325-347 | a version neither guard stops is recorded as expanded: the list after it ends with its node |
| Expansion.HistoryBreak | include/poac/core/resolver.hpp:327-336 | a guard that fires at a version closes the history there with nothing appended |
| Expansion.HistoryDone | include/poac/core/resolver.hpp:319-349 | running out of versions closes the history with every version expanded |
| Expansion.ExpandStep | include/poac/core/resolver.hpp:338-351 | after the recursive calls, appending the node with its children keeps the version-loop invariant |
| Expansion.VersionStep | include/poac/core/resolver.hpp:338-351 | one expanded version keeps the loop state, the history and the justification of the list |
| Expansion.BreakOutcome | include/poac/core/resolver.hpp:321-336 | a guard that fires at a version already on the ancestor list or already activated ends the call with the child list holding that version as its last entry |
| Expansion.FinishVersions | include/poac/core/resolver.hpp:319-352 | whether a guard stopped the version loop or it ran out of versions, the call ends with an outcome, a closed history and a justified list |
| Expansion.Activate | include/poac/core/resolver.hpp:313-353 | an error is `decide_versions` failing on this requirement, or on a requirement of the manifest of a version reached from it through a chain of manifests, and a failing lookup of this requirement is that error; otherwise the activated list only grows by well-formed registry candidates reached from this requirement's versions, each node's children being leaves of versions `decide_versions` returns for its manifest's requirements with the first one of every requirement among them; the child list gets a leaf per version up to where the loop stops, every version before that was expanded (no guard fired there), a guard fired at the last one exactly when nothing was appended for it, and the loop stopped early only because a guard fired |
| Expansion.ActivateVersions | include/poac/core/resolver.hpp:319-352 | the version loop: an error is a failing lookup reached from one of the versions; otherwise the same outcome (appended nodes well-formed, children decided per requirement), history and justification as `Activate`, for the given versions |
| Expansion.VisitVersion | include/poac/core/resolver.hpp:321-351 | one version: it stops the loop exactly when the pair is an ancestor or already activated, otherwise expands it keeping the loop state, and an error is a failing lookup reached from that version |
| Expansion.ExpandVersion | include/poac/core/resolver.hpp:340-350 | a version gets its manifest's requirements activated; its children are registry leaves, activated or ancestors, each a version `decide_versions` returns for one of the requirements, with the first such version of every requirement among them (none without a manifest); the new candidates are reached from the manifest; an error is a failing lookup reached from this version |
| Expansion.AllStep | include/poac/core/resolver.hpp:342-345 | activating one more manifest requirement keeps the loop's shape: the children stay registry leaves of decided versions of the requirements so far, and the new requirement's first decided version is among them |
| Expansion.AllDecided | include/poac/core/resolver.hpp:319-345 | the children after `activate` for one more requirement pushed the leaves of its first decided versions are the child list of the requirements so far |
| Expansion.AllDecidedLeaves | include/poac/core/resolver.hpp:320-345 | every child pushed for the new requirement is a decided version of it |
| Expansion.AllDecidedFirst | include/poac/core/resolver.hpp:319-345 | the first decided version of every requirement so far is a child |
| Expansion.WrongChildRejected | include/poac/core/resolver.hpp:319-350 | with a manifest requiring `b` at an interval only `b@1` satisfies, a node holding `b@2` instead, or no child, is not well-formed, and one holding `b@1` is |
| Expansion.AllChildren | include/poac/core/resolver.hpp:320-345 | the children after one more requirement are registry leaves, each activated or an ancestor |
| Expansion.ActivateReq | include/poac/core/resolver.hpp:342-345 | one manifest requirement: a failed lookup is a failed lookup for the manifest, otherwise the loop invariant (children decided per requirement, list justified) holds one step further |
| Expansion.ActivateAll | include/poac/core/resolver.hpp:340-346 | activating each manifest requirement only appends; the children are registry leaves, each activated or an ancestor and each a version `decide_versions` returns for one of the requirements, with every requirement's first decided version among them; only candidates offered by the manifest are reached; an error is a failed lookup of a requirement or below one |
| Expansion.TopStep | include/poac/core/resolver.hpp:360-370 | appending a top-level node after its children keeps the list closed |
| Expansion.ActivateTop | include/poac/core/resolver.hpp:358-375 | one top-level requirement only appends well-formed candidates (children decided per manifest requirement), each offered for it or reached from a candidate, and activates every version chosen for it; an error is a failing lookup of it or of a manifest entry reached from it |
| Expansion.DedupKeepsCovered | include/poac/core/resolver.hpp:377 | `delete_duplicate` keeps every name/version pair present |
| Expansion.DedupKeepsMembers | include/poac/core/resolver.hpp:377 | `delete_duplicate` keeps only elements of its input |
| Expansion.DedupKeepsClosed | include/poac/core/resolver.hpp:377 | a closed, well-formed list stays so after `delete_duplicate` |
| Expansion.DedupKeepsWellFormed | include/poac/core/resolver.hpp:377 | the survivors of `delete_duplicate` are well-formed when its input is |
| Expansion.DedupKeepsChildren | include/poac/core/resolver.hpp:377 | every child is still found in the list after `delete_duplicate` |
| Expansion.DedupKeepsReached | include/poac/core/resolver.hpp:377 | a candidate reached from the list is reached from the survivors, through the kept copy of the same name and version |
| Expansion.DedupKeepsJustified | include/poac/core/resolver.hpp:377 | every survivor of `delete_duplicate` is still chosen for a requirement or reached from a survivor |
| Expansion.DepsStep | include/poac/core/resolver.hpp:358-375 | activating one more top-level requirement keeps the list closed and every chosen version activated |
| Expansion.DedupKeepsChosen | include/poac/core/resolver.hpp:377 | every version chosen for a top-level requirement is still activated after `delete_duplicate` |
| Expansion.ActivateDepsLoop | include/poac/core/resolver.hpp:355-379 | an error is a failed lookup of a requirement or of a manifest entry reached from the requirements, and any failing top-level lookup is an error; otherwise every candidate is well-formed (its children are leaves of versions decided for its manifest's requirements, the first of each among them), every child is in the list, every chosen top-level version is in the list, every candidate is chosen for a requirement or reached from another candidate's manifest, and no pins are set |
| Resolver.PartitionCount | include/poac/core/resolver.hpp:387-394 | every requirement goes to exactly one side of the split |
| Resolver.PartitionSources | include/poac/core/resolver.hpp:387-394 | the registry side holds only "poac" requirements and the other side none |
| Resolver.PoacRequirement | include/poac/core/resolver.hpp:388-389 | every requirement on the registry side is a "poac" requirement of the input |
| Resolver.OfferedForRequirement | include/poac/core/resolver.hpp:396 | a pair offered for the registry side is a version chosen for a "poac" requirement of the input |
| Resolver.PoacDepsMember | include/poac/core/resolver.hpp:388-389 | every "poac" requirement is on the registry side |
| Resolver.Split | include/poac/core/resolver.hpp:387-394 | the loop produces the two sides of the split in order |
| Resolver.ClosedChildrenFound | include/poac/core/resolver.hpp:199-201 | in a closed activation every child is found, so every literal names an existing variable |
| Resolver.OtherPinWins | include/poac/core/resolver.hpp:408-412 | the last other requirement of a name pins that name to its interval and source, overriding the registry side |
| Resolver.MergeOthers | include/poac/core/resolver.hpp:408-412 | appends `{name, interval, source, {}}` per other requirement and keeps the map the one the list induces |
| Resolver.Resolve | include/poac/core/resolver.hpp:382-414 | an unknown registry requirement is an error, and a "not found" error is a failing lookup of a "poac" requirement or of an entry of a manifest reached from the versions chosen for the "poac" requirements; CouldNotSolve only when a name repeats and the solver fails; PastEnd (the undefined read past the end of the list) exactly when a name repeats and the solver completes with a true variable at or past the number of candidates, with no requirement on the solver; the map is always the one the list induces; the registry part is the activation list when no name repeats and the solver's choice otherwise, followed by the other requirements verbatim; every candidate is well-formed (its children are leaves of versions decided for its manifest's requirements), every literal names an existing variable, and every version chosen for a registry requirement is a candidate, and every candidate is a version chosen for a "poac" requirement or reached from another candidate's manifest |

## Left out

- `get_version` and `get_deps_api` are network calls. `get_from_dep` reads JSON. The registry maps replace all three.
- `cache::resolve`, `current::resolve` and `archive_url` probe the filesystem or depend on `naming::to_cache`, which is not part of this model.
- Semver parsing and comparison are not modelled. They are the parameters `satisfies` and `greater`.
- The SAT solver's internals are not modelled. The solver is a parameter.
- The text of the exception messages is left out.
- State left behind when an exception propagates is not modelled: an `Err` carries no partial result.
- `"latest"` on an empty published list dereferences `max_element`'s end iterator, which is undefined behaviour. `Registry.Valid` rules this out instead.
- Registry.Valid: requires every published version list to be non-empty, so the model does not cover a name whose list is empty. In the source only `"latest"` is undefined there; any other interval on an empty list is "not found", as for an interval nothing satisfies (resolver.hpp:123-130).
- Backtrack.EncodeGroup: does not model the 32-bit `int` of `1 << clause.size()`, which overflows for 31 or more candidates of one name; widths of clause literals are unbounded integers.
- Expansion.Activate: the post-order promise (a node follows its children) is stated as closedness instead. Every child is in the activated list or on the ancestor list, and the list only grows. A strict "every child precedes its parent" does not hold for the code: under the cycle guard a child can be an ancestor whose own node is appended only after the parent's (resolver.hpp:327-329, 347). The version history (`Guarded`) does state that each expanded version's node is appended after everything its requirements added.
- Expansion.Activate: the caller's ancestor list is unchanged by construction, because it is an input value. No clause states it.
- Expansion.ActivateAll: the exact child list of a manifest (for each requirement in turn, the leaves of a prefix of its decided versions, in order) is stated per requirement by `Activate`'s `Outcome`; across the manifest, and so in `WellFormedNode`, only that every child is a decided version of one requirement and that every requirement's first decided version is a child are kept.
