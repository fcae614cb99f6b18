/**
 * Version selection, `decide_versions` (include/poac/core/resolver.hpp, lines 110-139):
 * an interval is turned into the list of published versions it admits, or `"latest"`
 * into one element picked by `std::max_element`.
 */
module Versions {
  import opened Wrappers
  import opened Model

  /** `a` can be obtained from `b` by deleting elements (order preserved). */
  predicate IsSubsequence<T(==)>(a: seq<T>, b: seq<T>)
    decreases |b|
  {
    if a == [] then true
    else if b == [] then false
    else if a[0] == b[0] then IsSubsequence(a[1..], b[1..])
    else IsSubsequence(a, b[1..])
  }

  /** `std::copy_if` into a fresh vector: the elements of `s` that `keep` accepts. */
  function CopyIf(s: seq<string>, keep: string -> bool): (r: seq<string>)
    ensures IsSubsequence(r, s)
    ensures forall v :: v in r ==> v in s && keep(v)
    ensures forall v :: v in s && keep(v) ==> v in r
  {
    if s == [] then []
    else if keep(s[0]) then [s[0]] + CopyIf(s[1..], keep)
    else CopyIf(s[1..], keep)
  }

  /** `std::max_element(first, last, comp)`: the running candidate is replaced by a later
      element exactly when `comp(candidate, element)` holds. */
  function MaxElementIndex(s: seq<string>, comp: (string, string) -> bool): (k: nat)
    requires |s| > 0
    ensures k < |s|
  {
    if |s| == 1 then 0
    else
      var k := MaxElementIndex(s[..|s| - 1], comp);
      if comp(s[k], s[|s| - 1]) then |s| - 1 else k
  }

  /** `comp` is a strict order on the elements of `s`. */
  predicate StrictOrderOn(s: seq<string>, comp: (string, string) -> bool)
  {
    (forall a :: a in s ==> !comp(a, a)) &&
    (forall a, b, c :: a in s && b in s && c in s && comp(a, b) && comp(b, c) ==> comp(a, c))
  }

  /** Under a strict order, no element of `s` is above the one `std::max_element` picks. */
  lemma {:induction false} MaxElementIsMaximal(s: seq<string>, comp: (string, string) -> bool)
    requires |s| > 0 && StrictOrderOn(s, comp)
    ensures forall j :: 0 <= j < |s| ==> !comp(s[MaxElementIndex(s, comp)], s[j])
  {
    if |s| > 1 {
      var init := s[..|s| - 1];
      assert forall a :: a in init ==> a in s;
      MaxElementIsMaximal(init, comp);
      var k := MaxElementIndex(init, comp);
      forall j | 0 <= j < |s| ensures !comp(s[MaxElementIndex(s, comp)], s[j]) {
        if j < |s| - 1 {
          assert init[j] == s[j];
          assert init[k] == s[k];
          if comp(s[k], s[|s| - 1]) && comp(s[|s| - 1], s[j]) {
            assert comp(s[k], s[j]);
          }
        }
      }
    }
  }

  /** The versions `decide_versions(name, interval)` returns, or the error it throws:
      an unknown name, or an interval other than `"latest"` admitting nothing, is
      `NotFound`. */
  function DecideVersions(reg: Registry, name: string, interval: string): (r: Result<seq<string>, Error>)
    requires reg.Valid()
    ensures r.Err? <==> name !in reg.versions ||
                        (interval != "latest" && forall v :: v in reg.versions[name] ==> !reg.satisfies(name, interval, v))
    ensures r.Err? ==> r.error == NotFound(name, interval)
    ensures r.Ok? ==> |r.value| > 0 && forall v :: v in r.value ==> v in reg.versions[name]
    ensures r.Ok? && interval == "latest" ==> |r.value| == 1
    ensures r.Ok? && interval != "latest" ==>
              IsSubsequence(r.value, reg.versions[name]) &&
              (forall v :: v in r.value ==> reg.satisfies(name, interval, v)) &&
              (forall v :: v in reg.versions[name] && reg.satisfies(name, interval, v) ==> v in r.value)
  {
    if name !in reg.versions then Err(NotFound(name, interval))
    else
      var versions := reg.versions[name];
      if interval == "latest" then
        Ok([versions[MaxElementIndex(versions, reg.greater)]])
      else
        var res := CopyIf(versions, v => reg.satisfies(name, interval, v));
        if res == [] then Err(NotFound(name, interval))
        else assert res[0] in versions; Ok(res)
  }

  /** `"latest"` hands `std::max_element` a greater-than comparator, so when `greater` is
      a strict order the version it returns is one that no published version is below:
      the least version, not the greatest. */
  lemma LatestIsLeast(reg: Registry, name: string)
    requires reg.Valid() && name in reg.versions && StrictOrderOn(reg.versions[name], reg.greater)
    ensures DecideVersions(reg, name, "latest").Ok?
    ensures var v := DecideVersions(reg, name, "latest").value[0];
            v in reg.versions[name] && forall w :: w in reg.versions[name] ==> !reg.greater(v, w)
  {
    MaxElementIsMaximal(reg.versions[name], reg.greater);
  }
}
