/**
 * `delete_duplicate` (include/poac/core/resolver.hpp, lines 302-311): for each position
 * in turn, the first later candidate with the same name and version is erased in place.
 * The specification follows each candidate together with its position in the original
 * list, so that "which candidates survive" can be stated.
 */
module Dedup {
  import opened Model

  /** A candidate together with its position in the original list. */
  type Entry = (nat, Package)

  function Tagged(a: seq<Package>): (r: seq<Entry>)
    ensures |r| == |a| && forall i :: 0 <= i < |a| ==> r[i] == (i, a[i])
  {
    seq(|a|, i requires 0 <= i < |a| => (i, a[i]))
  }

  function Untag(t: seq<Entry>): (r: seq<Package>)
    ensures |r| == |t| && forall k :: 0 <= k < |t| ==> r[k] == t[k].1
  {
    seq(|t|, k requires 0 <= k < |t| => t[k].1)
  }

  /** The original positions appear in increasing order. */
  predicate Increasing(t: seq<Entry>)
  {
    forall i, j :: 0 <= i < j < |t| ==> t[i].0 < t[j].0
  }

  /** The offset of the first entry whose candidate has the name and version of `x`
      (`std::find_if`), or `|t|`. */
  function FirstMatch(t: seq<Entry>, x: Package): (k: nat)
    ensures k <= |t|
    ensures k < |t| ==> SameNameVersion(t[k].1, x)
    ensures forall m :: 0 <= m < k ==> !SameNameVersion(t[m].1, x)
  {
    if t == [] then 0
    else if SameNameVersion(t[0].1, x) then 0
    else 1 + FirstMatch(t[1..], x)
  }

  /** `erase(found)` when something was found. */
  function RemoveFirstMatch(t: seq<Entry>, x: Package): (r: seq<Entry>)
    ensures |r| <= |t|
  {
    var k := FirstMatch(t, x);
    if k < |t| then t[..k] + t[k + 1..] else t
  }

  /** The entries that survive when the procedure runs over `t`. */
  function DedupFrom(t: seq<Entry>): seq<Entry>
    decreases |t|
  {
    if t == [] then []
    else [t[0]] + DedupFrom(RemoveFirstMatch(t[1..], t[0].1))
  }

  /** The entries of `a` that `delete_duplicate` keeps. */
  function Kept(a: seq<Package>): seq<Entry>
  {
    DedupFrom(Tagged(a))
  }

  /** How many entries of `t` have the name and version of `e`. */
  function CountMatch(t: seq<Entry>, e: Package): nat
  {
    if t == [] then 0
    else (if SameNameVersion(t[0].1, e) then 1 else 0) + CountMatch(t[1..], e)
  }

  /** How many candidates of `s` have the name and version of `e`. */
  function CountPair(s: seq<Package>, e: Package): nat
  {
    if s == [] then 0 else (if SameNameVersion(s[0], e) then 1 else 0) + CountPair(s[1..], e)
  }

  /** No earlier candidate has the name and version of `a[x]`. */
  predicate FirstOccurrence(a: seq<Package>, x: nat)
    requires x < |a|
  {
    forall y :: 0 <= y < x ==> !SameNameVersion(a[y], a[x])
  }

  // ---------------------------------------------------------------------------------

  lemma RemoveFirstMatchFacts(t: seq<Entry>, x: Package)
    requires Increasing(t)
    ensures Increasing(RemoveFirstMatch(t, x))
    ensures forall z :: z in RemoveFirstMatch(t, x) ==> z in t
    ensures forall z :: z in t && z !in RemoveFirstMatch(t, x) ==> SameNameVersion(z.1, x)
  {
    var k := FirstMatch(t, x);
    if k < |t| {
      var r := t[..k] + t[k + 1..];
      assert forall i :: 0 <= i < |r| ==> r[i] == if i < k then t[i] else t[i + 1];
      forall z | z in t && z !in r ensures SameNameVersion(z.1, x) {
        var i :| 0 <= i < |t| && t[i] == z;
      }
    }
  }

  lemma {:induction false} CountMatchConcat(s: seq<Entry>, t: seq<Entry>, e: Package)
    ensures CountMatch(s + t, e) == CountMatch(s, e) + CountMatch(t, e)
  {
    if s != [] {
      assert (s + t)[1..] == s[1..] + t;
      CountMatchConcat(s[1..], t, e);
    } else {
      assert s + t == t;
    }
  }

  lemma RemoveFirstMatchCount(t: seq<Entry>, x: Package, e: Package)
    ensures var k := FirstMatch(t, x);
            CountMatch(RemoveFirstMatch(t, x), e) ==
            CountMatch(t, e) - (if k < |t| && SameNameVersion(x, e) then 1 else 0)
  {
    var k := FirstMatch(t, x);
    if k < |t| {
      assert t == t[..k] + ([t[k]] + t[k + 1..]);
      CountMatchConcat(t[..k], [t[k]] + t[k + 1..], e);
      CountMatchConcat(t[..k], t[k + 1..], e);
      assert ([t[k]] + t[k + 1..])[1..] == t[k + 1..];
    }
  }

  lemma DedupFromFacts(t: seq<Entry>)
    requires Increasing(t)
    ensures Increasing(DedupFrom(t))
    ensures forall z :: z in DedupFrom(t) ==> z in t
    ensures forall x :: x in t && x !in DedupFrom(t) ==>
              exists y :: y in DedupFrom(t) && y.0 < x.0 && SameNameVersion(y.1, x.1)
  {
    DedupFromOrdered(t);
    DedupFromCovers(t);
  }

  /** The surviving entries are entries of `t`, in increasing order of position. */
  lemma {:induction false} DedupFromOrdered(t: seq<Entry>)
    requires Increasing(t)
    ensures Increasing(DedupFrom(t))
    ensures forall z :: z in DedupFrom(t) ==> z in t
    decreases |t|
  {
    if t != [] {
      var h, tl := t[0], t[1..];
      var rest := RemoveFirstMatch(tl, h.1);
      assert Increasing(tl);
      RemoveFirstMatchFacts(tl, h.1);
      DedupFromOrdered(rest);
      assert DedupFrom(t) == [h] + DedupFrom(rest);
      forall z | z in tl ensures h.0 < z.0 {
        var j :| 0 <= j < |tl| && tl[j] == z;
        assert t[j + 1] == z;
      }
      ConsIncreasing(h, DedupFrom(rest), tl);
    }
  }

  /** An entry of `t` that does not survive has an earlier surviving copy. */
  lemma {:induction false} DedupFromCovers(t: seq<Entry>)
    requires Increasing(t)
    ensures forall x :: x in t && x !in DedupFrom(t) ==>
              exists y :: y in DedupFrom(t) && y.0 < x.0 && SameNameVersion(y.1, x.1)
    decreases |t|
  {
    if t != [] {
      var h, tl := t[0], t[1..];
      var rest := RemoveFirstMatch(tl, h.1);
      assert Increasing(tl);
      RemoveFirstMatchFacts(tl, h.1);
      DedupFromCovers(rest);
      assert DedupFrom(t) == [h] + DedupFrom(rest);
      ConsCovers(t, rest, DedupFrom(rest));
    }
  }

  /** An entry placed before entries drawn from later positions keeps the order. */
  lemma ConsIncreasing(h: Entry, d: seq<Entry>, tl: seq<Entry>)
    requires Increasing(d) && (forall z :: z in d ==> z in tl) && (forall z :: z in tl ==> h.0 < z.0)
    ensures Increasing([h] + d)
  {
    forall i, j | 0 <= i < j < |[h] + d| ensures ([h] + d)[i].0 < ([h] + d)[j].0 {
      if i == 0 {
        assert ([h] + d)[j] == d[j - 1] && d[j - 1] in d;
      }
    }
  }

  /** An entry of `t` missing from `[t[0]] + d` has an earlier copy there: `t[0]` when
      the first step erased it, or the one `d` already promises for the rest. */
  lemma ConsCovers(t: seq<Entry>, rest: seq<Entry>, d: seq<Entry>)
    requires t != [] && Increasing(t)
    requires forall z :: z in t[1..] && z !in rest ==> SameNameVersion(z.1, t[0].1)
    requires forall x :: x in rest && x !in d ==>
               exists y :: y in d && y.0 < x.0 && SameNameVersion(y.1, x.1)
    ensures forall x :: x in t && x !in [t[0]] + d ==>
              exists y :: y in [t[0]] + d && y.0 < x.0 && SameNameVersion(y.1, x.1)
  {
    var h, e := t[0], [t[0]] + d;
    forall x | x in t && x !in e
      ensures exists y :: y in e && y.0 < x.0 && SameNameVersion(y.1, x.1)
    {
      var i :| 0 <= i < |t| && t[i] == x;
      assert i > 0 && x == t[1..][i - 1];
      if x in rest {
        var y :| y in d && y.0 < x.0 && SameNameVersion(y.1, x.1);
        assert y in e;
      } else {
        assert h in e && h.0 < x.0;
      }
    }
  }

  lemma {:induction false} CountMatchNone(t: seq<Entry>, e: Package, x: Package)
    requires SameNameVersion(x, e) && FirstMatch(t, x) == |t|
    ensures CountMatch(t, e) == 0
  {
    if t != [] {
      CountMatchNone(t[1..], e, x);
    }
  }

  lemma {:induction false} DedupFromCountTwo(t: seq<Entry>, e: Package)
    requires CountMatch(t, e) <= 2
    ensures CountMatch(DedupFrom(t), e) <= CountMatch(t, e)
    ensures CountMatch(t, e) == 2 ==> CountMatch(DedupFrom(t), e) == 1
    decreases |t|
  {
    if t != [] {
      var h, tl := t[0], t[1..];
      var rest := RemoveFirstMatch(tl, h.1);
      RemoveFirstMatchCount(tl, h.1, e);
      DedupFromCountTwo(rest, e);
      assert DedupFrom(t)[1..] == DedupFrom(rest);
      if SameNameVersion(h.1, e) && CountMatch(t, e) == 2 {
        if FirstMatch(tl, h.1) == |tl| {
          CountMatchNone(tl, e, h.1);
        }
      }
    }
  }

  lemma {:induction false} CountMatchUntag(t: seq<Entry>, e: Package)
    ensures CountPair(Untag(t), e) == CountMatch(t, e)
  {
    if t != [] {
      CountMatchUntag(t[1..], e);
      assert Untag(t)[1..] == Untag(t[1..]);
    }
  }

  // ---------------------------------------------------------------------------------

  /** What `Kept` promises about the entries that survive. */
  lemma KeptProperties(a: seq<Package>)
    ensures Increasing(Kept(a))
    ensures forall z :: z in Kept(a) ==> z.0 < |a| && z.1 == a[z.0]
    ensures forall x :: 0 <= x < |a| && FirstOccurrence(a, x) ==> (x, a[x]) in Kept(a)
    ensures forall x :: 0 <= x < |a| && (x, a[x]) !in Kept(a) ==>
              exists y :: y in Kept(a) && y.0 < x && SameNameVersion(y.1, a[x])
    ensures forall e :: CountPair(a, e) == 2 ==> CountPair(Untag(Kept(a)), e) == 1
  {
    var t := Tagged(a);
    DedupFromFacts(t);
    forall z | z in Kept(a) ensures z.0 < |a| && z.1 == a[z.0] {
      assert z in t;
    }
    forall x | 0 <= x < |a| && FirstOccurrence(a, x) ensures (x, a[x]) in Kept(a) {
      assert t[x] in t;
    }
    forall x | 0 <= x < |a| && (x, a[x]) !in Kept(a)
      ensures exists y :: y in Kept(a) && y.0 < x && SameNameVersion(y.1, a[x])
    {
      assert t[x] in t;
    }
    assert Untag(t) == a;
    forall e | CountPair(a, e) == 2 ensures CountPair(Untag(Kept(a)), e) == 1 {
      CountMatchUntag(t, e);
      DedupFromCountTwo(t, e);
      CountMatchUntag(Kept(a), e);
    }
  }

  /** One visit: erasing the match found after position `i` keeps the entries fixed so
      far plus the entries the rest of the procedure will keep. */
  lemma VisitStep(t: seq<Entry>, t': seq<Entry>, i: nat, j: nat)
    requires i < j <= |t|
    requires FirstMatch(t[i + 1..], t[i].1) == j - i - 1
    requires t' == if j < |t| then t[..j] + t[j + 1..] else t
    ensures t[..i] + DedupFrom(t[i..]) == t'[..i + 1] + DedupFrom(t'[i + 1..])
  {
    var rest := RemoveFirstMatch(t[i + 1..], t[i].1);
    VisitErases(t, t', i, j);
    assert t[i..] == [t[i]] + t[i + 1..];
    var d := DedupFrom(rest);
    assert DedupFrom(t[i..]) == [t[i]] + d;
    assert t'[..i + 1] == t[..i] + [t[i]];
    assert t[..i] + ([t[i]] + d) == (t[..i] + [t[i]]) + d;
  }

  /** What the visit erases is what `RemoveFirstMatch` drops from the rest of the list. */
  lemma VisitErases(t: seq<Entry>, t': seq<Entry>, i: nat, j: nat)
    requires i < j <= |t|
    requires FirstMatch(t[i + 1..], t[i].1) == j - i - 1
    requires t' == if j < |t| then t[..j] + t[j + 1..] else t
    ensures t'[i + 1..] == RemoveFirstMatch(t[i + 1..], t[i].1)
  {
    if j < |t| {
      var u := t[i + 1..];
      assert u[..j - i - 1] == t[i + 1..j];
      assert u[j - i..] == t[j + 1..];
      assert t'[i + 1..] == t[i + 1..j] + t[j + 1..];
    }
  }

  /** The offset where a scan stops is the one `FirstMatch` names. */
  lemma {:induction false} FirstMatchIs(t: seq<Entry>, x: Package, k: nat)
    requires k <= |t|
    requires forall m :: 0 <= m < k ==> !SameNameVersion(t[m].1, x)
    requires k < |t| ==> SameNameVersion(t[k].1, x)
    ensures FirstMatch(t, x) == k
  {
    if k > 0 {
      FirstMatchIs(t[1..], x, k - 1);
    }
  }

  /** `std::find_if` from position `i + 1` for the name and version of `s[i]`. */
  method FindLater(s: seq<Package>, i: nat) returns (j: nat)
    requires i < |s|
    ensures i < j <= |s|
    ensures forall m :: i < m < j ==> !SameNameVersion(s[i], s[m])
    ensures j < |s| ==> SameNameVersion(s[i], s[j])
  {
    j := i + 1;
    while j < |s| && !SameNameVersion(s[i], s[j])
      invariant i + 1 <= j <= |s|
      invariant forall m :: i < m < j ==> !SameNameVersion(s[i], s[m])
    {
      j := j + 1;
    }
  }

  /** Each visit erases one later copy at most, so of three copies of a pair two are
      kept: the first visit erases the second copy, and the third becomes the next one
      visited. */
  lemma ThirdCopySurvives(p: Package)
    ensures Untag(Kept([p, p, p])) == [p, p]
  {
    var t := Tagged([p, p, p]);
    assert t == [(0, p), (1, p), (2, p)];
    assert RemoveFirstMatch(t[1..], p) == [(2, p)];
    assert RemoveFirstMatch([(2, p)][1..], p) == [];
    assert DedupFrom([(2, p)]) == [(2, p)];
    assert Kept([p, p, p]) == [(0, p), (2, p)];
  }

  /** `delete_duplicate`: visit each position, erase the first later candidate with the
      same name and version. The result is the candidates `Kept` names (whose properties
      `KeptProperties` states); a pair present exactly twice is present once afterwards. */
  method DeleteDuplicate(activated: seq<Package>) returns (r: seq<Package>)
    ensures r == Untag(Kept(activated))
    ensures forall e :: CountPair(activated, e) == 2 ==> CountPair(r, e) == 1
  {
    var s := activated;
    ghost var t := Tagged(activated);
    ghost var kept := Kept(activated);
    assert s == Untag(t);
    assert t[..0] == [] && t[0..] == t;
    var i := 0;
    while i < |s|
      invariant |t| == |s| && i <= |s| && s == Untag(t)
      invariant kept == t[..i] + DedupFrom(t[i..])
    {
      var j := FindLater(s, i);
      FirstMatchIs(t[i + 1..], t[i].1, j - i - 1);
      ghost var t' := if j < |t| then t[..j] + t[j + 1..] else t;
      VisitStep(t, t', i, j);
      if j < |s| {
        UntagErase(t, j);
        s := s[..j] + s[j + 1..];
      }
      t := t';
      i := i + 1;
    }
    assert t[..i] == t && t[i..] == [];
    r := s;
    KeptProperties(activated);
  }

  lemma UntagErase(t: seq<Entry>, j: nat)
    requires j < |t|
    ensures Untag(t[..j] + t[j + 1..]) == Untag(t)[..j] + Untag(t)[j + 1..]
  {
  }
}
