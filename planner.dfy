/**
 * GetUpdatesToApply: sort the caller's catalog list newest first, collect
 * entries while they are strictly newer than the installed version, stop
 * at the first one that is not, and reverse the result to oldest first.
 *
 * The order is a function value `key` from an entry to its version
 * components, the way List.Sort takes its comparison as a delegate; the
 * updater's own order is `VersionKey`, the components CompareVersions
 * parses, compared zero-padded.
 */
module Planner {
  import opened Wrappers
  import opened Versions
  import opened Catalog

  /** An entry whose version int.Parse accepts, so that CompareVersions does not throw on it. */
  predicate ValidEntry(e: Entry) { IsVersion(e.version) }

  predicate AllValid(s: seq<Entry>) { forall i :: 0 <= i < |s| ==> ValidEntry(s[i]) }

  /** The components CompareVersions parses from an entry's version (none where it would throw). */
  function VersionKey(e: Entry): (k: seq<int>)
    ensures ValidEntry(e) ==> Components(e.version) == Some(k)
  {
    if IsVersion(e.version) then Components(e.version).value else []
  }

  /** CompareVersions(e.Version, f.Version) >= 0. */
  predicate AtLeastAsNew(e: Entry, f: Entry, key: Entry -> seq<int>)
  {
    ComparePadded(key(e), key(f)) >= 0
  }

  /** CompareVersions(e.Version, currentVersion) > 0. */
  predicate NewerThan(e: Entry, key: Entry -> seq<int>, current: seq<int>)
  {
    ComparePadded(key(e), current) > 0
  }

  /** The order `allVersions.Sort((a, b) => CompareVersions(b.Version, a.Version))` leaves. */
  predicate SortedDescending(s: seq<Entry>, key: Entry -> seq<int>)
  {
    forall i, j :: 0 <= i < j < |s| ==> AtLeastAsNew(s[i], s[j], key)
  }

  predicate SortedAscending(s: seq<Entry>, key: Entry -> seq<int>)
  {
    forall i, j :: 0 <= i < j < |s| ==> AtLeastAsNew(s[j], s[i], key)
  }

  /** Versions never tie in a strictly ascending sequence. */
  predicate StrictlyAscending(s: seq<Entry>, key: Entry -> seq<int>)
  {
    forall i, j :: 0 <= i < j < |s| ==> ComparePadded(key(s[i]), key(s[j])) < 0
  }

  /** Any two entries are ordered one way or the other. */
  lemma AtLeastAsNewTotal(e: Entry, f: Entry, key: Entry -> seq<int>)
    ensures AtLeastAsNew(e, f, key) || AtLeastAsNew(f, e, key)
  {
    CompareAntisymmetric(key(e), key(f), 0);
  }

  lemma AtLeastAsNewTransitive(e: Entry, f: Entry, g: Entry, key: Entry -> seq<int>)
    requires AtLeastAsNew(e, f, key) && AtLeastAsNew(f, g, key)
    ensures AtLeastAsNew(e, g, key)
  {
    CompareAntisymmetric(key(e), key(f), 0);
    CompareAntisymmetric(key(f), key(g), 0);
    CompareAntisymmetric(key(e), key(g), 0);
    CompareTransitive(key(g), key(f), key(e), 0);
  }

  /** Whatever is at least as new as an entry newer than the installed version is newer too. */
  lemma NewerThroughOrder(e: Entry, f: Entry, key: Entry -> seq<int>, current: seq<int>)
    requires AtLeastAsNew(e, f, key) && NewerThan(f, key, current)
    ensures NewerThan(e, key, current)
  {
    CompareAntisymmetric(key(e), key(f), 0);
    CompareAntisymmetric(key(f), current, 0);
    CompareAntisymmetric(key(e), current, 0);
    CompareTransitive(current, key(f), key(e), 0);
  }

  /** The entries the foreach collects before its `break`. */
  function TakeWhileNewer(s: seq<Entry>, key: Entry -> seq<int>, current: seq<int>): (r: seq<Entry>)
    ensures |r| <= |s| && r == s[..|r|]
    ensures forall i :: 0 <= i < |r| ==> NewerThan(r[i], key, current)
    ensures |r| < |s| ==> !NewerThan(s[|r|], key, current)
  {
    if s == [] || !NewerThan(s[0], key, current) then []
    else [s[0]] + TakeWhileNewer(s[1..], key, current)
  }

  /** Every entry strictly newer than the installed version, in list order. */
  function FilterNewer(s: seq<Entry>, key: Entry -> seq<int>, current: seq<int>): (r: seq<Entry>)
    ensures forall i :: 0 <= i < |r| ==> r[i] in s && NewerThan(r[i], key, current)
    ensures forall i :: 0 <= i < |s| && NewerThan(s[i], key, current) ==> s[i] in r
  {
    if s == [] then []
    else if NewerThan(s[0], key, current) then [s[0]] + FilterNewer(s[1..], key, current)
    else FilterNewer(s[1..], key, current)
  }

  /** The filter keeps each newer entry as often as it occurs, and nothing else. */
  lemma {:induction false} FilterNewerCount(s: seq<Entry>, key: Entry -> seq<int>, current: seq<int>, e: Entry)
    ensures multiset(FilterNewer(s, key, current))[e] == if NewerThan(e, key, current) then multiset(s)[e] else 0
  {
    if s != [] {
      FilterNewerCount(s[1..], key, current, e);
      assert s == [s[0]] + s[1..];
    }
  }

  function Reverse(s: seq<Entry>): (r: seq<Entry>)
    ensures |r| == |s|
    ensures forall i :: 0 <= i < |s| ==> r[i] == s[|s| - 1 - i]
  {
    if s == [] then [] else Reverse(s[1..]) + [s[0]]
  }

  lemma {:induction false} ReverseMultiset(s: seq<Entry>)
    ensures multiset(Reverse(s)) == multiset(s)
  {
    if s != [] {
      ReverseMultiset(s[1..]);
      assert s == [s[0]] + s[1..];
    }
  }

  /** The plan GetUpdatesToApply returns for a list already sorted newest first. */
  function Plan(sorted: seq<Entry>, key: Entry -> seq<int>, current: seq<int>): seq<Entry>
  {
    Reverse(TakeWhileNewer(sorted, key, current))
  }

  /**
   * What a plan must be: oldest first, and a permutation of the catalog's
   * entries that are strictly newer than the installed version (so, by
   * FilterNewerCount, each such entry as often as the catalog holds it, and
   * nothing else).
   */
  predicate IsPlanFor(p: seq<Entry>, catalog: seq<Entry>, key: Entry -> seq<int>, current: seq<int>)
  {
    && SortedAscending(p, key)
    && multiset(p) == multiset(FilterNewer(catalog, key, current))
  }

  lemma {:induction false} FilterNewerNone(s: seq<Entry>, key: Entry -> seq<int>, current: seq<int>)
    requires forall i :: 0 <= i < |s| ==> !NewerThan(s[i], key, current)
    ensures FilterNewer(s, key, current) == []
  {
    if s != [] {
      FilterNewerNone(s[1..], key, current);
    }
  }

  /**
   * The early `break` loses no entry: on a list sorted newest first, the
   * entries taken before the first one that is not newer are all the newer
   * entries.
   */
  lemma {:induction false} BreakLosesNothing(s: seq<Entry>, key: Entry -> seq<int>, current: seq<int>)
    requires SortedDescending(s, key)
    ensures TakeWhileNewer(s, key, current) == FilterNewer(s, key, current)
  {
    if s != [] {
      if NewerThan(s[0], key, current) {
        BreakLosesNothing(s[1..], key, current);
      } else {
        forall i | 0 <= i < |s| ensures !NewerThan(s[i], key, current) {
          if i > 0 && NewerThan(s[i], key, current) {
            NewerThroughOrder(s[0], s[i], key, current);
          }
        }
        FilterNewerNone(s, key, current);
      }
    }
  }

  /** Reversing a newest-first sequence gives an oldest-first one. */
  lemma ReverseOfDescending(s: seq<Entry>, key: Entry -> seq<int>)
    requires SortedDescending(s, key)
    ensures SortedAscending(Reverse(s), key)
  {
    var r := Reverse(s);
    forall i, j | 0 <= i < j < |r| ensures AtLeastAsNew(r[j], r[i], key) {
      assert r[j] == s[|s| - 1 - j] && r[i] == s[|s| - 1 - i];
    }
  }

  /** A plan built from any descending order of the catalog is a plan for that catalog. */
  lemma PlanIsPlanFor(sorted: seq<Entry>, key: Entry -> seq<int>, current: seq<int>)
    requires SortedDescending(sorted, key)
    ensures IsPlanFor(Plan(sorted, key, current), sorted, key, current)
  {
    var taken := TakeWhileNewer(sorted, key, current);
    BreakLosesNothing(sorted, key, current);
    ReverseMultiset(taken);
    assert SortedDescending(taken, key) by {
      forall i, j | 0 <= i < j < |taken| ensures AtLeastAsNew(taken[i], taken[j], key) {
        assert taken[i] == sorted[i] && taken[j] == sorted[j];
      }
    }
    ReverseOfDescending(taken, key);
  }

  /** Whether a sequence is a plan depends on the catalog's entries, not on their order. */
  lemma PlanForPermutation(p: seq<Entry>, c1: seq<Entry>, c2: seq<Entry>, key: Entry -> seq<int>, current: seq<int>)
    requires IsPlanFor(p, c1, key, current) && multiset(c1) == multiset(c2)
    ensures IsPlanFor(p, c2, key, current)
  {
    forall e ensures multiset(FilterNewer(c1, key, current))[e] == multiset(FilterNewer(c2, key, current))[e] {
      FilterNewerCount(c1, key, current, e);
      FilterNewerCount(c2, key, current, e);
    }
  }

  /** Only catalog entries newer than the installed version are planned. */
  lemma PlanOnlyNewer(p: seq<Entry>, catalog: seq<Entry>, key: Entry -> seq<int>, current: seq<int>)
    requires IsPlanFor(p, catalog, key, current)
    ensures forall i :: 0 <= i < |p| ==> p[i] in catalog && NewerThan(p[i], key, current)
  {
    var f := FilterNewer(catalog, key, current);
    forall i | 0 <= i < |p| ensures p[i] in catalog && NewerThan(p[i], key, current) {
      assert p[i] in multiset(f);
      var j :| 0 <= j < |f| && f[j] == p[i];
    }
  }

  /** A plan is empty exactly when nothing in the catalog is newer than the installed version. */
  lemma PlanEmptyIffNothingNewer(p: seq<Entry>, catalog: seq<Entry>, key: Entry -> seq<int>, current: seq<int>)
    requires IsPlanFor(p, catalog, key, current)
    ensures p == [] <==> forall i :: 0 <= i < |catalog| ==> !NewerThan(catalog[i], key, current)
  {
    var f := FilterNewer(catalog, key, current);
    if p == [] {
      assert |f| == |multiset(f)| == |multiset(p)| == 0;
    } else {
      PlanOnlyNewer(p, catalog, key, current);
      var j :| 0 <= j < |catalog| && catalog[j] == p[0];
    }
  }

  /** A non-empty plan ends at a newest entry of the catalog. */
  lemma PlanEndsAtNewest(p: seq<Entry>, catalog: seq<Entry>, key: Entry -> seq<int>, current: seq<int>)
    requires IsPlanFor(p, catalog, key, current) && p != []
    ensures forall i :: 0 <= i < |catalog| ==> AtLeastAsNew(p[|p| - 1], catalog[i], key)
  {
    var last := p[|p| - 1];
    var f := FilterNewer(catalog, key, current);
    PlanOnlyNewer(p, catalog, key, current);
    forall i | 0 <= i < |catalog| ensures AtLeastAsNew(last, catalog[i], key) {
      var e := catalog[i];
      if NewerThan(e, key, current) {
        assert e in f;
        assert e in multiset(p);
        var j :| 0 <= j < |p| && p[j] == e;
        CompareReflexive(key(e), 0);
        assert AtLeastAsNew(p[|p| - 1], p[j], key);
      } else {
        CompareAntisymmetric(key(last), current, 0);
        CompareTransitive(key(e), current, key(last), 0);
        CompareAntisymmetric(key(e), key(last), 0);
      }
    }
  }

  /** With an installed version at or above a floor, every planned entry is above that floor. */
  lemma PlanAboveFloor(p: seq<Entry>, catalog: seq<Entry>, key: Entry -> seq<int>, current: seq<int>, floor: seq<int>)
    requires IsPlanFor(p, catalog, key, current) && ComparePadded(current, floor) >= 0
    ensures forall i :: 0 <= i < |p| ==> ComparePadded(key(p[i]), floor) > 0
  {
    PlanOnlyNewer(p, catalog, key, current);
    forall i | 0 <= i < |p| ensures ComparePadded(key(p[i]), floor) > 0 {
      CompareAntisymmetric(key(p[i]), current, 0);
      CompareAntisymmetric(current, floor, 0);
      CompareAntisymmetric(key(p[i]), floor, 0);
      CompareTransitive(floor, current, key(p[i]), 0);
    }
  }

  /** An ascending and a strictly ascending order of the same entries start alike. */
  lemma SameOldest(a: seq<Entry>, b: seq<Entry>, key: Entry -> seq<int>)
    requires a != [] && SortedAscending(a, key) && StrictlyAscending(b, key)
    requires multiset(a) == multiset(b)
    ensures b != [] && a[0] == b[0]
  {
    assert a[0] in multiset(b);
    assert b[0] in multiset(a);
    var i :| 0 <= i < |a| && a[i] == b[0];
    var j :| 0 <= j < |b| && b[j] == a[0];
    CompareReflexive(key(a[0]), 0);
    assert AtLeastAsNew(a[i], a[0], key);
    assert j == 0;
  }

  lemma MultisetTail(s: seq<Entry>)
    requires s != []
    ensures multiset(s[1..]) == multiset(s) - multiset{s[0]}
  {
    assert s == [s[0]] + s[1..];
  }

  /** Two ascending orders of the same entries agree when one of them never ties. */
  lemma {:induction false} AscendingUnique(a: seq<Entry>, b: seq<Entry>, key: Entry -> seq<int>)
    requires SortedAscending(a, key) && StrictlyAscending(b, key)
    requires multiset(a) == multiset(b)
    ensures a == b
  {
    if a == [] {
      assert |b| == |multiset(b)| == 0;
    } else {
      SameOldest(a, b, key);
      MultisetTail(a);
      MultisetTail(b);
      AscendingUnique(a[1..], b[1..], key);
    }
  }

  /** In a strictly ascending sequence, the entries after position `k - 1` are exactly those newer than it. */
  lemma SuffixCount(p: seq<Entry>, key: Entry -> seq<int>, k: nat, e: Entry)
    requires StrictlyAscending(p, key) && 0 < k <= |p|
    ensures multiset(p[k..])[e] == if NewerThan(e, key, key(p[k - 1])) then multiset(p)[e] else 0
  {
    var marker := key(p[k - 1]);
    forall j | 0 <= j < k ensures !NewerThan(p[j], key, marker) {
      CompareReflexive(marker, 0);
    }
    forall j | k <= j < |p| ensures NewerThan(p[j], key, marker) {
      CompareAntisymmetric(marker, key(p[j]), 0);
    }
    assert p == p[..k] + p[k..];
    if NewerThan(e, key, marker) {
      assert e !in p[..k];
    } else {
      assert e !in p[k..];
    }
  }

  /**
   * After a chain stops before entry `k`, the marker holds the version of
   * entry `k - 1`; planning again from that version yields exactly the
   * entries not yet applied, when the plan's versions do not tie.
   */
  lemma ResumeAfterFailure(p: seq<Entry>, q: seq<Entry>, catalog: seq<Entry>, key: Entry -> seq<int>, current: seq<int>, k: nat)
    requires IsPlanFor(p, catalog, key, current) && StrictlyAscending(p, key)
    requires 0 < k <= |p|
    requires IsPlanFor(q, catalog, key, key(p[k - 1]))
    ensures q == p[k..]
  {
    var marker := p[k - 1];
    PlanOnlyNewer(p, catalog, key, current);
    forall e ensures multiset(q)[e] == multiset(p[k..])[e] {
      FilterNewerCount(catalog, key, key(marker), e);
      FilterNewerCount(catalog, key, current, e);
      SuffixCount(p, key, k, e);
      if NewerThan(e, key, key(marker)) {
        NewerThroughOrder(e, marker, key, current);
      }
    }
    assert multiset(q) == multiset(p[k..]);
    AscendingUnique(q, p[k..], key);
  }

  /** One step of the scan for a newest entry: the newer of the best so far and the next one is the best. */
  lemma NewestStep(s: seq<Entry>, key: Entry -> seq<int>, from: nat, m: nat, k: nat)
    requires from <= m < k < |s|
    requires forall y :: from <= y < k ==> AtLeastAsNew(s[m], s[y], key)
    ensures ComparePadded(key(s[k]), key(s[m])) > 0 ==> forall y :: from <= y <= k ==> AtLeastAsNew(s[k], s[y], key)
    ensures ComparePadded(key(s[k]), key(s[m])) <= 0 ==> forall y :: from <= y <= k ==> AtLeastAsNew(s[m], s[y], key)
  {
    CompareReflexive(key(s[k]), 0);
    CompareAntisymmetric(key(s[k]), key(s[m]), 0);
    if ComparePadded(key(s[k]), key(s[m])) > 0 {
      forall y | from <= y < k ensures AtLeastAsNew(s[k], s[y], key) {
        AtLeastAsNewTransitive(s[k], s[m], s[y], key);
      }
    }
  }

  /** Position of a newest entry among a[from..], found with CompareVersions. */
  method NewestFrom(a: array<Entry>, from: nat) returns (m: nat)
    requires from < a.Length && AllValid(a[..])
    ensures from <= m < a.Length
    ensures forall y :: from <= y < a.Length ==> AtLeastAsNew(a[..][m], a[..][y], VersionKey)
  {
    m := from;
    CompareReflexive(VersionKey(a[from]), 0);
    var k := from + 1;
    while k < a.Length
      invariant from <= m < k <= a.Length
      invariant forall y :: from <= y < k ==> AtLeastAsNew(a[..][m], a[..][y], VersionKey)
    {
      assert ValidEntry(a[..][k]) && ValidEntry(a[..][m]);
      var c := CompareVersions(a[k].version, a[m].version);
      NewestStep(a[..], VersionKey, from, m, k);
      if c.value > 0 {
        m := k;
      }
      k := k + 1;
    }
  }

  /**
   * The in-place `allVersions.Sort(...)`: afterwards the list is a
   * permutation of what it was, newest first. List.Sort is not stable, so
   * nothing is promised about the order of entries whose versions tie.
   */
  method SortDescending(a: array<Entry>)
    requires AllValid(a[..])
    modifies a
    ensures SortedDescending(a[..], VersionKey)
    ensures multiset(a[..]) == old(multiset(a[..]))
    ensures AllValid(a[..])
  {
    var i := 0;
    while i < a.Length
      invariant 0 <= i <= a.Length
      invariant multiset(a[..]) == old(multiset(a[..]))
      invariant AllValid(a[..])
      invariant SelectionSorted(a[..], i, VersionKey)
    {
      var m := NewestFrom(a, i);
      ghost var before := a[..];
      a[i], a[m] := a[m], a[i];
      SelectionStep(before, a[..], i, m, VersionKey);
      SwapKeepsEntries(before, a[..], i, m);
      i := i + 1;
    }
  }

  /** Selection sort's invariant: a[..i] is sorted newest first and nothing after it is newer. */
  predicate SelectionSorted(s: seq<Entry>, i: nat, key: Entry -> seq<int>)
  {
    && i <= |s|
    && (forall x, y :: 0 <= x < y < i ==> AtLeastAsNew(s[x], s[y], key))
    && (forall x, y :: 0 <= x < i <= y < |s| ==> AtLeastAsNew(s[x], s[y], key))
  }

  /** Swapping a newest entry of s[i..] into place i extends the sorted prefix by one. */
  lemma SelectionStep(s: seq<Entry>, t: seq<Entry>, i: nat, m: nat, key: Entry -> seq<int>)
    requires i <= m < |s| && SelectionSorted(s, i, key)
    requires forall y :: i <= y < |s| ==> AtLeastAsNew(s[m], s[y], key)
    requires t == s[i := s[m]][m := s[i]]
    ensures SelectionSorted(t, i + 1, key)
  {
    forall x, y | 0 <= x < y < i + 1 ensures AtLeastAsNew(t[x], t[y], key) {
      assert t[x] == s[x];
      if y == i {
        assert t[y] == s[m];
      } else {
        assert t[y] == s[y];
      }
    }
    forall x, y | 0 <= x < i + 1 <= y < |t| ensures AtLeastAsNew(t[x], t[y], key) {
      var y' := if y == m then i else y;
      assert t[y] == s[y'];
      if x == i {
        assert t[x] == s[m];
      } else {
        assert t[x] == s[x];
      }
    }
  }

  /** Swapping two entries keeps the entries, so it keeps them valid. */
  lemma SwapKeepsEntries(s: seq<Entry>, t: seq<Entry>, i: nat, m: nat)
    requires i < |s| && m < |s| && t == s[i := s[m]][m := s[i]]
    ensures multiset(t) == multiset(s)
    ensures AllValid(s) ==> AllValid(t)
  {
    forall x | 0 <= x < |t| && AllValid(s) ensures ValidEntry(t[x]) {
      var x' := if x == i then m else if x == m then i else x;
      assert t[x] == s[x'];
    }
  }

  lemma TakeWhileOfPrefix(s: seq<Entry>, key: Entry -> seq<int>, current: seq<int>, n: nat)
    requires n <= |s|
    requires forall j :: 0 <= j < n ==> NewerThan(s[j], key, current)
    requires n == |s| || !NewerThan(s[n], key, current)
    ensures TakeWhileNewer(s, key, current) == s[..n]
  {
  }

  /**
   * GetUpdatesToApply: sorts the caller's list in place, newest first, and
   * returns the plan; its result is a plan for the catalog as passed in.
   */
  method GetUpdatesToApply(currentVersion: string, allVersions: array<Entry>) returns (updatesToApply: seq<Entry>)
    requires IsVersion(currentVersion) && AllValid(allVersions[..])
    modifies allVersions
    ensures SortedDescending(allVersions[..], VersionKey)
    ensures multiset(allVersions[..]) == old(multiset(allVersions[..]))
    ensures updatesToApply == Plan(allVersions[..], VersionKey, Components(currentVersion).value)
    ensures IsPlanFor(updatesToApply, old(allVersions[..]), VersionKey, Components(currentVersion).value)
  {
    ghost var before := allVersions[..];
    ghost var current := Components(currentVersion).value;
    SortDescending(allVersions);
    ghost var sorted := allVersions[..];
    var collected: seq<Entry> := [];
    var i := 0;
    while i < allVersions.Length
      invariant 0 <= i <= allVersions.Length
      invariant collected == allVersions[..i]
      invariant allVersions[..] == sorted
      invariant forall j :: 0 <= j < i ==> NewerThan(sorted[j], VersionKey, current)
    {
      assert ValidEntry(sorted[i]);
      var c := CompareVersions(allVersions[i].version, currentVersion);
      if c.value > 0 {
        collected := collected + [allVersions[i]];
      } else {
        break;
      }
      i := i + 1;
    }
    TakeWhileOfPrefix(sorted, VersionKey, current, i);
    updatesToApply := Reverse(collected);
    PlanIsPlanFor(sorted, VersionKey, current);
    PlanForPermutation(updatesToApply, sorted, before, VersionKey, current);
  }
}
