/**
 * Which releases the benchmark harness runs (selenium/run.js, lines 18-32).
 *
 * The releases listed in versions.json arrive here already parsed into
 * integer triples. The first five, in list order, are always benchmarked;
 * any other release is benchmarked only when no release anywhere in the
 * list, before or after it, has its major.minor and a higher patch. An ad hoc `custom` build, when one was requested, is
 * appended at the end of the list.
 */
module Versions {

  /** A release number `major.minor.patch`, as parsed from versions.json. */
  datatype Version = Version(major: int, minor: int, patch: int)

  /** An entry of the benchmarked version list: a release, or the `custom` build. */
  datatype Label = Release(version: Version) | Custom

  /** How many releases, counted from the start of the list, are kept unconditionally. */
  const EarliestKept: nat := 5

  /** `a` and `b` belong to the same major.minor line. */
  predicate SameLine(a: Version, b: Version) {
    a.major == b.major && a.minor == b.minor
  }

  /** Some release of `all` is on v's line with a strictly higher patch number. */
  ghost predicate HasNewerPatch(all: seq<Version>, v: Version) {
    exists o :: o in all && SameLine(o, v) && o.patch > v.patch
  }

  /**
   * The releases of all[..n], in order, on v's line with a strictly higher
   * patch; with n == |all| this is the `allVersions.filter(...)` whose
   * length the selection compares with 0.
   */
  function NewerPatches(all: seq<Version>, v: Version, n: nat): seq<Version>
    requires n <= |all|
  {
    if n == 0 then []
    else NewerPatches(all, v, n - 1) + (if SameLine(all[n - 1], v) && all[n - 1].patch > v.patch then [all[n - 1]] else [])
  }

  /** The filter keeps exactly the releases of v's line with a higher patch. */
  lemma {:induction false} NewerPatchesMembership(all: seq<Version>, v: Version, n: nat)
    requires n <= |all|
    ensures forall o :: o in NewerPatches(all, v, n) <==> o in all[..n] && SameLine(o, v) && o.patch > v.patch
  {
    if n > 0 {
      NewerPatchesMembership(all, v, n - 1);
      assert all[..n] == all[..n - 1] + [all[n - 1]];
    }
  }

  /** The filter is empty exactly when no release of v's line has a higher patch. */
  lemma NewerPatchesEmptyIff(all: seq<Version>, v: Version)
    ensures |NewerPatches(all, v, |all|)| == 0 <==> !HasNewerPatch(all, v)
  {
    NewerPatchesMembership(all, v, |all|);
    assert all[..|all|] == all;
    if |NewerPatches(all, v, |all|)| != 0 {
      assert NewerPatches(all, v, |all|)[0] in NewerPatches(all, v, |all|);
    }
  }

  /** Whether the release at index i of `all` is benchmarked. */
  predicate Kept(all: seq<Version>, i: nat)
    requires i < |all|
  {
    i < EarliestKept || |NewerPatches(all, all[i], |all|)| == 0
  }

  /** The benchmarked releases among all[..n], in list order. */
  function Selection(all: seq<Version>, n: nat): seq<Label>
    requires n <= |all|
  {
    if n == 0 then []
    else Selection(all, n - 1) + (if Kept(all, n - 1) then [Release(all[n - 1])] else [])
  }

  /** The indices of all[..n] that are benchmarked, ascending. */
  function KeptIndices(all: seq<Version>, n: nat): seq<nat>
    requires n <= |all|
  {
    if n == 0 then []
    else KeptIndices(all, n - 1) + (if Kept(all, n - 1) then [n - 1] else [])
  }

  /**
   * The selection loop. As in the source, the "first five" test looks at how
   * many releases have been pushed so far, not at the loop index; the loop
   * invariants show that the two agree.
   */
  method SelectVersions(all: seq<Version>) returns (versions: seq<Label>)
    ensures versions == Selection(all, |all|)
  {
    versions := [];
    var i := 0;
    while i < |all|
      invariant 0 <= i <= |all|
      invariant versions == Selection(all, i)
      invariant i <= EarliestKept ==> |versions| == i
      invariant i >= EarliestKept ==> |versions| >= EarliestKept
    {
      var version := all[i];
      ghost var next := Selection(all, i + 1);
      assert Kept(all, i) <==> |versions| < EarliestKept || |NewerPatches(all, version, |all|)| == 0;
      if |versions| < EarliestKept {
        versions := versions + [Release(version)];
      } else if |NewerPatches(all, version, |all|)| == 0 {
        versions := versions + [Release(version)];
      }
      assert versions == next;
      i := i + 1;
    }
  }

  /** The version list of a run: the selection, then `custom` when it was asked for. */
  method ResolveVersions(all: seq<Version>, custom: bool) returns (versions: seq<Label>)
    ensures versions == Selection(all, |all|) + (if custom then [Custom] else [])
  {
    versions := SelectVersions(all);
    if custom {
      versions := versions + [Custom];
    }
  }

  /** Every label of the selection names a release of the input, so `custom` never collides with one. */
  lemma SelectionHasOnlyReleases(all: seq<Version>, n: nat)
    requires n <= |all|
    ensures forall k :: 0 <= k < |Selection(all, n)| ==> Selection(all, n)[k].Release? && Selection(all, n)[k].version in all
    ensures Custom !in Selection(all, n)
  {
    SelectionFollowsIndices(all, n);
    forall k | 0 <= k < |Selection(all, n)|
      ensures Selection(all, n)[k].Release? && Selection(all, n)[k].version in all
    {
      assert all[KeptIndices(all, n)[k]] in all;
    }
  }

  /** The kept indices of all[..n] lie below n and ascend strictly. */
  lemma {:induction false} KeptIndicesAscend(all: seq<Version>, n: nat)
    requires n <= |all|
    ensures forall k :: 0 <= k < |KeptIndices(all, n)| ==> KeptIndices(all, n)[k] < n
    ensures forall k, l :: 0 <= k < l < |KeptIndices(all, n)| ==> KeptIndices(all, n)[k] < KeptIndices(all, n)[l]
  {
    if n > 0 {
      KeptIndicesAscend(all, n - 1);
      var prev := KeptIndices(all, n - 1);
      var last: seq<nat> := if Kept(all, n - 1) then [n - 1] else [];
      assert KeptIndices(all, n) == prev + last;
      forall k | 0 <= k < |prev + last|
        ensures (prev + last)[k] == if k < |prev| then prev[k] else n - 1
      {
      }
      forall k, l | 0 <= k < l < |prev + last|
        ensures (prev + last)[k] < (prev + last)[l]
      {
        assert (prev + last)[k] == prev[k];
      }
    }
  }

  /**
   * The selection is an order-preserving subsequence of the input: its k-th
   * element is the release at the k-th kept index, and those indices ascend.
   */
  lemma {:induction false} SelectionFollowsIndices(all: seq<Version>, n: nat)
    requires n <= |all|
    ensures |Selection(all, n)| == |KeptIndices(all, n)|
    ensures forall k :: 0 <= k < |KeptIndices(all, n)| ==>
              KeptIndices(all, n)[k] < n && Selection(all, n)[k] == Release(all[KeptIndices(all, n)[k]])
    ensures forall k, l :: 0 <= k < l < |KeptIndices(all, n)| ==> KeptIndices(all, n)[k] < KeptIndices(all, n)[l]
  {
    KeptIndicesAscend(all, n);
    SelectionAtIndices(all, n);
  }

  /** The k-th selected release is the release at the k-th kept index. */
  lemma {:induction false} SelectionAtIndices(all: seq<Version>, n: nat)
    requires n <= |all|
    ensures |Selection(all, n)| == |KeptIndices(all, n)|
    ensures forall k :: 0 <= k < |KeptIndices(all, n)| ==>
              KeptIndices(all, n)[k] < |all| && Selection(all, n)[k] == Release(all[KeptIndices(all, n)[k]])
  {
    if n > 0 {
      SelectionAtIndices(all, n - 1);
      var prev, indices := Selection(all, n - 1), KeptIndices(all, n - 1);
      var last: seq<Label> := if Kept(all, n - 1) then [Release(all[n - 1])] else [];
      var lastIndex: seq<nat> := if Kept(all, n - 1) then [n - 1] else [];
      assert Selection(all, n) == prev + last;
      assert KeptIndices(all, n) == indices + lastIndex;
      forall k | 0 <= k < |indices + lastIndex|
        ensures (indices + lastIndex)[k] < |all| && (prev + last)[k] == Release(all[(indices + lastIndex)[k]])
      {
        if k < |indices| {
          assert (indices + lastIndex)[k] == indices[k] && (prev + last)[k] == prev[k];
        } else {
          assert (indices + lastIndex)[k] == n - 1 && (prev + last)[k] == Release(all[n - 1]);
        }
      }
    }
  }

  /** An index of all[..n] is in KeptIndices exactly when it is kept. */
  lemma {:induction false} KeptIndicesMembership(all: seq<Version>, n: nat)
    requires n <= |all|
    ensures forall j :: j in KeptIndices(all, n) <==> 0 <= j < n && Kept(all, j)
  {
    if n > 0 {
      KeptIndicesMembership(all, n - 1);
    }
  }

  /**
   * The release at index j is benchmarked exactly when it is among the first
   * five, or when no release of its major.minor line has a higher patch.
   */
  lemma SelectedIff(all: seq<Version>, j: nat)
    requires j < |all|
    ensures j in KeptIndices(all, |all|) <==> j < EarliestKept || !HasNewerPatch(all, all[j])
  {
    KeptIndicesMembership(all, |all|);
    NewerPatchesEmptyIff(all, all[j]);
  }

  /** Looking at more releases only appends to the selection. */
  lemma {:induction false} SelectionGrows(all: seq<Version>, m: nat, n: nat)
    requires m <= n <= |all|
    ensures |Selection(all, m)| <= |Selection(all, n)|
    ensures Selection(all, n)[..|Selection(all, m)|] == Selection(all, m)
  {
    if m < n {
      SelectionGrows(all, m, n - 1);
      var prev := Selection(all, n - 1);
      var last: seq<Label> := if Kept(all, n - 1) then [Release(all[n - 1])] else [];
      assert Selection(all, n) == prev + last;
      assert (prev + last)[..|Selection(all, m)|] == prev[..|Selection(all, m)|];
    }
  }

  /** Up to five releases are all selected, unchanged and in order. */
  lemma {:induction false} SelectionOfEarliest(all: seq<Version>, n: nat)
    requires n <= EarliestKept && n <= |all|
    ensures |Selection(all, n)| == n
    ensures forall k :: 0 <= k < n ==> Selection(all, n)[k] == Release(all[k])
  {
    if n > 0 {
      SelectionOfEarliest(all, n - 1);
      assert Kept(all, n - 1);
      assert Selection(all, n) == Selection(all, n - 1) + [Release(all[n - 1])];
    }
  }

  /** The first five releases (or all of them, when there are fewer) open the selection unchanged. */
  lemma SelectionKeepsEarliest(all: seq<Version>, n: nat)
    requires n <= |all|
    ensures n <= EarliestKept ==> |Selection(all, n)| == n
    ensures var m := if n < EarliestKept then n else EarliestKept;
      |Selection(all, n)| >= m &&
      forall k :: 0 <= k < m ==> Selection(all, n)[k] == Release(all[k])
  {
    var m := if n < EarliestKept then n else EarliestKept;
    SelectionOfEarliest(all, m);
    SelectionGrows(all, m, n);
    forall k | 0 <= k < m
      ensures Selection(all, n)[k] == Release(all[k])
    {
      assert Selection(all, n)[k] == Selection(all, n)[..m][k];
    }
  }

  /**
   * Past the first five, a kept release is the only kept one of its
   * major.minor line: two of them on one line have the same patch number.
   */
  lemma SelectedLinesDistinct(all: seq<Version>, i: nat, j: nat)
    requires EarliestKept <= i < |all| && EarliestKept <= j < |all|
    requires Kept(all, i) && Kept(all, j)
    ensures SameLine(all[i], all[j]) ==> all[i] == all[j]
  {
    NewerPatchesMembership(all, all[i], |all|);
    NewerPatchesMembership(all, all[j], |all|);
    assert all[i] in all && all[j] in all;
    assert NewerPatches(all, all[i], |all|) == [] && NewerPatches(all, all[j], |all|) == [];
  }
}
