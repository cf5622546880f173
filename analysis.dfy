/**
 * `analyse` (selenium/run.js, lines 336-357): the statistics of one
 * measurement kind over a combination's success records. The values of the
 * records of that kind are sorted ascending; the result is the smallest,
 * the largest and the median, or all zeros when no record is of that kind.
 */
module Analysis {
  import opened Samples

  /** The statistics stored per measurement id. */
  datatype Stats = Stats(min: real, max: real, median: real)

  /** `message.type === measurement.id`. */
  predicate Matches(r: Record, id: string) {
    r.Sample? && r.kind == id
  }

  /** The values of the records of kind `id`, in record order. */
  function MatchingValues(messages: seq<Record>, id: string): (r: seq<real>)
    ensures |r| <= |messages|
  {
    if messages == [] then []
    else (if Matches(messages[0], id) then [messages[0].value] else []) + MatchingValues(messages[1..], id)
  }

  /** Ascending order. */
  predicate SortedAsc(s: seq<real>) {
    forall i, j :: 0 <= i < j < |s| ==> s[i] <= s[j]
  }

  /** Inserts x before the first element that is not smaller than it. */
  function Insert(x: real, s: seq<real>): (r: seq<real>)
    ensures |r| == |s| + 1
  {
    if s == [] then [x]
    else if x <= s[0] then [x] + s
    else [s[0]] + Insert(x, s[1..])
  }

  /** Inserting adds exactly one occurrence of x. */
  lemma {:induction false} InsertPermutes(x: real, s: seq<real>)
    ensures multiset(Insert(x, s)) == multiset(s) + multiset{x}
  {
    if s != [] && x > s[0] {
      InsertPermutes(x, s[1..]);
      assert s == [s[0]] + s[1..];
    }
  }

  /** Inserting into an ascending sequence keeps it ascending; its head is the smaller of x and the old head. */
  lemma {:induction false} InsertSorted(x: real, s: seq<real>)
    requires SortedAsc(s)
    ensures SortedAsc(Insert(x, s))
    ensures Insert(x, s)[0] == if s == [] || x <= s[0] then x else s[0]
  {
    if s != [] && x > s[0] {
      var t := Insert(x, s[1..]);
      InsertSorted(x, s[1..]);
      assert forall j :: 0 <= j < |t| ==> t[0] <= t[j];
      assert forall j :: 0 <= j < |t| ==> s[0] <= t[j];
      assert Insert(x, s) == [s[0]] + t;
    }
  }

  /** The sort on line 339: insertion sort of the values. */
  function Sort(s: seq<real>): (r: seq<real>)
    ensures |r| == |s|
  {
    if s == [] then [] else Insert(s[0], Sort(s[1..]))
  }

  /** The sort yields an ascending rearrangement of its input. */
  lemma {:induction false} SortSpec(s: seq<real>)
    ensures SortedAsc(Sort(s)) && multiset(Sort(s)) == multiset(s)
  {
    if s != [] {
      var t := Sort(s[1..]);
      SortSpec(s[1..]);
      InsertSorted(s[0], t);
      InsertPermutes(s[0], t);
      assert Sort(s) == Insert(s[0], t);
      assert multiset(s) == multiset(s[1..]) + multiset{s[0]} by {
        assert s == [s[0]] + s[1..];
      }
    }
  }

  /** The median of an ascending sequence: the middle value, or the mean of the two middle values. */
  function Median(sorted: seq<real>): real
    requires |sorted| > 0
  {
    var mid := |sorted| / 2;
    if |sorted| % 2 == 1 then sorted[mid] else (sorted[mid] + sorted[mid - 1]) / 2.0
  }

  /** The statistics of an ascending sequence of values: zeros when it is empty. */
  function Summarise(sorted: seq<real>): Stats {
    if |sorted| == 0 then Stats(0.0, 0.0, 0.0)
    else Stats(sorted[0], sorted[|sorted| - 1], Median(sorted))
  }

  /** `analyse(messages, measurement)` for measurement id `id`. */
  function Analyse(messages: seq<Record>, id: string): (st: Stats)
    ensures MatchingValues(messages, id) == [] ==> st == Stats(0.0, 0.0, 0.0)
  {
    Summarise(Sort(MatchingValues(messages, id)))
  }

  /** The median lies between the minimum and the maximum. */
  lemma AnalyseOrdered(messages: seq<Record>, id: string)
    ensures Analyse(messages, id).min <= Analyse(messages, id).median <= Analyse(messages, id).max
  {
    SortSpec(MatchingValues(messages, id));
    SummaryOrdered(Sort(MatchingValues(messages, id)));
  }

  /** The statistics of an ascending sequence have min <= median <= max. */
  lemma SummaryOrdered(sorted: seq<real>)
    requires SortedAsc(sorted)
    ensures Summarise(sorted).min <= Summarise(sorted).median <= Summarise(sorted).max
  {
    if |sorted| > 0 {
      MiddleIndex(|sorted|);
      var mid := |sorted| / 2;
      assert sorted[0] <= sorted[mid] <= sorted[|sorted| - 1];
      if |sorted| % 2 == 0 {
        assert sorted[0] <= sorted[mid - 1] <= sorted[|sorted| - 1];
      }
    }
  }

  /** Where the middle of n > 0 elements lies. */
  lemma MiddleIndex(n: nat)
    requires n > 0
    ensures 0 <= n / 2 < n
    ensures n % 2 == 0 ==> 1 <= n / 2
  {
  }

  /** The tail of an ascending sequence is ascending. */
  lemma SortedTail(s: seq<real>)
    requires SortedAsc(s) && s != []
    ensures SortedAsc(s[1..])
  {
    forall i, j | 0 <= i < j < |s| - 1
      ensures s[1..][i] <= s[1..][j]
    {
      assert s[1..][i] == s[i + 1] && s[1..][j] == s[j + 1];
    }
  }

  /** Two ascending sequences holding the same values are equal: the sort's result is unique. */
  lemma {:induction false} SortedUnique(a: seq<real>, b: seq<real>)
    requires SortedAsc(a) && SortedAsc(b) && multiset(a) == multiset(b)
    ensures a == b
  {
    if a != [] {
      assert a[0] == b[0] by {
        assert a[0] in multiset(b) && b[0] in multiset(a);
        var i :| 0 <= i < |b| && b[i] == a[0];
        var j :| 0 <= j < |a| && a[j] == b[0];
        assert b[0] <= b[i] && a[0] <= a[j];
      }
      assert SortedAsc(a[1..]) && SortedAsc(b[1..]) by {
        SortedTail(a);
        SortedTail(b);
      }
      assert multiset(a[1..]) == multiset(b[1..]) by {
        assert a == [a[0]] + a[1..];
        assert b == [b[0]] + b[1..];
        assert multiset(a[1..]) == multiset(a) - multiset{a[0]};
        assert multiset(b[1..]) == multiset(b) - multiset{b[0]};
      }
      SortedUnique(a[1..], b[1..]);
      assert a == [a[0]] + a[1..] && b == [b[0]] + b[1..];
    } else {
      assert |multiset(b)| == 0;
    }
  }

  /** The matching values of a concatenation are the two lists of matching values joined. */
  lemma {:induction false} MatchingValuesOfConcat(a: seq<Record>, b: seq<Record>, id: string)
    ensures MatchingValues(a + b, id) == MatchingValues(a, id) + MatchingValues(b, id)
  {
    if a == [] {
      assert a + b == b;
    } else {
      var c := a + b;
      assert c[0] == a[0];
      assert c[1..] == a[1..] + b;
      MatchingValuesOfConcat(a[1..], b, id);
      var head := if Matches(a[0], id) then [a[0].value] else [];
      assert MatchingValues(c, id) == head + MatchingValues(c[1..], id);
      assert MatchingValues(a, id) == head + MatchingValues(a[1..], id);
      assert head + (MatchingValues(a[1..], id) + MatchingValues(b, id))
          == (head + MatchingValues(a[1..], id)) + MatchingValues(b, id);
    }
  }

  /** There are no matching values exactly when no record is of kind `id`. */
  lemma {:induction false} MatchingValuesEmptyIff(messages: seq<Record>, id: string)
    ensures MatchingValues(messages, id) == [] <==> forall k :: 0 <= k < |messages| ==> !Matches(messages[k], id)
  {
    if messages != [] {
      MatchingValuesEmptyIff(messages[1..], id);
      assert forall k :: 1 <= k < |messages| ==> messages[k] == messages[1..][k - 1];
    }
  }

  /** Every matching value comes from a record of kind `id`, and every such record gives one. */
  lemma {:induction false} MatchingValuesMembership(messages: seq<Record>, id: string)
    ensures forall v :: v in MatchingValues(messages, id) <==> Sample(id, v) in messages
  {
    if messages != [] {
      MatchingValuesMembership(messages[1..], id);
      assert messages == [messages[0]] + messages[1..];
    }
  }

  /** With no record of kind `id`, the statistics are all zero. */
  lemma AnalyseEmpty(messages: seq<Record>, id: string)
    requires forall k :: 0 <= k < |messages| ==> !Matches(messages[k], id)
    ensures Analyse(messages, id) == Stats(0.0, 0.0, 0.0)
  {
    MatchingValuesEmptyIff(messages, id);
  }

  /**
   * The statistics read an ascending arrangement of the matching values:
   * for ANY such arrangement s, min and max are its ends and the median is
   * its middle value (odd count) or the mean of its two middle values.
   */
  lemma AnalyseReadsSorted(messages: seq<Record>, id: string, s: seq<real>)
    requires SortedAsc(s) && multiset(s) == multiset(MatchingValues(messages, id)) && |s| > 0
    ensures Analyse(messages, id).min == s[0]
    ensures Analyse(messages, id).max == s[|s| - 1]
    ensures Analyse(messages, id).median ==
              if |s| % 2 == 1 then s[|s| / 2] else (s[|s| / 2] + s[|s| / 2 - 1]) / 2.0
  {
    var sorted := Sort(MatchingValues(messages, id));
    SortSpec(MatchingValues(messages, id));
    SortedUnique(sorted, s);
    assert Analyse(messages, id) == Summarise(sorted);
    SummaryReads(s);
  }

  /** The statistics of a non-empty sequence read its ends and its middle. */
  lemma SummaryReads(s: seq<real>)
    requires |s| > 0
    ensures Summarise(s).min == s[0] && Summarise(s).max == s[|s| - 1]
    ensures Summarise(s).median == if |s| % 2 == 1 then s[|s| / 2] else (s[|s| / 2] + s[|s| / 2 - 1]) / 2.0
  {
    MiddleIndex(|s|);
  }

  /** The ends of a non-empty ascending sequence are its smallest and largest elements. */
  lemma SortedEnds(sorted: seq<real>)
    requires SortedAsc(sorted) && |sorted| > 0
    ensures forall v :: v in sorted ==> sorted[0] <= v <= sorted[|sorted| - 1]
  {
  }

  /** min and max are the smallest and the largest value of the records of kind `id`. */
  lemma AnalyseExtremes(messages: seq<Record>, id: string)
    requires exists k :: 0 <= k < |messages| && Matches(messages[k], id)
    ensures Sample(id, Analyse(messages, id).min) in messages
    ensures Sample(id, Analyse(messages, id).max) in messages
    ensures forall v :: Sample(id, v) in messages ==> Analyse(messages, id).min <= v <= Analyse(messages, id).max
  {
    var values := MatchingValues(messages, id);
    var sorted := Sort(values);
    SortSpec(values);
    assert |sorted| > 0 by {
      MatchingValuesEmptyIff(messages, id);
      assert |multiset(sorted)| == |multiset(values)|;
    }
    assert Analyse(messages, id) == Stats(sorted[0], sorted[|sorted| - 1], Median(sorted));
    MatchingValuesMembership(messages, id);
    assert sorted[0] in values by {
      assert sorted[0] in multiset(values);
    }
    assert sorted[|sorted| - 1] in values by {
      assert sorted[|sorted| - 1] in multiset(values);
    }
    SortedEnds(sorted);
    forall v | v in values
      ensures v in sorted
    {
      assert v in multiset(values);
    }
  }

  /** Reordering the matching values does not change the statistics. */
  lemma AnalyseByValues(a: seq<Record>, b: seq<Record>, id: string)
    requires multiset(MatchingValues(a, id)) == multiset(MatchingValues(b, id))
    ensures Analyse(a, id) == Analyse(b, id)
  {
    SortSpec(MatchingValues(a, id));
    SortSpec(MatchingValues(b, id));
    SortedUnique(Sort(MatchingValues(a, id)), Sort(MatchingValues(b, id)));
  }

  /** Records of another kind, or error records, anywhere in the input do not change the statistics. */
  lemma AnalyseIgnoresOtherRecords(a: seq<Record>, b: seq<Record>, r: Record, id: string)
    requires !Matches(r, id)
    ensures Analyse(a + [r] + b, id) == Analyse(a + b, id)
  {
    assert MatchingValues(a + [r] + b, id) == MatchingValues(a + b, id) by {
      MatchingValuesOfConcat(a + [r], b, id);
      MatchingValuesOfConcat(a, [r], id);
      MatchingValuesOfConcat(a, b, id);
      assert MatchingValues([r], id) == [];
      assert MatchingValues(a, id) + [] == MatchingValues(a, id);
    }
  }

  /** Permuting the records keeps the multiset of matching values. */
  lemma {:induction false} MatchingValuesPermutation(a: seq<Record>, b: seq<Record>, id: string)
    requires multiset(a) == multiset(b)
    ensures multiset(MatchingValues(a, id)) == multiset(MatchingValues(b, id))
  {
    if a == [] {
      assert |multiset(b)| == 0;
    } else {
      var x := a[0];
      assert x in multiset(b);
      var k :| 0 <= k < |b| && b[k] == x;
      var rest := b[..k] + b[k + 1..];
      assert multiset(a[1..]) == multiset(rest) by {
        assert b == b[..k] + [x] + b[k + 1..];
        assert a == [x] + a[1..];
        assert multiset(b) == multiset(b[..k]) + multiset{x} + multiset(b[k + 1..]);
        assert multiset(a[1..]) == multiset(a) - multiset{x};
      }
      MatchingValuesPermutation(a[1..], rest, id);
      var left, here, right := MatchingValues(b[..k], id), MatchingValues([x], id), MatchingValues(b[k + 1..], id);
      assert MatchingValues(b, id) == left + here + right by {
        assert b == (b[..k] + [x]) + b[k + 1..];
        MatchingValuesOfConcat(b[..k] + [x], b[k + 1..], id);
        MatchingValuesOfConcat(b[..k], [x], id);
      }
      assert MatchingValues(rest, id) == left + right by {
        MatchingValuesOfConcat(b[..k], b[k + 1..], id);
      }
      assert MatchingValues(a, id) == here + MatchingValues(a[1..], id) by {
        assert a == [x] + a[1..];
        MatchingValuesOfConcat([x], a[1..], id);
      }
      UnionMiddle(multiset(left), multiset(here), multiset(right));
    }
  }

  /** Moving the middle part of a union to the front. */
  lemma UnionMiddle<T>(l: multiset<T>, h: multiset<T>, r: multiset<T>)
    ensures h + (l + r) == l + h + r
  {
  }

  /** The statistics do not depend on the order of the records. */
  lemma AnalysePermutation(a: seq<Record>, b: seq<Record>, id: string)
    requires multiset(a) == multiset(b)
    ensures Analyse(a, id) == Analyse(b, id)
  {
    MatchingValuesPermutation(a, b, id);
    AnalyseByValues(a, b, id);
  }
}
