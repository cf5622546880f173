/**
 * The decisions of the console report (selenium/run.js, lines 119-149):
 * the fixed-width column a value is printed in, and which medians are
 * highlighted as the best of their benchmark and browser.
 */
module Report {
  import opened Wrappers
  import opened Analysis
  import opened Versions
  import opened Combinations
  import opened Samples
  import opened Results

  /** n spaces. */
  function Spaces(n: nat): (r: string)
    ensures |r| == n && forall k :: 0 <= k < n ==> r[k] == ' '
  {
    seq(n, _ => ' ')
  }

  /** The smaller of two integers, used to clamp the bounds of `Substr`. */
  function Min(a: int, b: int): int { if a <= b then a else b }

  /** The larger of two integers, used to clamp the bounds of `Substr`. */
  function Max(a: int, b: int): int { if a <= b then b else a }

  /**
   * `String.prototype.substr(start, length)`: a negative start counts from
   * the end, and both the start and the end are clamped to the string.
   */
  function Substr(s: string, start: int, length: int): (r: string)
    ensures 0 <= start <= |s| && 0 <= length ==> r == s[start..Min(start + length, |s|)]
    ensures start >= |s| ==> r == ""
  {
    var from := if start < 0 then Max(|s| + start, 0) else Min(start, |s|);
    var count := Min(Max(length, 0), |s|);
    s[from..Min(from + count, |s|)]
  }

  /**
   * `column(text, width)`: the text behind one space, left-padded with
   * spaces to `width`, or, when it does not fit, " .." followed by as much
   * of its end as leaves the column `width` wide.
   */
  method Column(text: string, width: int) returns (r: string)
    ensures width >= 3 ==> |r| == width
    ensures 1 + |text| <= width ==> r == Spaces(width - 1 - |text|) + " " + text
    ensures 1 + |text| > width && width >= 3 ==> r == " .." + (" " + text)[|text| + 1 - (width - 3)..]
    ensures 1 + |text| > width && width < 3 ==> r == " .."
  {
    var padded := " " + text;
    if |padded| > width {
      r := " .." + Substr(padded, |padded| - width + 3, width);
      return;
    }
    while |padded| < width
      invariant |padded| <= width
      invariant padded == Spaces(|padded| - 1 - |text|) + " " + text
      decreases width - |padded|
    {
      padded := " " + padded;
    }
    r := padded;
  }

  /** `!other.error`: an entry without an error text is reported with statistics. */
  predicate Errored(e: Entry) {
    e.error.Some? && e.error.value != ""
  }

  /** The entry has statistics for measurement `id`. */
  predicate HasMedian(e: Entry, id: string) {
    e.measurements.Some? && id in e.measurements.value
  }

  /** The median of measurement `id` in the entry. */
  function MedianOf(e: Entry, id: string): real
    requires HasMedian(e, id)
  {
    e.measurements.value[id].median
  }

  /** Every entry of the report without errors has statistics for `id`, as a completed session leaves it. */
  predicate Reportable(rows: seq<Entry>, id: string) {
    forall k :: 0 <= k < |rows| && !Errored(rows[k]) ==> HasMedian(rows[k], id)
  }

  /** The entries without errors whose median for `id` is strictly below `median`: the filter chain of lines 146-149. */
  function Beating(rows: seq<Entry>, id: string, median: real): (r: seq<Entry>)
    requires Reportable(rows, id)
    ensures |r| == 0 <==> forall k :: 0 <= k < |rows| && !Errored(rows[k]) ==> median <= MedianOf(rows[k], id)
  {
    if rows == [] then []
    else
      assert forall k :: 0 <= k < |rows| - 1 ==> rows[1..][k] == rows[k + 1];
      var rest := Beating(rows[1..], id, median);
      if !Errored(rows[0]) && MedianOf(rows[0], id) < median then [rows[0]] + rest else rest
  }

  /** A median is highlighted when no entry without errors has a strictly smaller one. */
  predicate Best(rows: seq<Entry>, id: string, median: real)
    requires Reportable(rows, id)
  {
    |Beating(rows, id, median)| == 0
  }

  /** The smallest median for `id` among the entries without errors, if there is any such entry. */
  function MinMedian(rows: seq<Entry>, id: string): (m: Option<real>)
    requires Reportable(rows, id)
    ensures m.None? <==> forall k :: 0 <= k < |rows| ==> Errored(rows[k])
    ensures m.Some? ==> exists k :: 0 <= k < |rows| && !Errored(rows[k]) && MedianOf(rows[k], id) == m.value
    ensures m.Some? ==> forall k :: 0 <= k < |rows| && !Errored(rows[k]) ==> m.value <= MedianOf(rows[k], id)
  {
    if rows == [] then None
    else
      assert forall k :: 0 <= k < |rows| - 1 ==> rows[1..][k] == rows[k + 1];
      var rest := MinMedian(rows[1..], id);
      if Errored(rows[0]) then rest
      else
        var here := MedianOf(rows[0], id);
        match rest
        case None => Some(here)
        case Some(m) => Some(if here <= m then here else m)
  }

  /**
   * An entry without errors is highlighted exactly when its median is the
   * smallest among the entries without errors; so ties are all highlighted.
   */
  lemma BestIsMinimum(rows: seq<Entry>, id: string, j: nat)
    requires Reportable(rows, id)
    requires j < |rows| && !Errored(rows[j])
    ensures MinMedian(rows, id).Some?
    ensures Best(rows, id, MedianOf(rows[j], id)) <==> MedianOf(rows[j], id) == MinMedian(rows, id).value
  {
  }

  /** When some entry has no errors, at least one entry is highlighted. */
  lemma SomeEntryIsBest(rows: seq<Entry>, id: string)
    requires Reportable(rows, id)
    requires exists k :: 0 <= k < |rows| && !Errored(rows[k])
    ensures exists j :: 0 <= j < |rows| && !Errored(rows[j]) && Best(rows, id, MedianOf(rows[j], id))
  {
    var m := MinMedian(rows, id);
    var j :| 0 <= j < |rows| && !Errored(rows[j]) && MedianOf(rows[j], id) == m.value;
    BestIsMinimum(rows, id, j);
  }

  /** Every entry of the table has statistics for every measurement id. */
  predicate EveryEntryHasMedians(r: Results.Table, ids: seq<string>) {
    forall b, v, id :: b in r && v in r[b] && id in ids ==> HasMedian(r[b][v], id)
  }

  /**
   * A session that starts from the constructor's table (lines 45-51) and
   * completes every combination of lines 38-43 leaves every entry of the
   * table with statistics for every measurement id.
   */
  lemma SessionEntriesHaveMedians(t: Results.Table, store: Store, benchmarks: seq<string>, versions: seq<Label>,
                                  iterations: int, responses: seq<seq<Response>>, ids: seq<string>)
    requires t.Keys == set b | b in benchmarks
    requires forall b :: b in t ==> t[b].Keys == set v | v in versions
    requires Available(store, benchmarks, versions)
    requires Suits(t, Combinations.Table(store, benchmarks, versions), iterations, responses)
    requires forall k :: 0 <= k < |responses| ==> Completes(iterations, responses[k])
    ensures EveryEntryHasMedians(Replay(t, Combinations.Table(store, benchmarks, versions), iterations, responses, ids), ids)
  {
    var combos := Combinations.Table(store, benchmarks, versions);
    var r := Replay(t, combos, iterations, responses, ids);
    TableMembers(store, benchmarks, versions);
    assert forall k :: 0 <= k < |combos| ==> combos[k] in combos;
    ReplayKeepsVersions(t, combos, iterations, responses, ids);
    SessionCompletesEntries(t, combos, iterations, responses, ids);
    forall b, v, id | b in r && v in r[b] && id in ids
      ensures HasMedian(r[b][v], id)
    {
      var i :| 0 <= i < |benchmarks| && benchmarks[i] == b;
      var j :| 0 <= j < |versions| && versions[j] == v;
      TableAtIndex(store, benchmarks, versions, i, j);
      var k := i * |versions| + j;
      assert combos[k].benchmark == b && combos[k].version == v;
      assert CompletedAt(r, b, v, ids);
    }
  }

  /**
   * The report of a benchmark after such a session (lines 139-149) meets
   * `Reportable`: any arrangement of its entries has statistics for every id.
   */
  lemma SessionRowsReportable(t: Results.Table, store: Store, benchmarks: seq<string>, versions: seq<Label>,
                              iterations: int, responses: seq<seq<Response>>, ids: seq<string>,
                              b: string, id: string, rows: seq<Entry>)
    requires t.Keys == set b | b in benchmarks
    requires forall b :: b in t ==> t[b].Keys == set v | v in versions
    requires Available(store, benchmarks, versions)
    requires Suits(t, Combinations.Table(store, benchmarks, versions), iterations, responses)
    requires forall k :: 0 <= k < |responses| ==> Completes(iterations, responses[k])
    requires b in benchmarks && id in ids
    requires forall k :: 0 <= k < |rows| ==>
               rows[k] in Replay(t, Combinations.Table(store, benchmarks, versions), iterations, responses, ids)[b].Values
    ensures Reportable(rows, id)
  {
    var r := Replay(t, Combinations.Table(store, benchmarks, versions), iterations, responses, ids);
    SessionEntriesHaveMedians(t, store, benchmarks, versions, iterations, responses, ids);
    assert b in t && r.Keys == t.Keys;
    forall k | 0 <= k < |rows|
      ensures HasMedian(rows[k], id)
    {
      assert rows[k] in r[b].Values;
      var v :| v in r[b] && r[b][v] == rows[k];
    }
  }
}
