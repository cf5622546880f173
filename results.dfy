/**
 * The results table and one browser session's pass over the combinations
 * (selenium/run.js, lines 45-51 and 63-113).
 *
 * The table maps each benchmark to a map from version to result entry.
 * It starts with an empty entry for every pair; the session then takes the
 * combinations one after another. For each it resets the entry to hold
 * only the artifact size, runs the sample loop, and, when the loop
 * completes, writes the joined error text and one statistics entry per
 * measurement id. A pass that aborts leaves its entry with only the size
 * and stops the session: later combinations are not run.
 */
module Results {
  import opened Wrappers
  import opened Versions
  import opened Combinations
  import opened Samples
  import opened Analysis

  /** A result entry. Each field is unset until the session writes it. */
  datatype Entry = Entry(size: Option<int>, error: Option<string>, measurements: Option<map<string, Stats>>)

  /** The `{}` each pair starts with. */
  const Blank := Entry(None, None, None)

  /** benchmark -> version -> result entry. */
  type Table = map<string, map<Label, Entry>>

  /** The statistics of every measurement id, each computed from the success records only. */
  function MeasurementMap(messages: seq<Record>, ids: seq<string>): map<string, Stats> {
    map id | id in ids :: Analyse(Successes(messages), id)
  }

  /** The entry of a completed combination: its size, the joined error text and the statistics. */
  function Completed(size: Option<int>, messages: seq<Record>, ids: seq<string>): Entry {
    Entry(size, Some(ErrorText(messages)), Some(MeasurementMap(messages, ids)))
  }

  /** The entry a combination leaves once its passes have run, given whether they completed. */
  function Outcome(c: Combination, ok: bool, messages: seq<Record>, ids: seq<string>): Entry {
    if ok then Completed(Some(c.size), messages, ids) else Entry(Some(c.size), None, None)
  }

  /** The passes of a combination (its first Passes(iterations) answers) complete. */
  predicate Completes(iterations: int, responses: seq<Response>)
    requires |responses| >= Passes(iterations)
  {
    Accumulate(responses[..Passes(iterations)]).Some?
  }

  /** The messages of a combination's passes, when they complete. */
  function MessagesOf(iterations: int, responses: seq<Response>): seq<Record>
    requires |responses| >= Passes(iterations)
  {
    match Accumulate(responses[..Passes(iterations)])
    case Some(messages) => messages
    case None => []
  }

  /** The table after one combination has been run against the given answers. */
  function AfterCombination(t: Table, c: Combination, iterations: int, responses: seq<Response>, ids: seq<string>): (r: Table)
    requires c.benchmark in t && |responses| >= Passes(iterations)
    ensures r.Keys == t.Keys
  {
    var ok := Completes(iterations, responses);
    t[c.benchmark := t[c.benchmark][c.version := Outcome(c, ok, MessagesOf(iterations, responses), ids)]]
  }

  /** The answers a session receives suit its combinations: one list per combination, long enough. */
  predicate Suits(t: Table, combos: seq<Combination>, iterations: int, responses: seq<seq<Response>>) {
    |responses| == |combos| &&
    forall k :: 0 <= k < |combos| ==> combos[k].benchmark in t && |responses[k]| >= Passes(iterations)
  }

  /** The table after the given combinations have been run in order. */
  function Replay(t: Table, combos: seq<Combination>, iterations: int, responses: seq<seq<Response>>, ids: seq<string>): (r: Table)
    requires Suits(t, combos, iterations, responses)
    ensures r.Keys == t.Keys
  {
    if combos == [] then t
    else
      var n := |combos| - 1;
      var before := Replay(t, combos[..n], iterations, responses[..n], ids);
      AfterCombination(before, combos[n], iterations, responses[n], ids)
  }

  /** Lines 110-112: one statistics entry per measurement id. */
  method MeasureAll(successes: seq<Record>, ids: seq<string>) returns (measurements: map<string, Stats>)
    ensures measurements.Keys == set id | id in ids
    ensures forall id :: id in ids ==> measurements[id] == Analyse(successes, id)
  {
    measurements := map[];
    var i := 0;
    while i < |ids|
      invariant 0 <= i <= |ids|
      invariant measurements.Keys == set id | id in ids[..i]
      invariant forall id :: id in ids[..i] ==> measurements[id] == Analyse(successes, id)
    {
      assert ids[..i + 1] == ids[..i] + [ids[i]];
      measurements := measurements[ids[i] := Analyse(successes, ids[i])];
      i := i + 1;
    }
    assert ids[..i] == ids;
  }

  class ResultsTable {
    var table: Table

    /** Lines 45-51: an empty entry for every (benchmark, version) pair and nothing else. */
    constructor (benchmarks: seq<string>, versions: seq<Label>)
      ensures table.Keys == set b | b in benchmarks
      ensures forall b :: b in table ==> table[b].Keys == set v | v in versions
      ensures forall b, v :: b in table && v in table[b] ==> table[b][v] == Blank
    {
      var t: Table := map[];
      var i := 0;
      while i < |benchmarks|
        invariant 0 <= i <= |benchmarks|
        invariant t.Keys == set b | b in benchmarks[..i]
        invariant forall b :: b in t ==> t[b].Keys == set v | v in versions
        invariant forall b, v :: b in t && v in t[b] ==> t[b][v] == Blank
      {
        var row: map<Label, Entry> := map[];
        var j := 0;
        while j < |versions|
          invariant 0 <= j <= |versions|
          invariant row.Keys == set v | v in versions[..j]
          invariant forall v :: v in row ==> row[v] == Blank
        {
          assert versions[..j + 1] == versions[..j] + [versions[j]];
          row := row[versions[j] := Blank];
          j := j + 1;
        }
        assert versions[..j] == versions;
        assert benchmarks[..i + 1] == benchmarks[..i] + [benchmarks[i]];
        t := t[benchmarks[i] := row];
        i := i + 1;
      }
      assert benchmarks[..i] == benchmarks;
      table := t;
    }

    /** Lines 66-68: the entry of a combination about to run holds only its size. */
    method Start(benchmark: string, version: Label, size: int)
      requires benchmark in table
      modifies this
      ensures table == old(table)[benchmark := old(table)[benchmark][version := Entry(Some(size), None, None)]]
    {
      table := table[benchmark := table[benchmark][version := Entry(Some(size), None, None)]];
    }

    /**
     * Lines 104-112: the error text joins the error records' messages; the
     * statistics are computed from the success records, whether or not
     * there were errors.
     */
    method Complete(benchmark: string, version: Label, messages: seq<Record>, ids: seq<string>)
      requires benchmark in table && version in table[benchmark]
      modifies this
      ensures table == old(table)[benchmark := old(table)[benchmark][version :=
                Completed(old(table)[benchmark][version].size, messages, ids)]]
    {
      var successes := Successes(messages);
      var error := ErrorText(messages);
      var measurements := MeasureAll(successes, ids);
      assert measurements == MeasurementMap(messages, ids);
      var entry := table[benchmark][version];
      table := table[benchmark := table[benchmark][version := Entry(entry.size, Some(error), Some(measurements))]];
    }

    /** One combination: reset its entry, run its passes, and record the outcome when they complete. */
    method RunCombination(c: Combination, iterations: int, responses: seq<Response>, ids: seq<string>)
      returns (ok: bool)
      requires c.benchmark in table && |responses| >= Passes(iterations)
      modifies this
      ensures ok == Completes(iterations, responses)
      ensures table == AfterCombination(old(table), c, iterations, responses, ids)
    {
      Start(c.benchmark, c.version, c.size);
      ghost var started := table;
      var messages, consumed;
      ok, messages, consumed := CollectMessages(iterations, responses);
      if ok {
        assert messages == MessagesOf(iterations, responses);
        Complete(c.benchmark, c.version, messages, ids);
        var entry := Completed(Some(c.size), messages, ids);
        assert started[c.benchmark][c.version := entry] == old(table)[c.benchmark][c.version := entry];
      }
    }

    /**
     * One browser session: the combinations in order, stopping at the first
     * one whose passes abort. `done` counts the combinations started.
     */
    method RunSession(combos: seq<Combination>, iterations: int, responses: seq<seq<Response>>, ids: seq<string>)
      returns (ok: bool, done: nat)
      requires Suits(table, combos, iterations, responses)
      modifies this
      ensures done <= |combos|
      ensures forall k :: 0 <= k < done - 1 ==> Completes(iterations, responses[k])
      ensures ok <==> done == |combos| && (done == 0 || Completes(iterations, responses[done - 1]))
      ensures !ok ==> done >= 1 && !Completes(iterations, responses[done - 1])
      ensures table == Replay(old(table), combos[..done], iterations, responses[..done], ids)
    {
      done := 0;
      ok := true;
      while done < |combos|
        invariant 0 <= done <= |combos|
        invariant forall k :: 0 <= k < done ==> Completes(iterations, responses[k])
        invariant table == Replay(old(table), combos[..done], iterations, responses[..done], ids)
      {
        ReplayStep(old(table), combos, iterations, responses, ids, done);
        var passed := RunCombination(combos[done], iterations, responses[done], ids);
        done := done + 1;
        if !passed {
          assert !Completes(iterations, responses[done - 1]);
          ok := false;
          return;
        }
        forall k | 0 <= k < done
          ensures Completes(iterations, responses[k])
        {
          if k == done - 1 {
            assert Completes(iterations, responses[done - 1]);
          }
        }
      }
      assert done == |combos|;
    }
  }

  /** Any prefix of the combinations is suited by the same prefix of the answers. */
  lemma SuitsPrefix(t: Table, combos: seq<Combination>, iterations: int, responses: seq<seq<Response>>, n: nat)
    requires Suits(t, combos, iterations, responses) && n <= |combos|
    ensures Suits(t, combos[..n], iterations, responses[..n])
  {
    assert forall k :: 0 <= k < n ==> combos[..n][k] == combos[k] && responses[..n][k] == responses[k];
  }

  /** Replaying one more combination runs it on the table the shorter replay left. */
  lemma ReplayStep(t: Table, combos: seq<Combination>, iterations: int, responses: seq<seq<Response>>,
                   ids: seq<string>, n: nat)
    requires Suits(t, combos, iterations, responses) && n < |combos|
    ensures Suits(t, combos[..n], iterations, responses[..n])
    ensures Suits(t, combos[..n + 1], iterations, responses[..n + 1])
    ensures Replay(t, combos[..n + 1], iterations, responses[..n + 1], ids)
         == AfterCombination(Replay(t, combos[..n], iterations, responses[..n], ids), combos[n], iterations, responses[n], ids)
  {
    SuitsPrefix(t, combos, iterations, responses, n);
    SuitsPrefix(t, combos, iterations, responses, n + 1);
    assert combos[..n + 1][..n] == combos[..n];
    assert responses[..n + 1][..n] == responses[..n];
    assert combos[..n + 1][n] == combos[n] && responses[..n + 1][n] == responses[n];
  }

  /** A combination with records but only error records gets a non-empty error text and all-zero statistics. */
  lemma OnlyErrorsEntry(size: Option<int>, messages: seq<Record>, ids: seq<string>)
    requires messages != [] && forall k :: 0 <= k < |messages| ==> IsError(messages[k])
    ensures Completed(size, messages, ids).error.value != ""
    ensures forall id :: id in ids ==> Completed(size, messages, ids).measurements.value[id] == Stats(0.0, 0.0, 0.0)
  {
    ErrorTextEmptyIff(messages);
    SuccessesOfOnlyErrors(messages);
  }

  /** Only error records leave no success record. */
  lemma {:induction false} SuccessesOfOnlyErrors(messages: seq<Record>)
    requires forall k :: 0 <= k < |messages| ==> IsError(messages[k])
    ensures Successes(messages) == []
  {
    if messages != [] {
      assert forall k :: 0 <= k < |messages[1..]| ==> messages[1..][k] == messages[k + 1];
      SuccessesOfOnlyErrors(messages[1..]);
    }
  }

  /**
   * The error text is empty exactly when no record is an error, and every
   * measurement id has statistics computed from the success records alone.
   */
  lemma CompletedEntry(size: Option<int>, messages: seq<Record>, ids: seq<string>)
    ensures var e := Completed(size, messages, ids);
      && (e.error.value == "" <==> forall k :: 0 <= k < |messages| ==> !IsError(messages[k]))
      && e.measurements.value.Keys == set id | id in ids
      && forall id :: id in ids ==> e.measurements.value[id] == Analyse(Successes(messages), id)
  {
    ErrorTextEmptyIff(messages);
  }

  /** The entry at a pair has been completed: it has an error text and statistics for exactly the ids. */
  ghost predicate CompletedAt(r: Table, b: string, v: Label, ids: seq<string>) {
    b in r && v in r[b] &&
    var e := r[b][v];
    e.size.Some? && e.error.Some? && e.measurements.Some? && e.measurements.value.Keys == set id | id in ids
  }

  /** Running one combination whose passes complete leaves its own entry completed and keeps the others' state. */
  lemma AfterCompletedCombination(t: Table, c: Combination, iterations: int, responses: seq<Response>, ids: seq<string>,
                                  b: string, v: Label)
    requires c.benchmark in t && |responses| >= Passes(iterations)
    requires Completes(iterations, responses)
    requires (b, v) == (c.benchmark, c.version) || CompletedAt(t, b, v, ids)
    ensures CompletedAt(AfterCombination(t, c, iterations, responses, ids), b, v, ids)
  {
  }

  /**
   * After the combinations have run, the entry of combination k is exactly
   * the outcome of its own passes (its size, its own error text and its own
   * statistics, or the size alone on abort), provided no later combination
   * writes the same pair.
   */
  lemma {:induction false} ReplayEntry(t: Table, combos: seq<Combination>, iterations: int,
                                       responses: seq<seq<Response>>, ids: seq<string>, k: nat)
    requires Suits(t, combos, iterations, responses) && k < |combos|
    requires forall j :: k < j < |combos| ==>
               (combos[j].benchmark, combos[j].version) != (combos[k].benchmark, combos[k].version)
    ensures combos[k].benchmark in Replay(t, combos, iterations, responses, ids)
    ensures combos[k].version in Replay(t, combos, iterations, responses, ids)[combos[k].benchmark]
    ensures Replay(t, combos, iterations, responses, ids)[combos[k].benchmark][combos[k].version]
         == Outcome(combos[k], Completes(iterations, responses[k]), MessagesOf(iterations, responses[k]), ids)
  {
    var n := |combos| - 1;
    ReplayStep(t, combos, iterations, responses, ids, n);
    assert combos[..n + 1] == combos && responses[..n + 1] == responses;
    if k < n {
      assert forall j :: k < j < n ==> combos[..n][j] == combos[j];
      assert combos[..n][k] == combos[k] && responses[..n][k] == responses[k];
      ReplayEntry(t, combos[..n], iterations, responses[..n], ids, k);
    }
  }

  /**
   * After a session that ran every combination, each combination's entry is
   * completed: it has an error text and statistics for exactly the ids.
   */
  lemma {:induction false} SessionCompletesEntries(t: Table, combos: seq<Combination>, iterations: int,
                                                   responses: seq<seq<Response>>, ids: seq<string>)
    requires Suits(t, combos, iterations, responses)
    requires forall k :: 0 <= k < |combos| ==> Completes(iterations, responses[k])
    ensures forall k :: 0 <= k < |combos| ==>
              CompletedAt(Replay(t, combos, iterations, responses, ids), combos[k].benchmark, combos[k].version, ids)
  {
    if combos != [] {
      var n := |combos| - 1;
      var init := combos[..n];
      ReplayStep(t, combos, iterations, responses, ids, n);
      assert combos[..n + 1] == combos && responses[..n + 1] == responses;
      assert forall k :: 0 <= k < n ==> Completes(iterations, responses[..n][k]) by {
        assert forall k :: 0 <= k < n ==> responses[..n][k] == responses[k];
      }
      SessionCompletesEntries(t, init, iterations, responses[..n], ids);
      var before := Replay(t, init, iterations, responses[..n], ids);
      var after := Replay(t, combos, iterations, responses, ids);
      assert after == AfterCombination(before, combos[n], iterations, responses[n], ids);
      assert combos[n].benchmark in before by {
        assert combos[n].benchmark in t && before.Keys == t.Keys;
      }
      assert |responses[n]| >= Passes(iterations) && Completes(iterations, responses[n]);
      forall k | 0 <= k < |combos|
        ensures CompletedAt(after, combos[k].benchmark, combos[k].version, ids)
      {
        if k < n {
          assert init[k] == combos[k];
          assert CompletedAt(before, init[k].benchmark, init[k].version, ids);
          assert CompletedAt(before, combos[k].benchmark, combos[k].version, ids);
        } else {
          assert k == n;
        }
        AfterCompletedCombination(before, combos[n], iterations, responses[n], ids, combos[k].benchmark, combos[k].version);
      }
    }
  }

  /** Running combinations whose pairs the table already has leaves every benchmark's set of versions as it was. */
  lemma {:induction false} ReplayKeepsVersions(t: Table, combos: seq<Combination>, iterations: int,
                                               responses: seq<seq<Response>>, ids: seq<string>)
    requires Suits(t, combos, iterations, responses)
    requires forall k :: 0 <= k < |combos| ==> combos[k].benchmark in t && combos[k].version in t[combos[k].benchmark]
    ensures forall b :: b in t ==> Replay(t, combos, iterations, responses, ids)[b].Keys == t[b].Keys
  {
    if combos != [] {
      var n := |combos| - 1;
      ReplayStep(t, combos, iterations, responses, ids, n);
      assert combos[..n + 1] == combos && responses[..n + 1] == responses;
      assert forall k :: 0 <= k < n ==> combos[..n][k] == combos[k];
      ReplayKeepsVersions(t, combos[..n], iterations, responses[..n], ids);
    }
  }
}
