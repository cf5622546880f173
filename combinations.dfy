/**
 * The unit of work of one browser pass (selenium/run.js, lines 37-43): one
 * combination per (benchmark, version), benchmarks in the outer loop, each
 * bound to its prebuilt `component.json`. The store of prebuilt files is a
 * map from (benchmark, version) to artifact; a missing file makes the
 * `require` throw, which stops the run before any browser starts.
 */
module Combinations {
  import opened Wrappers
  import opened Versions

  /** A prebuilt component.json: the compiled component and its gzipped size. */
  datatype Artifact = Artifact(code: string, size: int)

  /** One (version, benchmark) pair with the code and size read for it. */
  datatype Combination = Combination(version: Label, benchmark: string, code: string, size: int)

  /** The prebuilt files, keyed by benchmark and version. */
  type Store = map<(string, Label), Artifact>

  /** Every (benchmark, version) pair of the run has a prebuilt file. */
  ghost predicate Available(store: Store, benchmarks: seq<string>, versions: seq<Label>) {
    forall b, v :: b in benchmarks && v in versions ==> (b, v) in store
  }

  /** The combination for benchmark b and version v. */
  function Combine(store: Store, b: string, v: Label): Combination
    requires (b, v) in store
  {
    Combination(v, b, store[(b, v)].code, store[(b, v)].size)
  }

  /** The combinations of benchmark b, in version order. */
  function Row(store: Store, b: string, versions: seq<Label>): seq<Combination>
    requires forall v :: v in versions ==> (b, v) in store
  {
    if versions == [] then []
    else Row(store, b, versions[..|versions| - 1]) + [Combine(store, b, versions[|versions| - 1])]
  }

  /** All combinations, one row per benchmark, in benchmark order. */
  function Table(store: Store, benchmarks: seq<string>, versions: seq<Label>): seq<Combination>
    requires Available(store, benchmarks, versions)
  {
    if benchmarks == [] then []
    else Table(store, benchmarks[..|benchmarks| - 1], versions)
         + Row(store, benchmarks[|benchmarks| - 1], versions)
  }

  /** The two nested `forEach` loops that push the combinations. */
  method BuildCombinations(store: Store, benchmarks: seq<string>, versions: seq<Label>)
    returns (combinations: Option<seq<Combination>>)
    ensures combinations.Some? <==> Available(store, benchmarks, versions)
    ensures combinations.Some? ==> combinations.value == Table(store, benchmarks, versions)
  {
    var built: seq<Combination> := [];
    var i := 0;
    while i < |benchmarks|
      invariant 0 <= i <= |benchmarks|
      invariant Available(store, benchmarks[..i], versions)
      invariant built == Table(store, benchmarks[..i], versions)
    {
      var benchmark := benchmarks[i];
      var j := 0;
      while j < |versions|
        invariant 0 <= j <= |versions|
        invariant forall v :: v in versions[..j] ==> (benchmark, v) in store
        invariant built == Table(store, benchmarks[..i], versions) + Row(store, benchmark, versions[..j])
      {
        var version := versions[j];
        if (benchmark, version) !in store {
          assert benchmark in benchmarks && version in versions;
          return None;
        }
        RowStep(store, benchmark, versions, j);
        built := built + [Combination(version, benchmark, store[(benchmark, version)].code, store[(benchmark, version)].size)];
        j := j + 1;
      }
      assert versions[..j] == versions;
      TableStep(store, benchmarks, versions, i);
      i := i + 1;
    }
    assert benchmarks[..i] == benchmarks;
    return Some(built);
  }

  /** One more version appends its combination to a row. */
  lemma RowStep(store: Store, b: string, versions: seq<Label>, j: nat)
    requires j < |versions| && forall v :: v in versions[..j + 1] ==> (b, v) in store
    ensures forall v :: v in versions[..j] ==> (b, v) in store
    ensures Row(store, b, versions[..j + 1]) == Row(store, b, versions[..j]) + [Combine(store, b, versions[j])]
  {
    assert versions[..j + 1][..j] == versions[..j];
    assert versions[..j + 1][j] == versions[j];
  }

  /** One more benchmark appends its row to the table. */
  lemma TableStep(store: Store, benchmarks: seq<string>, versions: seq<Label>, i: nat)
    requires i < |benchmarks| && Available(store, benchmarks[..i + 1], versions)
    ensures Available(store, benchmarks[..i], versions)
    ensures forall v :: v in versions ==> (benchmarks[i], v) in store
    ensures Table(store, benchmarks[..i + 1], versions) == Table(store, benchmarks[..i], versions) + Row(store, benchmarks[i], versions)
  {
    assert benchmarks[..i + 1][..i] == benchmarks[..i];
    assert benchmarks[..i + 1][i] == benchmarks[i];
  }

  /** The k-th combination of a row is benchmark b with the k-th version. */
  lemma {:induction false} RowAt(store: Store, b: string, versions: seq<Label>)
    requires forall v :: v in versions ==> (b, v) in store
    ensures |Row(store, b, versions)| == |versions|
    ensures forall j :: 0 <= j < |versions| ==> Row(store, b, versions)[j] == Combine(store, b, versions[j])
  {
    if versions != [] {
      var init := versions[..|versions| - 1];
      assert forall v :: v in init ==> v in versions;
      RowAt(store, b, init);
    }
  }

  /** Where index i * n + j falls once the last block of n is split off a table of m blocks. */
  lemma BlockIndex(i: nat, j: nat, m: nat, n: nat)
    requires i < m && j < n
    ensures 0 <= i * n + j < m * n
    ensures i < m - 1 ==> i * n + j < (m - 1) * n
    ensures i == m - 1 ==> i * n + j == (m - 1) * n + j
  {
    if i < m - 1 {
      assert (i + 1) * n <= (m - 1) * n;
    }
  }

  /** Splitting the last block of n off m blocks. */
  lemma LastBlock(m: nat, n: nat)
    requires m > 0
    ensures (m - 1) * n + n == m * n
  {
  }

  /** Index k of a + b reads a when k < |a| and b otherwise. */
  lemma ConcatAt<T>(a: seq<T>, b: seq<T>, k: nat)
    requires k < |a| + |b|
    ensures (a + b)[k] == if k < |a| then a[k] else b[k - |a|]
  {
  }

  /** There are |benchmarks| * |versions| combinations. */
  lemma {:induction false} TableLength(store: Store, benchmarks: seq<string>, versions: seq<Label>)
    requires Available(store, benchmarks, versions)
    ensures |Table(store, benchmarks, versions)| == |benchmarks| * |versions|
  {
    var m := |benchmarks|;
    if m > 0 {
      var init := benchmarks[..m - 1];
      assert forall b :: b in init ==> b in benchmarks;
      TableLength(store, init, versions);
      RowAt(store, benchmarks[m - 1], versions);
      LastBlock(m, |versions|);
    }
  }

  /** The combination at index i * |versions| + j pairs the i-th benchmark with the j-th version. */
  lemma {:induction false} TableAtIndex(store: Store, benchmarks: seq<string>, versions: seq<Label>, i: nat, j: nat)
    requires Available(store, benchmarks, versions)
    requires i < |benchmarks| && j < |versions|
    ensures 0 <= i * |versions| + j < |Table(store, benchmarks, versions)|
    ensures Table(store, benchmarks, versions)[i * |versions| + j] == Combine(store, benchmarks[i], versions[j])
  {
    var m := |benchmarks|;
    var n := |versions|;
    var init := benchmarks[..m - 1];
    assert forall b :: b in init ==> b in benchmarks;
    TableLength(store, init, versions);
    RowAt(store, benchmarks[m - 1], versions);
    BlockIndex(i, j, m, n);
    var front := Table(store, init, versions);
    var row := Row(store, benchmarks[m - 1], versions);
    assert Table(store, benchmarks, versions) == front + row;
    ConcatAt(front, row, i * n + j);
    if i < m - 1 {
      TableAtIndex(store, init, versions, i, j);
      assert init[i] == benchmarks[i];
    }
  }

  /** Every combination pairs one of the benchmarks with one of the versions. */
  lemma {:induction false} TableMembers(store: Store, benchmarks: seq<string>, versions: seq<Label>)
    requires Available(store, benchmarks, versions)
    ensures forall c :: c in Table(store, benchmarks, versions) ==> c.benchmark in benchmarks && c.version in versions
  {
    var m := |benchmarks|;
    if m > 0 {
      var init := benchmarks[..m - 1];
      assert forall b :: b in init ==> b in benchmarks;
      TableMembers(store, init, versions);
      RowAt(store, benchmarks[m - 1], versions);
      var row := Row(store, benchmarks[m - 1], versions);
      assert forall c :: c in row ==> c.benchmark == benchmarks[m - 1] && c.version in versions by {
        forall c | c in row
          ensures c.benchmark == benchmarks[m - 1] && c.version in versions
        {
          var j :| 0 <= j < |row| && row[j] == c;
          assert c == Combine(store, benchmarks[m - 1], versions[j]);
        }
      }
      assert Table(store, benchmarks, versions) == Table(store, init, versions) + row;
    }
  }
}
