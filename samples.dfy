/**
 * One combination's sample loop and the bookkeeping right after it
 * (selenium/run.js, lines 76-107).
 *
 * Each pass loads the page and runs the in-page timer once; the driver's
 * answer is an array of records, a single record, or a failure. A failure
 * of the script call whose message contains "Timed out" stands for one
 * `{error: 'Timed out'}` record; any other failure aborts the combination.
 * The pass counter starts at `iterations` and is decremented after every
 * pass, so at least one pass always runs.
 */
module Samples {
  import opened Wrappers

  /** One record of the in-page timer: a timed lifecycle phase, or an error. */
  datatype Record = Sample(kind: string, value: real) | Failed(error: string)

  /** `!!message.error`: an error record with a non-empty message. */
  predicate IsError(r: Record) {
    r.Failed? && r.error != ""
  }

  /** The decoded answer of the timer: a JSON array of records, or one object. */
  datatype Payload = Many(records: seq<Record>) | One(record: Record)

  /**
   * What one pass yields: the timer's answer, a failure of the script call
   * (the only failure the timeout handler sees), or a failure of loading
   * the page or decoding the answer.
   */
  datatype Response = Returned(payload: Payload) | ScriptFailed(message: string) | NavigationFailed(message: string)

  /** The message fragment by which the driver reports a script timeout. */
  const TimedOut: string := "Timed out"

  /** `sub` occurs in `s` at index i. */
  predicate OccursAt(s: string, sub: string, i: int) {
    0 <= i && i + |sub| <= |s| && s[i..i + |sub|] == sub
  }

  /** The first index of `sub` in `s` at or after `from`, or -1. */
  function IndexFrom(s: string, sub: string, from: nat): (r: int)
    decreases |s| + 1 - from
    ensures r == -1 || (from <= r && OccursAt(s, sub, r))
    ensures forall i :: from <= i && (r == -1 || i < r) ==> !OccursAt(s, sub, i)
  {
    if from + |sub| > |s| then -1
    else if s[from..from + |sub|] == sub then from
    else IndexFrom(s, sub, from + 1)
  }

  /** `String.prototype.indexOf`: the first index of `sub` in `s`, or -1 when it does not occur. */
  function IndexOf(s: string, sub: string): (r: int)
    ensures r == -1 <==> forall i :: !OccursAt(s, sub, i)
    ensures r != -1 ==> OccursAt(s, sub, r) && forall i :: 0 <= i < r ==> !OccursAt(s, sub, i)
  {
    IndexFrom(s, sub, 0)
  }

  /** `~message.indexOf('Timed out')` is truthy: the message mentions a timeout. */
  predicate IsTimeout(message: string) {
    IndexOf(message, TimedOut) != -1
  }

  /** The records one pass adds to the messages, or None when the pass aborts the combination. */
  function Contribution(r: Response): Option<seq<Record>> {
    match r
    case Returned(Many(records)) => Some(records)
    case Returned(One(record)) => Some([record])
    case ScriptFailed(message) => if IsTimeout(message) then Some([Failed(TimedOut)]) else None
    case NavigationFailed(_) => None
  }

  /** The messages after the given passes, in order, or None once a pass aborted. */
  function Accumulate(responses: seq<Response>): Option<seq<Record>> {
    if responses == [] then Some([])
    else match Accumulate(responses[..|responses| - 1])
      case None => None
      case Some(messages) =>
        match Contribution(responses[|responses| - 1])
        case None => None
        case Some(added) => Some(messages + added)
  }

  /**
   * How many passes run for a given `iterations`: the counter, which is
   * iterations - n after n passes, is tested only after a pass, so the loop
   * stops after the first pass that brings it to 0 or below.
   */
  function Passes(iterations: int): (n: nat)
    ensures n >= 1 && iterations - n <= 0
    ensures n > 1 ==> iterations - (n - 1) > 0
  {
    if iterations <= 1 then 1 else iterations
  }

  /**
   * The sample loop of one combination, as a counted loop over the driver's
   * answers. `consumed` is how many answers were used; `ok` is false when
   * the combination was aborted. Answers beyond the passes are never read.
   */
  method CollectMessages(iterations: int, responses: seq<Response>)
    returns (ok: bool, messages: seq<Record>, consumed: nat)
    requires |responses| >= Passes(iterations)
    ensures 1 <= consumed <= Passes(iterations)
    ensures ok <==> Accumulate(responses[..Passes(iterations)]).Some?
    ensures ok ==> consumed == Passes(iterations) && Accumulate(responses[..consumed]) == Some(messages)
    ensures !ok ==> Accumulate(responses[..consumed - 1]).Some? && Contribution(responses[consumed - 1]).None?
  {
    var times := iterations;
    messages := [];
    consumed := 0;
    while true
      invariant 0 <= consumed < Passes(iterations)
      invariant times == iterations - consumed
      invariant Accumulate(responses[..consumed]) == Some(messages)
      decreases Passes(iterations) - consumed
    {
      var added := Contribution(responses[consumed]);
      assert responses[..consumed + 1][..consumed] == responses[..consumed];
      consumed := consumed + 1;
      if added.None? {
        ok := false;
        AccumulateSomeIff(responses[..Passes(iterations)]);
        return;
      }
      messages := messages + added.value;
      times := times - 1;
      if times <= 0 {
        ok := true;
        return;
      }
    }
  }

  /** A run of passes completes exactly when none of its passes aborts. */
  lemma {:induction false} AccumulateSomeIff(responses: seq<Response>)
    ensures Accumulate(responses).Some? <==> forall k :: 0 <= k < |responses| ==> Contribution(responses[k]).Some?
  {
    if responses != [] {
      var init := responses[..|responses| - 1];
      AccumulateSomeIff(init);
      assert forall k :: 0 <= k < |init| ==> init[k] == responses[k];
    }
  }

  /** Messages are concatenated in pass order: two runs of passes accumulate to the two results joined. */
  lemma {:induction false} AccumulateAppend(a: seq<Response>, b: seq<Response>)
    ensures Accumulate(a + b) ==
      if Accumulate(a).Some? && Accumulate(b).Some? then Some(Accumulate(a).value + Accumulate(b).value) else None
  {
    if b == [] {
      assert a + b == a;
      if Accumulate(a).Some? {
        assert Accumulate(a).value + [] == Accumulate(a).value;
      }
    } else {
      var init := b[..|b| - 1];
      var last := b[|b| - 1];
      assert (a + b)[..|a + b| - 1] == a + init;
      assert (a + b)[|a + b| - 1] == last;
      AccumulateAppend(a, init);
      assert Accumulate(a + b) ==
        match Accumulate(a + init)
        case None => None
        case Some(messages) =>
          match Contribution(last)
          case None => None
          case Some(added) => Some(messages + added);
      assert Accumulate(b) ==
        match Accumulate(init)
        case None => None
        case Some(messages) =>
          match Contribution(last)
          case None => None
          case Some(added) => Some(messages + added);
      if Accumulate(a).Some? && Accumulate(init).Some? && Contribution(last).Some? {
        assert Accumulate(a).value + Accumulate(init).value + Contribution(last).value
            == Accumulate(a).value + (Accumulate(init).value + Contribution(last).value);
      }
    }
  }

  /** `messages.filter(message => !!message.error)`. */
  function Errors(messages: seq<Record>): seq<Record>
  {
    if messages == [] then []
    else (if IsError(messages[0]) then [messages[0]] else []) + Errors(messages[1..])
  }

  /** `messages.filter(message => !message.error)`. */
  function Successes(messages: seq<Record>): seq<Record>
  {
    if messages == [] then []
    else (if IsError(messages[0]) then [] else [messages[0]]) + Successes(messages[1..])
  }

  /** The error filter keeps exactly the records with a non-empty error. */
  lemma {:induction false} ErrorsMembership(messages: seq<Record>)
    ensures forall x :: x in Errors(messages) <==> x in messages && IsError(x)
  {
    if messages != [] {
      ErrorsMembership(messages[1..]);
      assert messages == [messages[0]] + messages[1..];
    }
  }

  /** The success filter keeps exactly the records without a non-empty error. */
  lemma {:induction false} SuccessesMembership(messages: seq<Record>)
    ensures forall x :: x in Successes(messages) <==> x in messages && !IsError(x)
  {
    if messages != [] {
      SuccessesMembership(messages[1..]);
      assert messages == [messages[0]] + messages[1..];
    }
  }

  /** Error and success records together are exactly the messages, none lost and none repeated. */
  lemma {:induction false} PartitionIsExact(messages: seq<Record>)
    ensures |Errors(messages)| + |Successes(messages)| == |messages|
    ensures multiset(Errors(messages)) + multiset(Successes(messages)) == multiset(messages)
  {
    if messages != [] {
      PartitionIsExact(messages[1..]);
      assert messages == [messages[0]] + messages[1..];
    }
  }

  /** The error filter keeps the original order: it distributes over concatenation. */
  lemma {:induction false} ErrorsOfConcat(a: seq<Record>, b: seq<Record>)
    ensures Errors(a + b) == Errors(a) + Errors(b)
  {
    if a == [] {
      assert a + b == b;
    } else {
      assert (a + b)[0] == a[0];
      assert (a + b)[1..] == a[1..] + b;
      ErrorsOfConcat(a[1..], b);
      var head := if IsError(a[0]) then [a[0]] else [];
      assert Errors(a) == head + Errors(a[1..]);
      assert Errors(a + b) == head + Errors(a[1..] + b);
      assert head + (Errors(a[1..]) + Errors(b)) == (head + Errors(a[1..])) + Errors(b);
    }
  }

  /** The success filter keeps the original order: it distributes over concatenation. */
  lemma {:induction false} SuccessesOfConcat(a: seq<Record>, b: seq<Record>)
    ensures Successes(a + b) == Successes(a) + Successes(b)
  {
    if a == [] {
      assert a + b == b;
    } else {
      assert (a + b)[0] == a[0];
      assert (a + b)[1..] == a[1..] + b;
      SuccessesOfConcat(a[1..], b);
      var head := if IsError(a[0]) then [] else [a[0]];
      assert Successes(a) == head + Successes(a[1..]);
      assert Successes(a + b) == head + Successes(a[1..] + b);
      assert head + (Successes(a[1..]) + Successes(b)) == (head + Successes(a[1..])) + Successes(b);
    }
  }

  /**
   * A pass that timed out adds one error record and no sample: wherever it
   * falls among the passes, the run completes exactly when the run without
   * it does, with the same success records and one more "Timed out" error.
   */
  lemma TimeoutAddsNoSamples(a: seq<Response>, b: seq<Response>, message: string)
    requires IsTimeout(message)
    ensures Accumulate(a + [ScriptFailed(message)] + b).Some? <==> Accumulate(a + b).Some?
    ensures Accumulate(a + b).Some? ==>
              Successes(Accumulate(a + [ScriptFailed(message)] + b).value) == Successes(Accumulate(a + b).value) &&
              |Errors(Accumulate(a + [ScriptFailed(message)] + b).value)| == |Errors(Accumulate(a + b).value)| + 1
  {
    var t := [ScriptFailed(message)];
    assert Accumulate(t) == Some([Failed(TimedOut)]) by {
      assert t[..|t| - 1] == [];
      assert Contribution(t[|t| - 1]) == Some([Failed(TimedOut)]);
      assert [] + [Failed(TimedOut)] == [Failed(TimedOut)];
    }
    AccumulateAppend(a + t, b);
    AccumulateAppend(a, t);
    AccumulateAppend(a, b);
    if Accumulate(a + b).Some? {
      var x := Accumulate(a).value;
      var y := Accumulate(b).value;
      SuccessesOfConcat(x + [Failed(TimedOut)], y);
      SuccessesOfConcat(x, [Failed(TimedOut)]);
      SuccessesOfConcat(x, y);
      ErrorsOfConcat(x + [Failed(TimedOut)], y);
      ErrorsOfConcat(x, [Failed(TimedOut)]);
      ErrorsOfConcat(x, y);
      assert Successes([Failed(TimedOut)]) == [];
      assert Errors([Failed(TimedOut)]) == [Failed(TimedOut)];
      assert Successes(x) + [] == Successes(x);
    }
  }

  /**
   * `error.error` of one filtered record, as the template literal renders it.
   * Only error records reach it after `Errors`, so the `Sample` branch is
   * unreachable there; it gives what the template would render for a missing
   * field.
   */
  function MessageOf(r: Record): string {
    match r
    case Failed(error) => error
    case Sample(_, _) => "undefined"
  }

  /** Each message wrapped in double quotes: the `map` on line 107. */
  function Quoted(messages: seq<string>): (r: seq<string>)
    ensures |r| == |messages|
    ensures forall k :: 0 <= k < |r| ==> r[k] == "\"" + messages[k] + "\""
  {
    if messages == [] then [] else ["\"" + messages[0] + "\""] + Quoted(messages[1..])
  }

  /** `Array.prototype.join`. */
  function Join(parts: seq<string>, separator: string): string {
    if |parts| == 0 then ""
    else if |parts| == 1 then parts[0]
    else parts[0] + separator + Join(parts[1..], separator)
  }

  /** The messages of the error records, in order. */
  function ErrorMessages(messages: seq<Record>): (r: seq<string>)
    ensures |r| == |Errors(messages)|
  {
    var errors := Errors(messages);
    seq(|errors|, k requires 0 <= k < |errors| => MessageOf(errors[k]))
  }

  /** The result entry's error field: each error message quoted, joined with ", ". */
  function ErrorText(messages: seq<Record>): string {
    Join(Quoted(ErrorMessages(messages)), ", ")
  }

  /** The error field is empty exactly when there are no error records. */
  lemma ErrorTextEmptyIff(messages: seq<Record>)
    ensures ErrorText(messages) == "" <==> forall k :: 0 <= k < |messages| ==> !IsError(messages[k])
  {
    ErrorsMembership(messages);
    var quoted := Quoted(ErrorMessages(messages));
    if |quoted| > 0 {
      assert ErrorText(messages)[0] == '"';
      assert Errors(messages)[0] in Errors(messages);
    } else if exists k :: 0 <= k < |messages| && IsError(messages[k]) {
      var k :| 0 <= k < |messages| && IsError(messages[k]);
      assert messages[k] in Errors(messages);
    }
  }

  /** The first index at or after `from` holding a double quote, or |s|. */
  function QuoteFrom(s: string, from: nat): (i: nat)
    requires from <= |s|
    decreases |s| - from
    ensures from <= i <= |s|
    ensures i < |s| ==> s[i] == '"'
    ensures forall k :: from <= k < i ==> s[k] != '"'
  {
    if from == |s| || s[from] == '"' then from else QuoteFrom(s, from + 1)
  }

  /** Reads `"m1", "m2", ...` back into its messages. */
  function ParseItems(s: string): Option<seq<string>>
    decreases |s|
  {
    if |s| == 0 || s[0] != '"' then None
    else
      var close := QuoteFrom(s, 1);
      if close == |s| then None
      else
        var item := s[1..close];
        var rest := s[close + 1..];
        if rest == "" then Some([item])
        else if |rest| >= 2 && rest[..2] == ", " then
          match ParseItems(rest[2..])
          case None => None
          case Some(tail) => Some([item] + tail)
        else None
  }

  /** The inverse of the error field's format, for messages that hold no double quote. */
  function ParseErrorText(s: string): Option<seq<string>> {
    if s == "" then Some([]) else ParseItems(s)
  }

  /** Reading a quoted message followed by anything. */
  lemma QuotedItemRead(m: string, rest: string)
    requires '"' !in m
    ensures var s := "\"" + m + "\"" + rest;
      QuoteFrom(s, 1) == |m| + 1 && s[1..|m| + 1] == m && s[|m| + 2..] == rest
  {
    var s := "\"" + m + "\"" + rest;
    assert s[|m| + 1] == '"';
    assert forall k :: 1 <= k < |m| + 1 ==> s[k] == m[k - 1];
    assert s[1..|m| + 1] == m;
    assert s[|m| + 2..] == rest;
  }

  /** A quoted message followed by nothing, or by ", " and a readable list, is read item by item. */
  lemma ParseItemsStep(m: string, rest: string)
    requires '"' !in m
    ensures rest == "" ==> ParseItems("\"" + m + "\"" + rest) == Some([m])
    ensures |rest| >= 2 && rest[..2] == ", " && ParseItems(rest[2..]).Some? ==>
              ParseItems("\"" + m + "\"" + rest) == Some([m] + ParseItems(rest[2..]).value)
  {
    QuotedItemRead(m, rest);
  }

  /** Joining quoted messages and reading them back gives the messages again. */
  lemma {:induction false} QuotedJoinRoundTrip(messages: seq<string>)
    requires messages != []
    requires forall k :: 0 <= k < |messages| ==> '"' !in messages[k]
    ensures ParseItems(Join(Quoted(messages), ", ")) == Some(messages)
  {
    var m := messages[0];
    if |messages| == 1 {
      assert Join(Quoted(messages), ", ") == "\"" + m + "\"" + "";
      ParseItemsStep(m, "");
      assert messages == [m];
    } else {
      var tail := messages[1..];
      var restText := Join(Quoted(tail), ", ");
      assert Quoted(messages)[1..] == Quoted(tail);
      assert Join(Quoted(messages), ", ") == "\"" + m + "\"" + (", " + restText);
      QuotedJoinRoundTrip(tail);
      assert (", " + restText)[2..] == restText;
      assert (", " + restText)[..2] == ", ";
      ParseItemsStep(m, ", " + restText);
      assert messages == [m] + tail;
    }
  }

  /** The error field loses nothing: when no error message holds a double quote, it reads back into them. */
  lemma ErrorTextRoundTrip(messages: seq<Record>)
    requires forall k :: 0 <= k < |ErrorMessages(messages)| ==> '"' !in ErrorMessages(messages)[k]
    ensures ParseErrorText(ErrorText(messages)) == Some(ErrorMessages(messages))
  {
    var errors := ErrorMessages(messages);
    if errors != [] {
      QuotedJoinRoundTrip(errors);
      ErrorTextEmptyIff(messages);
    }
  }
}
