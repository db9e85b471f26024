/** The fan-out: one call placement per destination, in order, each
    recorded as one report line whatever its outcome. */
module Dispatch {
  import opened PyStr

  /** What the handler asks the provider for: a call to `to` from `from`. */
  datatype Call = Call(to: string, from: string)

  /** What one placement attempt gives back: the new call's SID, or the
      message of the error it raised. */
  datatype CallOutcome = Created(sid: string) | Raised(message: string)

  /** The provider as seen by one batch: the outcome of the call placed at
      each position of the batch. */
  type Provider = (nat, Call) -> CallOutcome

  /** The report line for one destination. */
  function ResultLine(number: string, outcome: CallOutcome): (line: string)
    ensures outcome.Created? <==> "[Success] " <= line
    ensures outcome.Raised? <==> "[Error] " <= line
  {
    match outcome
    case Created(sid) =>
      var line := "[Success] " + number + ": " + sid;
      assert line[1] == 'S' != "[Error] "[1];
      line
    case Raised(msg) =>
      var line := "[Error] " + number + ": " + msg;
      assert line[1] == 'E' != "[Success] "[1];
      line
  }

  /** The calls a batch over `dests` places, in order. */
  function Attempts(dests: seq<string>, from: string): (calls: seq<Call>)
    ensures |calls| == |dests|
    ensures forall i :: 0 <= i < |calls| ==> calls[i].to == dests[i] && calls[i].from == from
  {
    seq(|dests|, i requires 0 <= i < |dests| => Call(dests[i], from))
  }

  /** The report of a batch over `dests`: line i belongs to destination i. */
  function Report(dests: seq<string>, from: string, place: Provider): (lines: seq<string>)
    ensures |lines| == |dests|
  {
    seq(|dests|, i requires 0 <= i < |dests| => ResultLine(dests[i], place(i, Call(dests[i], from))))
  }

  /** Places one call per destination, strictly in order, and appends one
      line per call; a raised error is recorded and the loop goes on. */
  method PlaceCalls(dests: seq<string>, from: string, place: Provider)
    returns (results: seq<string>, calls: seq<Call>)
    ensures results == Report(dests, from, place)
    ensures calls == Attempts(dests, from)
  {
    results, calls := [], [];
    for i := 0 to |dests|
      invariant |results| == i && |calls| == i
      invariant forall k :: 0 <= k < i ==> calls[k] == Call(dests[k], from)
      invariant forall k :: 0 <= k < i ==> results[k] == ResultLine(dests[k], place(k, calls[k]))
    {
      var number := dests[i];
      var call := Call(number, from);
      var outcome := place(i, call);
      calls := calls + [call];
      match outcome
      case Created(sid) =>
        results := results + ["[Success] " + number + ": " + sid];
      case Raised(msg) =>
        results := results + ["[Error] " + number + ": " + msg];
    }
  }

  /** Line i of the report starts with "[Success] " exactly when call i
      created a call and with "[Error] " exactly when it raised; either way
      it names destination i and then the SID or the error message. */
  lemma ReportLineKind(dests: seq<string>, from: string, place: Provider, i: nat)
    requires i < |dests|
    ensures var line := Report(dests, from, place)[i];
      var outcome := place(i, Call(dests[i], from));
      (outcome.Created? <==> "[Success] " <= line)
      && (outcome.Raised? <==> "[Error] " <= line)
      && (outcome.Created? ==> line == "[Success] " + dests[i] + ": " + outcome.sid)
      && (outcome.Raised? ==> line == "[Error] " + dests[i] + ": " + outcome.message)
  {
    var line := Report(dests, from, place)[i];
    if place(i, Call(dests[i], from)).Created? {
      assert line[1] == 'S';
    } else {
      assert line[1] == 'E';
    }
  }

  /** When every call of the batch is created, every line of the report is a
      "[Success]" line for its own destination, in destination order. */
  lemma EveryCallCreated(dests: seq<string>, from: string, place: Provider)
    requires forall i :: 0 <= i < |dests| ==> place(i, Call(dests[i], from)).Created?
    ensures |Report(dests, from, place)| == |dests|
    ensures forall i :: 0 <= i < |dests| ==>
      Report(dests, from, place)[i] == "[Success] " + dests[i] + ": " + place(i, Call(dests[i], from)).sid
  {
  }

  /** A failure is local: when two providers disagree only about call j,
      the two reports agree on every other line (and have the same length). */
  lemma FailureIsLocal(dests: seq<string>, from: string, p: Provider, q: Provider, j: nat)
    requires forall i :: 0 <= i < |dests| && i != j ==> p(i, Call(dests[i], from)) == q(i, Call(dests[i], from))
    ensures |Report(dests, from, p)| == |Report(dests, from, q)| == |dests|
    ensures forall i :: 0 <= i < |dests| && i != j ==> Report(dests, from, p)[i] == Report(dests, from, q)[i]
  {
  }

  /** A line contains no newline when the destination and the SID or
      message it shows contain none. */
  lemma ResultLineOneLine(number: string, outcome: CallOutcome)
    requires '\n' !in number
    requires outcome.Created? ==> '\n' !in outcome.sid
    requires outcome.Raised? ==> '\n' !in outcome.message
    ensures '\n' !in ResultLine(number, outcome)
  {
    var prefix := if outcome.Created? then "[Success] " else "[Error] ";
    var payload := if outcome.Created? then outcome.sid else outcome.message;
    assert ResultLine(number, outcome) == prefix + number + ": " + payload;
    assert '\n' !in prefix + number + ": " by {
      assert '\n' !in prefix;
      assert '\n' !in ": ";
    }
  }

  /** The newline-joined report of a non-empty batch splits back into
      exactly one line per destination, in order, provided no destination,
      SID or error message contains a newline itself. */
  lemma ReportBodyLines(dests: seq<string>, from: string, place: Provider)
    requires |dests| >= 1
    requires forall i :: 0 <= i < |dests| ==> '\n' !in dests[i]
    requires forall i :: 0 <= i < |dests| ==> match place(i, Call(dests[i], from))
      case Created(sid) => '\n' !in sid
      case Raised(msg) => '\n' !in msg
    ensures Split(Join(Report(dests, from, place), "\n"), '\n') == Report(dests, from, place)
    ensures |Split(Join(Report(dests, from, place), "\n"), '\n')| == |dests|
  {
    var lines := Report(dests, from, place);
    forall k | 0 <= k < |lines| ensures '\n' !in lines[k] {
      ResultLineOneLine(dests[k], place(k, Call(dests[k], from)));
    }
    SplitJoin(lines, '\n');
  }

  /** Without that condition the count fails: one destination whose call
      raises a two-line message gives a body of two lines. */
  lemma MultiLineMessageSplitsLine(d: string, from: string, place: Provider, a: string, b: string)
    requires '\n' !in d && '\n' !in a && '\n' !in b
    requires place(0, Call(d, from)) == Raised(a + "\n" + b)
    ensures Split(Join(Report([d], from, place), "\n"), '\n') == ["[Error] " + d + ": " + a, b]
    ensures |Split(Join(Report([d], from, place), "\n"), '\n')| == 2 != |[d]|
  {
    var first := "[Error] " + d + ": " + a;
    assert Join(Report([d], from, place), "\n") == first + ['\n'] + b;
    assert '\n' !in first by {
      assert '\n' !in "[Error] " && '\n' !in ": ";
    }
    SplitAfterPiece(first, b, '\n');
    SplitNoSep(b, '\n');
  }
}
