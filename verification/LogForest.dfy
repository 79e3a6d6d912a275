// Nested program invocations as the runtime logs them, and what the call-stack parser makes of
// such a log.
module LogForest {
  import opened Wrappers
  import opened LogParser

  // The calls and lines of one frame, in order.
  datatype Items =
    | Nil
    | Line(text: string, rest: Items)
    | Call(program: string, depth: nat, body: Items, exit: Exit, rest: Items)

  function Print(items: Items): seq<string> {
    match items
    case Nil => []
    case Line(text, rest) => [text] + Print(rest)
    case Call(program, depth, body, exit, rest) =>
      [InvokeLine(program, depth)] + Print(body) + [ExitLine(program, exit)] + Print(rest)
  }

  // Every line that is not a call or a return does not look like one.
  ghost predicate Proper(items: Items) {
    match items
    case Nil => true
    case Line(text, rest) => Inert(text) && Proper(rest)
    case Call(program, depth, body, exit, rest) =>
      program != [] && AllBase58(program) && ProperExit(exit) && Proper(body) && Proper(rest)
  }

  /** The positions of the data lines that frames of the target program print themselves, not
      through their callees.  `inTarget`: the items belong to such a frame; `at`: the position of
      the first line. */
  function DirectLines(items: Items, inTarget: bool, at: nat, programId: string): seq<nat> {
    match items
    case Nil => []
    case Line(text, rest) =>
      (if inTarget && StartsWith(text, PROGRAM_DATA) then [at] else [])
      + DirectLines(rest, inTarget, at + 1, programId)
    case Call(program, depth, body, exit, rest) =>
      DirectLines(body, program == programId, at + 1, programId)
      + DirectLines(rest, inTarget, at + 2 + |Print(body)|, programId)
  }

  // The lines stand in the log from position `at` on.
  predicate StandsAt(logs: seq<string>, at: nat, lines: seq<string>) {
    at + |lines| <= |logs| && forall k :: at <= k < at + |lines| ==> logs[k] == lines[k - at]
  }

  lemma StandsApart(logs: seq<string>, at: nat, front: seq<string>, back: seq<string>)
    requires StandsAt(logs, at, front + back)
    ensures StandsAt(logs, at, front) && StandsAt(logs, at + |front|, back)
  {
    var both := front + back;
    forall k | at <= k < at + |front|
      ensures logs[k] == front[k - at]
    {
      assert logs[k] == both[k - at];
    }
    forall k | at + |front| <= k < at + |both|
      ensures logs[k] == back[k - (at + |front|)]
    {
      assert logs[k] == both[k - at];
    }
  }

  lemma {:induction false} CallParts(logs: seq<string>, at: nat, items: Items)
    requires items.Call? && StandsAt(logs, at, Print(items))
    ensures var n := |Print(items.body)|;
      && |Print(items)| == n + 2 + |Print(items.rest)|
      && at + |Print(items)| <= |logs|
      && logs[at] == InvokeLine(items.program, items.depth)
      && StandsAt(logs, at + 1, Print(items.body))
      && logs[at + 1 + n] == ExitLine(items.program, items.exit)
      && StandsAt(logs, at + 2 + n, Print(items.rest))
  {
    hide InvokeLine, ExitLine, StandsAt;
    var call, return_ := [InvokeLine(items.program, items.depth)], [ExitLine(items.program, items.exit)];
    var body, rest := Print(items.body), Print(items.rest);
    assert Print(items) == call + body + return_ + rest;
    StandsApart(logs, at, call + body + return_, rest);
    StandsApart(logs, at, call + body, return_);
    StandsApart(logs, at, call, body);
    StandsFirst(logs, at, call);
    StandsFirst(logs, at + 1 + |body|, return_);
    StandsInside(logs, at, Print(items));
  }

  lemma StandsFirst(logs: seq<string>, at: nat, lines: seq<string>)
    requires StandsAt(logs, at, lines) && lines != []
    ensures at < |logs| && logs[at] == lines[0]
  {
  }

  lemma StandsInside(logs: seq<string>, at: nat, lines: seq<string>)
    requires StandsAt(logs, at, lines)
    ensures at + |lines| <= |logs|
  {
  }

  lemma LineParts(logs: seq<string>, at: nat, items: Items)
    requires items.Line? && StandsAt(logs, at, Print(items))
    ensures at + |Print(items)| <= |logs|
    ensures logs[at] == items.text && StandsAt(logs, at + 1, Print(items.rest))
    ensures |Print(items)| == 1 + |Print(items.rest)|
  {
    assert Print(items) == [items.text] + Print(items.rest);
    StandsApart(logs, at, [items.text], Print(items.rest));
  }

  /** Wherever properly nested items stand in a log, and whatever the stack, the parser takes
      exactly the direct data lines of target frames from them, in order, and goes on behind them
      with the stack it had before. */
  lemma {:induction false} ParserInvertsPrinter(logs: seq<string>, at: nat, items: Items, stack: seq<string>, programId: string)
    requires Proper(items) && StandsAt(logs, at, Print(items))
    ensures EventLines(logs, at, stack, programId)
            == DirectLines(items, TopIs(stack, programId), at, programId)
               + EventLines(logs, at + |Print(items)|, stack, programId)
    decreases items
  {
    hide StandsAt, TopIs, EventLines, StackAfter, Print, DirectLines, Inert, AllBase58, ProperExit;
    StandsInside(logs, at, Print(items));
    match items
    case Nil => NothingPrinted(logs, at, stack, programId);
    case Line(text, rest) =>
      LineParts(logs, at, items);
      ParserInvertsPrinter(logs, at + 1, rest, stack, programId);
      LineStep(logs, at, items, stack, programId);
    case Call(program, depth, body, exit, rest) =>
      CallParts(logs, at, items);
      ParserInvertsPrinter(logs, at + 1, body, stack + [program], programId);
      ParserInvertsPrinter(logs, at + 2 + |Print(body)|, rest, stack, programId);
      CallStep(logs, at, items, stack, programId);
  }

  lemma NothingPrinted(logs: seq<string>, at: nat, stack: seq<string>, programId: string)
    requires at <= |logs|
    ensures EventLines(logs, at, stack, programId)
            == DirectLines(Nil, TopIs(stack, programId), at, programId) + EventLines(logs, at + |Print(Nil)|, stack, programId)
  {
    hide TopIs, EventLines;
    assert [] + EventLines(logs, at, stack, programId) == EventLines(logs, at, stack, programId);
  }

  lemma LineStep(logs: seq<string>, at: nat, items: Items, stack: seq<string>, programId: string)
    requires items.Line? && StandsAt(logs, at, Print(items)) && Proper(items) && at + |Print(items)| <= |logs|
    requires |Print(items)| == 1 + |Print(items.rest)|
    requires EventLines(logs, at + 1, stack, programId)
             == DirectLines(items.rest, TopIs(stack, programId), at + 1, programId)
                + EventLines(logs, at + 1 + |Print(items.rest)|, stack, programId)
    ensures EventLines(logs, at, stack, programId)
            == DirectLines(items, TopIs(stack, programId), at, programId)
               + EventLines(logs, at + |Print(items)|, stack, programId)
  {
    hide GetInvokedProgram, IsProgramExit, StartsWith, TopIs, Print, StandsAt, EventLines, Inert;
    LineParts(logs, at, items);
    InertIff(items.text);
    assert StackAfter(stack, logs[at]) == stack;
    OneLine(logs, at, stack, programId);
    var here := if TopIs(stack, programId) && StartsWith(logs[at], PROGRAM_DATA) then [at] else [];
    var direct := DirectLines(items.rest, TopIs(stack, programId), at + 1, programId);
    var after := EventLines(logs, at + |Print(items)|, stack, programId);
    assert here + (direct + after) == here + direct + after;
  }

  // One step of the parser.
  lemma OneLine(logs: seq<string>, at: nat, stack: seq<string>, programId: string)
    requires at < |logs|
    ensures EventLines(logs, at, stack, programId)
            == (if GetInvokedProgram(logs[at]).None? && TopIs(stack, programId) && StartsWith(logs[at], PROGRAM_DATA) then [at] else [])
               + EventLines(logs, at + 1, StackAfter(stack, logs[at]), programId)
  {
    hide GetInvokedProgram, IsProgramExit, StartsWith, TopIs, StackAfter;
  }

  // A line that is no event.
  lemma Passing(logs: seq<string>, at: nat, stack: seq<string>, next: seq<string>, programId: string)
    requires at < |logs| && (GetInvokedProgram(logs[at]).Some? || !StartsWith(logs[at], PROGRAM_DATA))
    requires StackAfter(stack, logs[at]) == next
    ensures EventLines(logs, at, stack, programId) == EventLines(logs, at + 1, next, programId)
  {
    hide GetInvokedProgram, IsProgramExit, StartsWith, TopIs, StackAfter, EventLines;
    OneLine(logs, at, stack, programId);
    assert [] + EventLines(logs, at + 1, next, programId) == EventLines(logs, at + 1, next, programId);
  }

  lemma CallStep(logs: seq<string>, at: nat, items: Items, stack: seq<string>, programId: string)
    requires items.Call? && StandsAt(logs, at, Print(items)) && Proper(items) && at + |Print(items)| <= |logs|
    requires |Print(items)| == |Print(items.body)| + 2 + |Print(items.rest)|
    requires EventLines(logs, at + 1, stack + [items.program], programId)
             == DirectLines(items.body, TopIs(stack + [items.program], programId), at + 1, programId)
                + EventLines(logs, at + 1 + |Print(items.body)|, stack + [items.program], programId)
    requires EventLines(logs, at + 2 + |Print(items.body)|, stack, programId)
             == DirectLines(items.rest, TopIs(stack, programId), at + 2 + |Print(items.body)|, programId)
                + EventLines(logs, at + 2 + |Print(items.body)| + |Print(items.rest)|, stack, programId)
    ensures EventLines(logs, at, stack, programId)
            == DirectLines(items, TopIs(stack, programId), at, programId)
               + EventLines(logs, at + |Print(items)|, stack, programId)
  {
    hide InvokeLine, ExitLine, GetInvokedProgram, IsProgramExit, StartsWith, AllBase58, ProperExit, Print, StandsAt, EventLines;
    CallParts(logs, at, items);
    InvokeLineParses(items.program, items.depth);
    ExitLineParses(items.program, items.exit);
    var inner, n := stack + [items.program], |Print(items.body)|;
    assert inner[..|inner| - 1] == stack;
    assert TopIs(inner, programId) <==> items.program == programId;
    Passing(logs, at, stack, inner, programId);
    Passing(logs, at + 1 + n, inner, stack, programId);
    var body := DirectLines(items.body, items.program == programId, at + 1, programId);
    var direct := DirectLines(items.rest, TopIs(stack, programId), at + 2 + n, programId);
    var after := EventLines(logs, at + |Print(items)|, stack, programId);
    assert body + (direct + after) == body + direct + after;
  }

  /** The log of a whole transaction: the events are those of the direct data lines of frames of
      the program, wherever in the forest these frames stand. */
  lemma LogOfForest(decode: string -> Decoded, items: Items, programId: string)
    requires Proper(items)
    ensures forall k :: 0 <= k < |DirectLines(items, false, 0, programId)| ==>
              DirectLines(items, false, 0, programId)[k] < |Print(items)|
    ensures CommitmentEvents(decode, Some(Print(items)), programId)
            == DecodeLines(decode, Print(items), DirectLines(items, false, 0, programId))
  {
    hide Print, DirectLines, EventLines, DecodeLines, Proper;
    var logs := Print(items);
    ParserInvertsPrinter(logs, 0, items, [], programId);
    LogEnds(logs, programId);
    assert EventLines(logs, 0, [], programId) == DirectLines(items, false, 0, programId);
  }

  lemma LogEnds(logs: seq<string>, programId: string)
    ensures EventLines(logs, |logs|, [], programId) == []
  {
  }

  // ---- Truncated logs ----

  lemma {:induction false} LinesOfPrefix(logs: seq<string>, n: nat, i: nat, stack: seq<string>, programId: string)
    requires i <= n <= |logs|
    ensures EventLines(logs[..n], i, stack, programId) <= EventLines(logs, i, stack, programId)
    decreases n - i
  {
    if i < n {
      LinesOfPrefix(logs, n, i + 1, StackAfter(stack, logs[i]), programId);
    }
  }

  lemma {:induction false} DecodePrefix(decode: string -> Decoded, logs: seq<string>, n: nat, short: seq<nat>, long: seq<nat>)
    requires n <= |logs| && short <= long
    requires forall k :: 0 <= k < |long| ==> long[k] < |logs|
    requires forall k :: 0 <= k < |short| ==> short[k] < n
    requires DecodeLines(decode, logs, long).Success?
    ensures DecodeLines(decode, logs[..n], short).Success?
    ensures DecodeLines(decode, logs[..n], short).value <= DecodeLines(decode, logs, long).value
    decreases |short|
  {
    if short != [] {
      assert short[0] == long[0] && logs[..n][short[0]] == logs[long[0]];
      assert short[1..] <= long[1..];
      DecodePrefix(decode, logs, n, short[1..], long[1..]);
    }
  }

  /** The runtime may cut a log short.  What is parsed from the part that is left is a prefix of
      what the whole log holds. */
  lemma TruncatedLog(decode: string -> Decoded, logs: seq<string>, n: nat, programId: string)
    requires n <= |logs| && CommitmentEvents(decode, Some(logs), programId).Success?
    ensures CommitmentEvents(decode, Some(logs[..n]), programId).Success?
    ensures CommitmentEvents(decode, Some(logs[..n]), programId).value <= CommitmentEvents(decode, Some(logs), programId).value
  {
    LinesOfPrefix(logs, n, 0, [], programId);
    DecodePrefix(decode, logs, n, EventLines(logs[..n], 0, [], programId), EventLines(logs, 0, [], programId));
  }
}
