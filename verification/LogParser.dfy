// The call-stack parser of transaction logs: which "Program data:" lines belong to frames of the
// pool program.
module LogParser {
  import opened Wrappers
  import opened Numerals
  import opened Text

  // ---- The two patterns the parser matches lines against ----

  predicate IsBase58(c: char) {
    || '1' <= c <= '9' || 'A' <= c <= 'H' || 'J' <= c <= 'N' || 'P' <= c <= 'Z'
    || 'a' <= c <= 'k' || 'm' <= c <= 'z'
  }

  predicate AllBase58(s: string) {
    forall i :: 0 <= i < |s| ==> IsBase58(s[i])
  }

  // Digits and letters without the four that are easily taken for one another.
  lemma Base58Alphabet(c: char)
    ensures IsBase58(c) <==> ('0' <= c <= '9' || 'A' <= c <= 'Z' || 'a' <= c <= 'z') && c !in "0OIl"
  {
  }

  predicate StartsWith(s: string, prefix: string) {
    |prefix| <= |s| && s[..|prefix|] == prefix
  }

  const PROGRAM := "Program "
  const PROGRAM_DATA := "Program data: "

  // The end of the base58 run that starts at position i.
  function Base58End(s: string, i: nat): (k: nat)
    requires i <= |s|
    ensures i <= k <= |s| && (k < |s| ==> !IsBase58(s[k])) && forall j :: i <= j < k ==> IsBase58(s[j])
    decreases |s| - i
  {
    if i < |s| && IsBase58(s[i]) then Base58End(s, i + 1) else i
  }

  // "Program <base58> <rest>": the name and what follows it.  The run is maximal because the
  // patterns continue with a space.
  function NameEnd(log: string): (k: nat)
    requires StartsWith(log, PROGRAM)
    ensures 8 <= k <= |log|
  {
    Base58End(log, 8)
  }

  // " invoke [<digits>]"
  predicate IsInvokeTail(s: string) {
    && |s| > 10 && s[..9] == " invoke [" && s[|s| - 1] == ']'
    && IsNumeral(10, s[9..|s| - 1])
  }

  predicate IsLineTerminator(c: char) {
    c == '\n' || c == '\r' || c == '\U{2028}' || c == '\U{2029}'
  }

  // " success" or " failed: " and at least one character, none of them a line terminator
  predicate IsExitTail(s: string) {
    || s == " success"
    || (|s| > 9 && s[..9] == " failed: " && forall i :: 9 <= i < |s| ==> !IsLineTerminator(s[i]))
  }

  function GetInvokedProgram(log: string): (r: Option<string>)
    ensures r.Some? ==> r.value != [] && AllBase58(r.value) && StartsWith(log, PROGRAM + r.value)
  {
    if StartsWith(log, PROGRAM) && NameEnd(log) > 8 && IsInvokeTail(log[NameEnd(log)..])
    then Some(log[8..NameEnd(log)]) else None
  }

  predicate IsProgramExit(log: string) {
    StartsWith(log, PROGRAM) && NameEnd(log) > 8 && IsExitTail(log[NameEnd(log)..])
  }

  // ---- Lines as the runtime prints them ----

  lemma NameIsRun(name: string, tail: string)
    requires AllBase58(name) && name != [] && (tail != [] ==> !IsBase58(tail[0]))
    ensures var log := PROGRAM + name + tail;
      StartsWith(log, PROGRAM) && NameEnd(log) == 8 + |name| && log[8..NameEnd(log)] == name && log[NameEnd(log)..] == tail
  {
    var log := PROGRAM + name + tail;
    assert log[..8] == PROGRAM;
    assert forall j :: 8 <= j < 8 + |name| ==> log[j] == name[j - 8];
    assert tail != [] ==> log[8 + |name|] == tail[0];
    Base58Run(log, 8, 8 + |name|);
    assert log[8..8 + |name|] == name;
    assert log[8 + |name|..] == tail;
  }

  lemma {:induction false} Base58Run(s: string, i: nat, k: nat)
    requires i <= k <= |s| && (k < |s| ==> !IsBase58(s[k])) && forall j :: i <= j < k ==> IsBase58(s[j])
    ensures Base58End(s, i) == k
    decreases k - i
  {
    if i < k {
      Base58Run(s, i + 1, k);
    }
  }

  function CallLine(program: string, digits: string): string {
    PROGRAM + program + (" invoke [" + digits + "]")
  }

  function InvokeLine(program: string, depth: nat): string {
    CallLine(program, PrintNat(10, depth))
  }

  datatype Exit = Returned | Failed(reason: string)

  predicate ProperExit(exit: Exit) {
    exit.Failed? ==> exit.reason != [] && forall i :: 0 <= i < |exit.reason| ==> !IsLineTerminator(exit.reason[i])
  }

  function ExitLine(program: string, exit: Exit): string {
    PROGRAM + program + (if exit.Returned? then " success" else " failed: " + exit.reason)
  }

  ghost predicate CallsProgram(log: string, program: string) {
    program != [] && AllBase58(program) && exists digits :: digits != [] && IsNumeral(10, digits) && log == CallLine(program, digits)
  }

  ghost predicate IsCallLine(log: string) {
    exists program :: CallsProgram(log, program)
  }

  ghost predicate IsReturnLine(log: string) {
    exists program, exit :: program != [] && AllBase58(program) && ProperExit(exit) && log == ExitLine(program, exit)
  }

  lemma CallLineParses(program: string, digits: string)
    requires program != [] && AllBase58(program) && digits != [] && IsNumeral(10, digits)
    ensures GetInvokedProgram(CallLine(program, digits)) == Some(program)
  {
    var tail := " invoke [" + digits + "]";
    assert tail[..9] == " invoke [" && tail[9..|tail| - 1] == digits && !IsBase58(tail[0]);
    NameIsRun(program, tail);
  }

  /** The program that a line calls: exactly the lines "Program <base58> invoke [<digits>]". */
  lemma InvokedIff(log: string, program: string)
    ensures GetInvokedProgram(log) == Some(program) <==> CallsProgram(log, program)
  {
    if CallsProgram(log, program) {
      var digits :| digits != [] && IsNumeral(10, digits) && log == CallLine(program, digits);
      CallLineParses(program, digits);
    }
    if GetInvokedProgram(log) == Some(program) {
      var tail := log[NameEnd(log)..];
      var digits := tail[9..|tail| - 1];
      assert tail == tail[..9] + digits + [tail[|tail| - 1]] == " invoke [" + digits + "]";
      assert log == log[..8] + log[8..NameEnd(log)] + tail == CallLine(program, digits);
    }
  }

  /** The lines that end a frame: exactly "Program <base58> success" and "Program <base58> failed: "
      with a reason. */
  lemma ExitIff(log: string)
    ensures IsProgramExit(log) <==> IsReturnLine(log)
  {
    if IsReturnLine(log) {
      hide IsProgramExit, ProperExit, ExitLine, AllBase58;
      var program, exit :| program != [] && AllBase58(program) && ProperExit(exit) && log == ExitLine(program, exit);
      ExitLineParses(program, exit);
    }
    if IsProgramExit(log) {
      ExitIsReturn(log);
    }
  }

  lemma ExitIsReturn(log: string)
    requires IsProgramExit(log)
    ensures IsReturnLine(log)
  {
    var program := log[8..NameEnd(log)];
    var exit := ExitOfTail(log[NameEnd(log)..]);
    assert log == PROGRAM + program + log[NameEnd(log)..] by {
      assert log == log[..8] + program + log[NameEnd(log)..];
    }
    assert log == ExitLine(program, exit);
  }

  lemma ExitOfTail(tail: string) returns (exit: Exit)
    requires IsExitTail(tail)
    ensures ProperExit(exit) && tail == if exit.Returned? then " success" else " failed: " + exit.reason
  {
    if tail == " success" {
      exit := Returned;
    } else {
      exit := Failed(tail[9..]);
      assert tail == tail[..9] + tail[9..];
    }
  }

  lemma InvokeLineParses(program: string, depth: nat)
    requires program != [] && AllBase58(program)
    ensures GetInvokedProgram(InvokeLine(program, depth)) == Some(program)
  {
    ParsePrint(10, depth);
    CallLineParses(program, PrintNat(10, depth));
  }

  lemma ExitLineParses(program: string, exit: Exit)
    requires program != [] && AllBase58(program) && ProperExit(exit)
    ensures IsProgramExit(ExitLine(program, exit)) && GetInvokedProgram(ExitLine(program, exit)).None?
    ensures !StartsWith(ExitLine(program, exit), PROGRAM_DATA)
  {
    var tail := if exit.Returned? then " success" else " failed: " + exit.reason;
    ExitTail(exit);
    NameIsRun(program, tail);
    NotDataLine(program, tail);
    hide AllBase58, ProperExit, IsExitTail, IsInvokeTail, NameEnd;
  }

  lemma ExitTail(exit: Exit)
    requires ProperExit(exit)
    ensures var tail := if exit.Returned? then " success" else " failed: " + exit.reason;
      |tail| > 1 && tail[0] == ' ' && tail[1] != 'd' && IsExitTail(tail) && !IsInvokeTail(tail)
  {
    var tail := if exit.Returned? then " success" else " failed: " + exit.reason;
    assert exit.Failed? ==> tail[..9] == " failed: ";
    assert tail[1] == 's' || tail[1] == 'f';
    if |tail| > 10 {
      assert tail[..9][1] == tail[1] && " invoke ["[1] == 'i';
    }
  }

  // A base58 name cannot contain the colon of "Program data:".
  lemma NotDataLine(program: string, tail: string)
    requires AllBase58(program) && program != []
    requires |tail| > 1 && tail[0] == ' ' && tail[1] != 'd'
    ensures !StartsWith(PROGRAM + program + tail, PROGRAM_DATA)
  {
    var log := PROGRAM + program + tail;
    assert forall i :: 8 <= i < 8 + |program| ==> log[i] == program[i - 8];
    assert log[8 + |program|] == ' ' && log[9 + |program|] != 'd';
    assert StartsWith(log, PROGRAM_DATA) ==> forall i :: 0 <= i < 14 ==> log[i] == log[..14][i] == PROGRAM_DATA[i];
    assert |program| > 4 ==> IsBase58(log[12]);
    assert !IsBase58(':');
  }

  // Neither a call nor a return.
  ghost predicate Inert(log: string) {
    !IsCallLine(log) && !IsReturnLine(log)
  }

  lemma InertIff(log: string)
    ensures Inert(log) <==> GetInvokedProgram(log).None? && !IsProgramExit(log)
  {
    hide GetInvokedProgram, IsProgramExit, CallsProgram, IsReturnLine;
    ExitIff(log);
    forall program
      ensures GetInvokedProgram(log) == Some(program) <==> CallsProgram(log, program)
    {
      InvokedIff(log, program);
    }
    if GetInvokedProgram(log).Some? {
      assert CallsProgram(log, GetInvokedProgram(log).value);
    }
  }

  /** Lines that a program logs through the runtime are never taken for a call or a return,
      whatever text they carry. */
  lemma LoggedLinesAreInert(text: string)
    ensures Inert("Program log: " + text) && Inert("Program data: " + text)
  {
    hide Inert, GetInvokedProgram, IsProgramExit;
    LogLinePasses(text);
    DataLinePasses(text);
    InertIff("Program log: " + text);
    InertIff("Program data: " + text);
  }

  lemma LogLinePasses(text: string)
    ensures GetInvokedProgram("Program log: " + text).None? && !IsProgramExit("Program log: " + text)
  {
    var log := "Program log: " + text;
    assert log[8] == 'l' && !IsBase58('l');
  }

  lemma DataLinePasses(text: string)
    ensures GetInvokedProgram("Program data: " + text).None? && !IsProgramExit("Program data: " + text)
  {
    var name, tail := "data", ": " + text;
    assert "Program data: " + text == PROGRAM + name + tail;
    assert tail[0] == ':' && name[0] == 'd' && name[1] == 'a' && name[2] == 't' && name[3] == 'a';
    NameIsRun(name, tail);
    hide NameEnd;
  }

  // ---- The parser ----

  // What the event coder makes of the text after the prefix: another event or no event at all,
  // a commitment event, or a commitment event whose values it rejects by throwing.
  datatype Decoded =
    | NotCommitment
    | Malformed
    | Commitment(outputIndex: nat, commitment: string, encryptedOutput: string)

  datatype CommitmentEvent = CommitmentEvent(outputIndex: nat, commitment: string, encryptedOutput: string, logIndex: nat)

  datatype LogError = InvalidEvent(logIndex: nat)

  // `decode` is the event coder.
  function DecodeCommitmentEvent(decode: string -> Decoded, log: string, logIndex: nat): Result<Option<CommitmentEvent>, LogError> {
    if !StartsWith(log, PROGRAM_DATA) then Success(None)
    else match decode(log[|PROGRAM_DATA|..])
      case NotCommitment => Success(None)
      case Malformed => Failure(InvalidEvent(logIndex))
      case Commitment(outputIndex, commitment, encryptedOutput) =>
        Success(Some(CommitmentEvent(outputIndex, commitment, encryptedOutput, logIndex)))
  }

  /** What is read from a data line, and that no other line is read. */
  lemma DataLineDecodes(decode: string -> Decoded, log: string, logIndex: nat)
    ensures forall text :: log == "Program data: " + text ==>
              match decode(text)
              case NotCommitment => DecodeCommitmentEvent(decode, log, logIndex) == Success(None)
              case Malformed => DecodeCommitmentEvent(decode, log, logIndex) == Failure(InvalidEvent(logIndex))
              case Commitment(outputIndex, commitment, encryptedOutput) =>
                var r := DecodeCommitmentEvent(decode, log, logIndex);
                && r.Success? && r.value.Some?
                && r.value.value.outputIndex == outputIndex && r.value.value.commitment == commitment
                && r.value.value.encryptedOutput == encryptedOutput && r.value.value.logIndex == logIndex
    ensures (forall text :: log != "Program data: " + text) ==> DecodeCommitmentEvent(decode, log, logIndex) == Success(None)
  {
    forall text | log == "Program data: " + text
      ensures StartsWith(log, PROGRAM_DATA) && log[|PROGRAM_DATA|..] == text
    {
      assert log[..14] == "Program data: ";
    }
    if StartsWith(log, PROGRAM_DATA) {
      assert log == "Program data: " + log[14..];
    }
  }

  predicate TopIs(stack: seq<string>, programId: string) {
    stack != [] && stack[|stack| - 1] == programId
  }

  function StackAfter(stack: seq<string>, log: string): seq<string> {
    if GetInvokedProgram(log).Some? then stack + [GetInvokedProgram(log).value]
    else if IsProgramExit(log) && stack != [] then stack[..|stack| - 1]
    else stack
  }

  // The positions of the lines handed to the event coder, from line i on.
  function EventLines(logs: seq<string>, i: nat, stack: seq<string>, programId: string): (lines: seq<nat>)
    requires i <= |logs|
    ensures forall k :: 0 <= k < |lines| ==> i <= lines[k] < |logs|
    ensures forall j, k :: 0 <= j < k < |lines| ==> lines[j] < lines[k]
    decreases |logs| - i
  {
    if i == |logs| then []
    else
      (if GetInvokedProgram(logs[i]).None? && TopIs(stack, programId) && StartsWith(logs[i], PROGRAM_DATA) then [i] else [])
      + EventLines(logs, i + 1, StackAfter(stack, logs[i]), programId)
  }

  // The commitment events among the lines at the given positions, up to the first malformed one.
  function DecodeLines(decode: string -> Decoded, logs: seq<string>, positions: seq<nat>): Result<seq<CommitmentEvent>, LogError>
    requires forall k :: 0 <= k < |positions| ==> positions[k] < |logs|
  {
    if positions == [] then Success([])
    else
      var event :- DecodeCommitmentEvent(decode, logs[positions[0]], positions[0]);
      var events :- DecodeLines(decode, logs, positions[1..]);
      Success((if event.Some? then [event.value] else []) + events)
  }

  predicate IsMalformed(decode: string -> Decoded, log: string) {
    StartsWith(log, PROGRAM_DATA) && decode(log[|PROGRAM_DATA|..]).Malformed?
  }

  /** Decoding fails exactly when some line is malformed, and it reports the first one. */
  lemma {:induction false} DecodeFailsIff(decode: string -> Decoded, logs: seq<string>, positions: seq<nat>)
    requires forall k :: 0 <= k < |positions| ==> positions[k] < |logs|
    ensures DecodeLines(decode, logs, positions).Success? <==>
            forall k :: 0 <= k < |positions| ==> !IsMalformed(decode, logs[positions[k]])
    ensures DecodeLines(decode, logs, positions).Failure? ==>
            exists k :: 0 <= k < |positions| && IsMalformed(decode, logs[positions[k]])
                        && (forall j :: 0 <= j < k ==> !IsMalformed(decode, logs[positions[j]]))
                        && DecodeLines(decode, logs, positions).error.logIndex == positions[k]
    decreases |positions|
  {
    hide StartsWith;
    if positions != [] {
      DecodeFailsIff(decode, logs, positions[1..]);
      assert forall k :: 1 <= k < |positions| ==> positions[k] == positions[1..][k - 1];
      if !IsMalformed(decode, logs[positions[0]]) && DecodeLines(decode, logs, positions[1..]).Failure? {
        var k :| 0 <= k < |positions[1..]| && IsMalformed(decode, logs[positions[1..][k]])
                 && (forall j :: 0 <= j < k ==> !IsMalformed(decode, logs[positions[1..][j]]))
                 && DecodeLines(decode, logs, positions[1..]).error.logIndex == positions[1..][k];
        assert IsMalformed(decode, logs[positions[k + 1]]);
      }
    }
  }

  function CommitmentEvents(decode: string -> Decoded, logs: Option<seq<string>>, programId: string): Result<seq<CommitmentEvent>, LogError> {
    if logs.None? then Success([])
    else DecodeLines(decode, logs.value, EventLines(logs.value, 0, [], programId))
  }

  method ParseCommitmentEvents(decode: string -> Decoded, logs: Option<seq<string>>, programId: string)
    returns (r: Result<seq<CommitmentEvent>, LogError>)
    ensures r == CommitmentEvents(decode, logs, programId)
  {
    if logs.None? {
      return Success([]);
    }
    var lines := logs.value;
    PrependNothing(CommitmentEvents(decode, logs, programId));
    var programStack: seq<string> := [];
    var events: seq<CommitmentEvent> := [];
    for logIndex := 0 to |lines|
      invariant CommitmentEvents(decode, logs, programId)
                == Prepend(events, Decoding(decode, lines, logIndex, programStack, programId))
    {
      var log := lines[logIndex];
      ghost var rest := Decoding(decode, lines, logIndex + 1, StackAfter(programStack, log), programId);
      DecodingStep(decode, lines, logIndex, programStack, programId);
      PrependNothing(rest);
      var invokedProgram := GetInvokedProgram(log);
      if invokedProgram.Some? {
        programStack := programStack + [invokedProgram.value];
        continue;
      }
      if TopIs(programStack, programId) {
        var event :- DecodeCommitmentEvent(decode, log, logIndex);
        if event.Some? {
          PrependTwice(events, [event.value], rest);
          events := events + [event.value];
        }
      }
      if IsProgramExit(log) && programStack != [] {
        programStack := programStack[..|programStack| - 1];
      }
    }
    assert events + [] == events;
    return Success(events);
  }

  function Prepend(events: seq<CommitmentEvent>, r: Result<seq<CommitmentEvent>, LogError>): Result<seq<CommitmentEvent>, LogError> {
    if r.Failure? then r else Success(events + r.value)
  }

  lemma PrependTwice(xs: seq<CommitmentEvent>, ys: seq<CommitmentEvent>, r: Result<seq<CommitmentEvent>, LogError>)
    ensures Prepend(xs, Prepend(ys, r)) == Prepend(xs + ys, r)
  {
    if r.Success? {
      assert xs + (ys + r.value) == xs + ys + r.value;
    }
  }

  // What remains to be decoded from line i on.
  function Decoding(decode: string -> Decoded, logs: seq<string>, i: nat, stack: seq<string>, programId: string): Result<seq<CommitmentEvent>, LogError>
    requires i <= |logs|
  {
    DecodeLines(decode, logs, EventLines(logs, i, stack, programId))
  }

  lemma DecodeCons(decode: string -> Decoded, logs: seq<string>, i: nat, rest: seq<nat>)
    requires i < |logs| && forall k :: 0 <= k < |rest| ==> rest[k] < |logs|
    requires StartsWith(logs[i], PROGRAM_DATA)
    ensures DecodeLines(decode, logs, [i] + rest)
            == Then(DecodeCommitmentEvent(decode, logs[i], i), DecodeLines(decode, logs, rest))
  {
    var lines := [i] + rest;
    assert lines[0] == i && lines[1..] == rest;
  }

  // One line, then the others: the first failure wins.
  function Then(now: Result<Option<CommitmentEvent>, LogError>, rest: Result<seq<CommitmentEvent>, LogError>): Result<seq<CommitmentEvent>, LogError> {
    if now.Failure? then Failure(now.error) else Prepend(if now.value.Some? then [now.value.value] else [], rest)
  }

  lemma DecodingStep(decode: string -> Decoded, logs: seq<string>, i: nat, stack: seq<string>, programId: string)
    requires i < |logs|
    ensures Decoding(decode, logs, i, stack, programId)
            == Then(if GetInvokedProgram(logs[i]).None? && TopIs(stack, programId)
                    then DecodeCommitmentEvent(decode, logs[i], i) else Success(None),
                    Decoding(decode, logs, i + 1, StackAfter(stack, logs[i]), programId))
  {
    hide IsProgramExit, GetInvokedProgram, StartsWith, StackAfter, TopIs;
    var rest := EventLines(logs, i + 1, StackAfter(stack, logs[i]), programId);
    if GetInvokedProgram(logs[i]).None? && TopIs(stack, programId) && StartsWith(logs[i], PROGRAM_DATA) {
      DecodeCons(decode, logs, i, rest);
    } else {
      assert [] + rest == rest;
      PrependNothing(Decoding(decode, logs, i + 1, StackAfter(stack, logs[i]), programId));
    }
  }

  lemma PrependNothing(r: Result<seq<CommitmentEvent>, LogError>)
    ensures Prepend([], r) == r
  {
    if r.Success? {
      assert [] + r.value == r.value;
    }
  }
}
