// When every output row is attributed to the instruction whose call printed its event.
module PoolOwnership {
  import opened Wrappers
  import opened Numerals
  import opened FieldCodec
  import opened TransactLayout
  import opened LogParser
  import opened LogForest
  import opened PoolParser
  import opened PoolAttribution

  // ---- Labels of events against numbers of instructions ----

  // The positions of the native instructions, counting from j.
  function NativeNumbers(native: seq<bool>, j: nat): (r: seq<nat>)
    ensures forall t :: 0 <= t < |r| ==> j <= r[t] < j + |native|
    ensures forall t, u :: 0 <= t < u < |r| ==> r[t] < r[u]
    decreases |native|
  {
    if native == [] then [] else (if native[0] then [j] else []) + NativeNumbers(native[1..], j + 1)
  }

  // The number that the parser gives to the t-th event.
  function OwnerNumber(numbers: seq<nat>, t: nat): nat
    requires numbers != []
  {
    if t / 2 < |numbers| then numbers[t / 2] else numbers[0]
  }

  predicate Attributed(labels: seq<nat>, numbers: seq<nat>) {
    numbers == [] || forall t :: 0 <= t < |labels| ==> OwnerNumber(numbers, t) == labels[t]
  }

  predicate AllZero(counts: seq<nat>) {
    forall k :: 0 <= k < |counts| ==> counts[k] == 0
  }

  // Calls that are no native instructions hold no events.
  predicate OnlyNative(counts: seq<nat>, native: seq<bool>)
    requires |counts| == |native|
  {
    forall k :: 0 <= k < |counts| && !native[k] ==> counts[k] == 0
  }

  // Native calls hold two events each until the events run out, and other calls hold none.
  predicate PairsUntilEnd(counts: seq<nat>, native: seq<bool>)
    requires |counts| == |native|
    decreases |counts|
  {
    if counts == [] then true
    else if !native[0] then counts[0] == 0 && PairsUntilEnd(counts[1..], native[1..])
    else if counts[0] == 2 then PairsUntilEnd(counts[1..], native[1..])
    else counts[0] < 2 && AllZero(counts[1..])
  }

  /** The condition, on the number of events in each call and on which calls are native
      instructions. */
  predicate PairsFit(counts: seq<nat>, native: seq<bool>)
    requires |counts| == |native|
  {
    var natives := |NativeNumbers(native, 0)|;
    natives == 0 || (natives == 1 && OnlyNative(counts, native)) || (natives >= 2 && PairsUntilEnd(counts, native))
  }

  lemma {:induction false} NoLabelsIff(counts: seq<nat>, j: nat)
    ensures Labels(counts, j) == [] <==> AllZero(counts)
    decreases |counts|
  {
    if counts != [] {
      NoLabelsIff(counts[1..], j + 1);
      assert counts == [counts[0]] + counts[1..];
    }
  }

  // Strictly by pairs.
  predicate Aligned(labels: seq<nat>, numbers: seq<nat>) {
    forall t :: 0 <= t < |labels| ==> t / 2 < |numbers| && labels[t] == numbers[t / 2]
  }

  lemma AlignedPair(j: nat, labels: seq<nat>, numbers: seq<nat>)
    ensures Aligned([j, j] + labels, [j] + numbers) <==> Aligned(labels, numbers)
  {
    var longer, more := [j, j] + labels, [j] + numbers;
    if Aligned(labels, numbers) {
      forall t | 0 <= t < |longer|
        ensures t / 2 < |more| && longer[t] == more[t / 2]
      {
        if t >= 2 {
          assert longer[t] == labels[t - 2] && (t - 2) / 2 == t / 2 - 1;
        }
      }
    }
    if Aligned(longer, more) {
      forall t | 0 <= t < |labels|
        ensures t / 2 < |numbers| && labels[t] == numbers[t / 2]
      {
        assert longer[t + 2] == labels[t] && (t + 2) / 2 == t / 2 + 1;
      }
    }
  }

  // The first native call of those left.
  lemma {:induction false} AlignedNative(n: nat, j: nat, labels: seq<nat>, numbers: seq<nat>)
    requires (forall t :: 0 <= t < |labels| ==> labels[t] > j) && (forall t :: 0 <= t < |numbers| ==> numbers[t] > j)
    ensures Aligned(Repeat(j, n) + labels, [j] + numbers)
            <==> if n == 2 then Aligned(labels, numbers) else n < 2 && labels == []
  {
    var longer, more := Repeat(j, n) + labels, [j] + numbers;
    if n == 2 {
      assert Repeat(j, n) == [j, j];
      AlignedPair(j, labels, numbers);
    } else if n > 2 {
      assert longer[2] == j;
      assert |more| > 1 ==> more[1] == numbers[0];
    } else if labels != [] {
      assert longer[n] == labels[0] && n / 2 == 0;
    } else {
      assert longer == Repeat(j, n);
    }
  }

  lemma {:induction false} AlignedIff(counts: seq<nat>, native: seq<bool>, j: nat)
    requires |counts| == |native|
    ensures Aligned(Labels(counts, j), NativeNumbers(native, j)) <==> PairsUntilEnd(counts, native)
    decreases |counts|
  {
    hide Aligned, AllZero;
    if counts == [] {
      NothingAligned();
    } else {
      var labels, numbers := Labels(counts[1..], j + 1), NativeNumbers(native[1..], j + 1);
      AlignedIff(counts[1..], native[1..], j + 1);
      if native[0] {
        AlignedNative(counts[0], j, labels, numbers);
        NoLabelsIff(counts[1..], j + 1);
      } else {
        assert [] + numbers == numbers;
        AlignedOther(counts[0], j, labels, numbers);
      }
    }
  }

  lemma NothingAligned()
    ensures Aligned([], [])
  {
  }

  lemma AlignedOther(n: nat, j: nat, labels: seq<nat>, numbers: seq<nat>)
    requires forall t :: 0 <= t < |numbers| ==> numbers[t] > j
    ensures Aligned(Repeat(j, n) + labels, numbers) <==> n == 0 && Aligned(labels, numbers)
  {
    var longer := Repeat(j, n) + labels;
    if n == 0 {
      assert longer == labels;
    } else {
      assert longer[0] == j;
    }
  }

  // With two native instructions the fallback to the first one is never right.
  lemma ManyNatives(labels: seq<nat>, numbers: seq<nat>)
    requires |numbers| >= 2 && (forall t, u :: 0 <= t < u < |numbers| ==> numbers[t] < numbers[u])
    requires forall t, u :: 0 <= t < u < |labels| ==> labels[t] <= labels[u]
    ensures Attributed(labels, numbers) <==> Aligned(labels, numbers)
  {
    if Attributed(labels, numbers) {
      forall t | 0 <= t < |labels|
        ensures t / 2 < |numbers| && labels[t] == numbers[t / 2]
      {
        assert OwnerNumber(numbers, t) == labels[t];
        assert |labels| > 2 ==> OwnerNumber(numbers, 2) == labels[2] == numbers[1];
      }
    }
    if Aligned(labels, numbers) {
      forall t | 0 <= t < |labels|
        ensures OwnerNumber(numbers, t) == labels[t]
      {
        assert t / 2 < |numbers| && labels[t] == numbers[t / 2];
      }
    }
  }

  predicate AllIn(labels: seq<nat>, numbers: seq<nat>) {
    forall t :: 0 <= t < |labels| ==> labels[t] in numbers
  }

  lemma {:induction false} LabelsInNative(counts: seq<nat>, native: seq<bool>, j: nat)
    requires |counts| == |native|
    ensures AllIn(Labels(counts, j), NativeNumbers(native, j)) <==> OnlyNative(counts, native)
    decreases |counts|
  {
    hide AllIn;
    if counts == [] {
      NothingIn();
    } else {
      LabelsInNative(counts[1..], native[1..], j + 1);
      InCons(counts[0], native[0], j, Labels(counts[1..], j + 1), NativeNumbers(native[1..], j + 1));
      assert OnlyNative(counts, native) <==> (native[0] || counts[0] == 0) && OnlyNative(counts[1..], native[1..]) by {
        assert forall k :: 0 < k < |counts| ==> counts[k] == counts[1..][k - 1] && native[k] == native[1..][k - 1];
      }
    }
  }

  lemma NothingIn()
    ensures AllIn([], [])
  {
  }

  lemma InCons(n: nat, native: bool, j: nat, labels: seq<nat>, numbers: seq<nat>)
    requires (forall t :: 0 <= t < |labels| ==> labels[t] > j) && (forall t :: 0 <= t < |numbers| ==> numbers[t] > j)
    ensures AllIn(Repeat(j, n) + labels, (if native then [j] else []) + numbers) <==> (native || n == 0) && AllIn(labels, numbers)
  {
    var longer, more := Repeat(j, n) + labels, (if native then [j] else []) + numbers;
    assert forall x :: x in more <==> (native && x == j) || x in numbers;
    assert forall t :: 0 <= t < |labels| ==> longer[n + t] == labels[t];
    assert n > 0 ==> longer[0] == j;
    if (native || n == 0) && AllIn(labels, numbers) {
      forall t | 0 <= t < |longer|
        ensures longer[t] in more
      {
        assert t >= n ==> longer[t] == labels[t - n];
      }
    }
    if AllIn(longer, more) {
      forall t | 0 <= t < |labels|
        ensures labels[t] in numbers
      {
        assert longer[n + t] in more;
      }
    }
  }

  lemma OneNative(labels: seq<nat>, numbers: seq<nat>)
    requires |numbers| == 1
    ensures Attributed(labels, numbers) <==> AllIn(labels, numbers)
  {
    if Attributed(labels, numbers) {
      forall t | 0 <= t < |labels|
        ensures labels[t] in numbers
      {
        assert OwnerNumber(numbers, t) == labels[t];
      }
    }
  }

  lemma {:induction false} AttributedIffFits(counts: seq<nat>, native: seq<bool>)
    requires |counts| == |native|
    ensures Attributed(Labels(counts, 0), NativeNumbers(native, 0)) <==> PairsFit(counts, native)
  {
    hide Attributed, Aligned, AllIn, PairsUntilEnd, OnlyNative, Labels, NativeNumbers;
    var labels, numbers := Labels(counts, 0), NativeNumbers(native, 0);
    if |numbers| == 0 {
      NoNatives(labels);
      assert numbers == [];
    } else if |numbers| == 1 {
      OneNative(labels, numbers);
      LabelsInNative(counts, native, 0);
    } else {
      ManyNatives(labels, numbers);
      AlignedIff(counts, native, 0);
    }
  }

  lemma NoNatives(labels: seq<nat>)
    ensures Attributed(labels, [])
  {
  }

  // ---- Rows against calls ----

  function NativeFlags(instructions: seq<ChainInstruction>, accountKeys: seq<string>, programId: string): seq<bool> {
    seq(|instructions|, k requires 0 <= k < |instructions| => IsNativeTransact(instructions[k], accountKeys, programId))
  }

  lemma {:induction false} NativesNumbered(instructions: seq<ChainInstruction>, i: nat, accountKeys: seq<string>, programId: string)
    requires i <= |instructions| && NativeInstructions(instructions, i, accountKeys, programId).Success?
    ensures var natives := NativeInstructions(instructions, i, accountKeys, programId).value;
      var numbers := NativeNumbers(NativeFlags(instructions, accountKeys, programId)[i..], i);
      |natives| == |numbers| && forall k :: 0 <= k < |natives| ==> natives[k].instructionIndex == numbers[k]
    decreases |instructions| - i
  {
    hide TransactAt, IsNativeTransact;
    var flags := NativeFlags(instructions, accountKeys, programId);
    if i < |instructions| {
      OneInstruction(instructions[i], i, accountKeys, programId);
      NativesNumbered(instructions, i + 1, accountKeys, programId);
      assert flags[i..][0] == flags[i] && flags[i..][1..] == flags[i + 1..];
    }
  }

  /** The row of each event names the instruction whose call printed the event. */
  predicate RowsAttributed(items: Items, rows: seq<OutputRow>) {
    forall r :: 0 <= r < |rows| ==> CallOf(items, 0, rows[r].logIndex, 0) == Some(rows[r].instructionIndex)
  }

  lemma RowsByLabel(input: ParseInput, items: Items, natives: seq<ParsedTransact>, numbers: seq<nat>,
                    events: seq<CommitmentEvent>, labels: seq<nat>)
    requires Labelled(items, 0, 0, events, labels)
    requires |natives| == |numbers| && forall k :: 0 <= k < |natives| ==> natives[k].instructionIndex == numbers[k]
    ensures RowsAttributed(items, Outputs(input, natives, events, 0)) <==> Attributed(labels, numbers)
  {
    hide Outputs, CallOf;
    if natives == [] {
      NoOwnerNoOutput(input, events, 0);
    } else {
      var rows := Outputs(input, natives, events, 0);
      OutputAt(input, natives, events, 0, 0);
      forall t | 0 <= t < |events|
        ensures rows[t].logIndex == events[t].logIndex && rows[t].instructionIndex == OwnerNumber(numbers, t)
      {
        OutputAt(input, natives, events, 0, t);
      }
      assert forall t :: 0 <= t < |events| ==> CallOf(items, 0, events[t].logIndex, 0) == Some(labels[t]);
    }
  }

  lemma WholeLogDecoding(decode: string -> Decoded, items: Items, programId: string)
    requires Proper(items) && CommitmentEvents(decode, Some(Print(items)), programId).Success?
    ensures Decodes(decode, Print(items), items, false, 0, programId)
    ensures CommitmentEvents(decode, Some(Print(items)), programId).value
            == EventsOf(decode, Print(items), items, false, 0, programId)
  {
    hide Print, DirectLines, DecodeLines, EventLines, Proper;
    LogOfForest(decode, items, programId);
  }

  /** A transaction whose log is that of its instructions, each with all its nested calls: every
      output row names the instruction whose call printed its event if and only if the calls hold
      their events in pairs, as `PairsFit` says. */
  lemma {:induction false} AttributionIff(decode: string -> Decoded, input: ParseInput, items: Items)
    requires Proper(items) && input.transaction.logMessages == Some(Print(items))
    requires |CallCounts(decode, items, input.programId)| == |input.transaction.instructions|
    requires ParsePoolTransaction(decode, input).Success?
    ensures RowsAttributed(items, ParsePoolTransaction(decode, input).value.outputs)
            <==> PairsFit(CallCounts(decode, items, input.programId),
                          NativeFlags(input.transaction.instructions, AllAccountKeys(input.transaction), input.programId))
  {
    hide Print, Proper, CommitmentEvents, NativeInstructions, Outputs, CallCounts, Labels, NativeNumbers, PairsFit, Attributed,
         RowsAttributed, Decodes, EventsOf, Labelled, IsNativeTransact, AllAccountKeys;
    var keys, instructions := AllAccountKeys(input.transaction), input.transaction.instructions;
    var natives := NativeInstructions(instructions, 0, keys, input.programId).value;
    var events := CommitmentEvents(decode, Some(Print(items)), input.programId).value;
    var flags, counts := NativeFlags(instructions, keys, input.programId), CallCounts(decode, items, input.programId);
    WholeLogDecoding(decode, items, input.programId);
    EventsByCall(decode, Print(items), items, 0, 0, input.programId);
    NativesNumbered(instructions, 0, keys, input.programId);
    assert flags[0..] == flags;
    RowsByLabel(input, items, natives, NativeNumbers(flags, 0), events, Labels(counts, 0));
    AttributedIffFits(counts, flags);
  }

  // Two commitment events in each native instruction, none in the others.
  predicate TwoPerNative(counts: seq<nat>, native: seq<bool>)
    requires |counts| == |native|
  {
    forall k :: 0 <= k < |counts| ==> counts[k] == if native[k] then 2 else 0
  }

  lemma {:induction false} TwoPerNativeArePairs(counts: seq<nat>, native: seq<bool>, j: nat)
    requires |counts| == |native| && TwoPerNative(counts, native)
    ensures PairsUntilEnd(counts, native) && |Labels(counts, j)| == 2 * |NativeNumbers(native, j)|
    decreases |counts|
  {
    if counts != [] {
      assert forall k :: 0 <= k < |counts| - 1 ==> counts[1..][k] == counts[k + 1] && native[1..][k] == native[k + 1];
      TwoPerNativeArePairs(counts[1..], native[1..], j + 1);
    }
  }

  /** In particular, when every native instruction emits two events within its call and nothing
      else emits any: all events are stored, each under its own instruction. */
  lemma TwoPerNativeAreOwned(decode: string -> Decoded, input: ParseInput, items: Items)
    requires Proper(items) && input.transaction.logMessages == Some(Print(items))
    requires |CallCounts(decode, items, input.programId)| == |input.transaction.instructions|
    requires ParsePoolTransaction(decode, input).Success?
    requires TwoPerNative(CallCounts(decode, items, input.programId),
                          NativeFlags(input.transaction.instructions, AllAccountKeys(input.transaction), input.programId))
    ensures RowsAttributed(items, ParsePoolTransaction(decode, input).value.outputs)
    ensures |ParsePoolTransaction(decode, input).value.outputs|
            == |CommitmentEvents(decode, Some(Print(items)), input.programId).value|
            == 2 * |ParsePoolTransaction(decode, input).value.observedRoots|
  {
    hide Print, Proper, CommitmentEvents, NativeInstructions, Outputs, CallCounts, Labels, NativeNumbers, PairsUntilEnd,
         RowsAttributed, Decodes, EventsOf, IsNativeTransact, AllAccountKeys, TwoPerNative;
    var keys, instructions := AllAccountKeys(input.transaction), input.transaction.instructions;
    var natives := NativeInstructions(instructions, 0, keys, input.programId).value;
    var events := CommitmentEvents(decode, Some(Print(items)), input.programId).value;
    var flags, counts := NativeFlags(instructions, keys, input.programId), CallCounts(decode, items, input.programId);
    TwoPerNativeArePairs(counts, flags, 0);
    TwoPerNativeOnly(counts, flags);
    AttributionIff(decode, input, items);
    WholeLogDecoding(decode, items, input.programId);
    EventsByCall(decode, Print(items), items, 0, 0, input.programId);
    NativesNumbered(instructions, 0, keys, input.programId);
    assert flags[0..] == flags;
    EventsKeptIff(input, natives, events);
  }

  lemma TwoPerNativeOnly(counts: seq<nat>, native: seq<bool>)
    requires |counts| == |native| && TwoPerNative(counts, native)
    ensures OnlyNative(counts, native)
  {
  }

  // ---- What goes wrong otherwise ----

  lemma UnevenCallsDoNotFit()
    ensures !PairsFit([1, 2], [true, true])
  {
    assert [1, 2][1..] == [2] && [true, true][1..] == [true] && [true][1..] == [];
    assert NativeNumbers([true], 1) == [1];
    assert [2][0] == 2;
  }

  // Two native instructions; the first emits one event and the second two.
  function UnevenCalls(): Items {
    Call("P", 1, Line("Program data: x", Nil), Returned,
         Call("P", 1, Line("Program data: x", Line("Program data: x", Nil)), Returned, Nil))
  }

  function UnevenInput(): ParseInput {
    var native := ChainInstruction(0, Some(TransactDiscriminator() + ZeroBytes(NULLIFIERS_END - 8)));
    ParseInput("P", "s", ChainTransaction(0, None, false, ["P"], [], [], [native, native], Some(Print(UnevenCalls()))), None)
  }

  lemma UnevenLog(decode: string -> Decoded)
    requires decode("x").Commitment?
    ensures Proper(UnevenCalls()) && CallCounts(decode, UnevenCalls(), "P") == [1, 2]
    ensures CommitmentEvents(decode, Some(Print(UnevenCalls())), "P").Success?
  {
    hide CommitmentEvents, DecodeLines, InvokeLine, ExitLine, Inert;
    var items, data := UnevenCalls(), "Program data: x";
    LoggedLinesAreInert("x");
    assert data == "Program data: " + "x" && Inert(data) && data[|PROGRAM_DATA|..] == "x" && StartsWith(data, PROGRAM_DATA);
    assert Proper(items);
    LogOfForest(decode, items, "P");
    assert DirectLines(items, false, 0, "P") == [1, 4, 5];
    UnevenLines();
    DecodeAll(decode, Print(items), [1, 4, 5]);
  }

  lemma UnevenLines()
    ensures |Print(UnevenCalls())| == 7
    ensures forall k :: k == 1 || k == 4 || k == 5 ==> Print(UnevenCalls())[k] == "Program data: x"
  {
    hide InvokeLine, ExitLine;
    var one := Line("Program data: x", Nil);
    var two := Line("Program data: x", one);
    assert Print(one) == ["Program data: x"] && Print(two) == ["Program data: x", "Program data: x"];
    var last := Call("P", 1, two, Returned, Nil);
    assert Print(last) == [InvokeLine("P", 1), "Program data: x", "Program data: x", ExitLine("P", Returned)];
    assert Print(UnevenCalls()) == [InvokeLine("P", 1)] + Print(one) + [ExitLine("P", Returned)] + Print(last);
  }

  lemma {:induction false} DecodeAll(decode: string -> Decoded, logs: seq<string>, positions: seq<nat>)
    requires forall k :: 0 <= k < |positions| ==>
               && positions[k] < |logs| && StartsWith(logs[positions[k]], PROGRAM_DATA)
               && decode(logs[positions[k]][|PROGRAM_DATA|..]).Commitment?
    ensures DecodeLines(decode, logs, positions).Success?
    decreases |positions|
  {
    hide StartsWith;
    if positions != [] {
      DecodeAll(decode, logs, positions[1..]);
    }
  }

  lemma UnevenNatives()
    ensures NativeFlags(UnevenInput().transaction.instructions, AllAccountKeys(UnevenInput().transaction), "P") == [true, true]
    ensures NativeInstructions(UnevenInput().transaction.instructions, 0, AllAccountKeys(UnevenInput().transaction), "P").Success?
  {
    hide TransactDiscriminator, TransactAt, NativeInstructions, Print, UnevenCalls;
    var input := UnevenInput();
    var instructions, keys := input.transaction.instructions, AllAccountKeys(input.transaction);
    assert keys == ["P"];
    assert instructions[0].data.value[..8] == TransactDiscriminator();
    NativesParseIff(instructions, 0, keys, "P");
  }

  /** Their transaction parses, and an event of the second instruction is attributed to the first. */
  lemma UnevenCallsAreMisattributed(decode: string -> Decoded)
    requires decode("x").Commitment?
    ensures ParsePoolTransaction(decode, UnevenInput()).Success?
    ensures !RowsAttributed(UnevenCalls(), ParsePoolTransaction(decode, UnevenInput()).value.outputs)
  {
    hide Print, Proper, CommitmentEvents, NativeInstructions, Outputs, CallCounts, PairsFit, RowsAttributed, NativeFlags, AllAccountKeys;
    UnevenLog(decode);
    UnevenNatives();
    AttributionIff(decode, UnevenInput(), UnevenCalls());
    UnevenCallsDoNotFit();
  }

  // A router calls the pool, which emits an event.
  function RoutedCall(): Items {
    Call("R", 1, Call("P", 2, Line("Program data: x", Nil), Returned, Nil), Returned, Nil)
  }

  function RoutedInput(): ParseInput {
    ParseInput("P", "s", ChainTransaction(0, None, false, ["R", "P"], [], [], [ChainInstruction(0, Some([]))], Some(Print(RoutedCall()))), None)
  }

  /** The router's transaction parses, its log holds an event of the pool, and no row is kept. */
  lemma RoutedEventIsDropped(decode: string -> Decoded)
    requires decode("x").Commitment?
    ensures RoutedInput().transaction.logMessages == Some(Print(RoutedCall()))
    ensures CommitmentEvents(decode, RoutedInput().transaction.logMessages, RoutedInput().programId).Success?
    ensures |CommitmentEvents(decode, RoutedInput().transaction.logMessages, RoutedInput().programId).value| == 1
    ensures ParsePoolTransaction(decode, RoutedInput()).Success? && ParsePoolTransaction(decode, RoutedInput()).value.outputs == []
  {
    RoutedLog(decode);
    var input := RoutedInput();
    assert "R"[0] != "P"[0];
    assert AllAccountKeys(input.transaction)[0] == "R";
    assert NativeInstructions(input.transaction.instructions, 0, AllAccountKeys(input.transaction), "P") == Success([]);
    NoOwnerNoOutput(input, CommitmentEvents(decode, Some(Print(RoutedCall())), "P").value, 0);
  }

  lemma RoutedLog(decode: string -> Decoded)
    requires decode("x").Commitment?
    ensures CommitmentEvents(decode, Some(Print(RoutedCall())), "P").Success?
    ensures |CommitmentEvents(decode, Some(Print(RoutedCall())), "P").value| == 1
  {
    hide CommitmentEvents, DecodeLines, InvokeLine, ExitLine, Inert;
    var items, data := RoutedCall(), "Program data: x";
    LoggedLinesAreInert("x");
    assert data == "Program data: " + "x" && Inert(data) && data[|PROGRAM_DATA|..] == "x" && StartsWith(data, PROGRAM_DATA);
    assert Proper(items);
    LogOfForest(decode, items, "P");
    assert "R"[0] != "P"[0];
    assert DirectLines(items, false, 0, "P") == [2];
    RoutedLines();
    DecodeOne(decode, Print(items), 2);
  }

  lemma RoutedLines()
    ensures |Print(RoutedCall())| == 5 && Print(RoutedCall())[2] == "Program data: x"
  {
    hide InvokeLine, ExitLine;
    var inner := Line("Program data: x", Nil);
    assert Print(inner) == ["Program data: x"];
    var call := Call("P", 2, inner, Returned, Nil);
    assert Print(call) == [InvokeLine("P", 2), "Program data: x", ExitLine("P", Returned)];
    assert Print(RoutedCall()) == [InvokeLine("R", 1)] + Print(call) + [ExitLine("R", Returned)] + [];
  }

  lemma DecodeOne(decode: string -> Decoded, logs: seq<string>, at: nat)
    requires at < |logs| && StartsWith(logs[at], PROGRAM_DATA) && decode(logs[at][|PROGRAM_DATA|..]).Commitment?
    ensures DecodeLines(decode, logs, [at]).Success? && |DecodeLines(decode, logs, [at]).value| == 1
  {
    assert [at][1..] == [];
  }
}
