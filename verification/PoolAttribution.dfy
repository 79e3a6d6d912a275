// Which instruction an output row is attributed to, and which call of the log its event comes from.
module PoolAttribution {
  import opened Wrappers
  import opened TransactLayout
  import opened LogParser
  import opened LogForest
  import opened PoolParser

  // ---- Where the events stand in the log of a transaction ----

  // The commitment events that frames of the program print themselves.
  function Commitments(decode: string -> Decoded, items: Items, inTarget: bool, programId: string): nat {
    match items
    case Nil => 0
    case Line(text, rest) =>
      (if inTarget && StartsWith(text, PROGRAM_DATA) && decode(text[|PROGRAM_DATA|..]).Commitment? then 1 else 0)
      + Commitments(decode, rest, inTarget, programId)
    case Call(program, depth, body, exit, rest) =>
      Commitments(decode, body, program == programId, programId) + Commitments(decode, rest, inTarget, programId)
  }

  // The commitment events of each top-level call.  Top-level calls are the message's instructions.
  function CallCounts(decode: string -> Decoded, items: Items, programId: string): seq<nat> {
    match items
    case Nil => []
    case Line(text, rest) => CallCounts(decode, rest, programId)
    case Call(program, depth, body, exit, rest) =>
      [Commitments(decode, body, program == programId, programId)] + CallCounts(decode, rest, programId)
  }

  // The top-level call that printed the line at position `pos`, counting from j; the items are
  // printed from position `at` on.
  function CallOf(items: Items, at: nat, pos: nat, j: nat): Option<nat> {
    match items
    case Nil => None
    case Line(text, rest) => if pos == at then None else CallOf(rest, at + 1, pos, j)
    case Call(program, depth, body, exit, rest) =>
      var end := at + 2 + |Print(body)|;
      if at <= pos < end then Some(j) else CallOf(rest, end, pos, j + 1)
  }

  function Repeat(j: nat, n: nat): (r: seq<nat>)
    ensures |r| == n && forall t :: 0 <= t < n ==> r[t] == j
  {
    if n == 0 then [] else [j] + Repeat(j, n - 1)
  }

  // The call number of each event, in log order.
  function Labels(counts: seq<nat>, j: nat): (r: seq<nat>)
    ensures forall t :: 0 <= t < |r| ==> j <= r[t] < j + |counts|
    ensures forall t, u :: 0 <= t < u < |r| ==> r[t] <= r[u]
    decreases |counts|
  {
    if counts == [] then [] else Repeat(j, counts[0]) + Labels(counts[1..], j + 1)
  }

  lemma {:induction false} DecodeAppend(decode: string -> Decoded, logs: seq<string>, xs: seq<nat>, ys: seq<nat>)
    requires forall k :: 0 <= k < |xs| ==> xs[k] < |logs|
    requires forall k :: 0 <= k < |ys| ==> ys[k] < |logs|
    requires DecodeLines(decode, logs, xs + ys).Success?
    ensures DecodeLines(decode, logs, xs).Success? && DecodeLines(decode, logs, ys).Success?
    ensures DecodeLines(decode, logs, xs + ys).value == DecodeLines(decode, logs, xs).value + DecodeLines(decode, logs, ys).value
    decreases |xs|
  {
    hide StartsWith;
    if xs == [] {
      assert xs + ys == ys;
    } else {
      assert (xs + ys)[0] == xs[0] && (xs + ys)[1..] == xs[1..] + ys;
      DecodeAppend(decode, logs, xs[1..], ys);
      var first := DecodeCommitmentEvent(decode, logs[xs[0]], xs[0]).value;
      var one := if first.Some? then [first.value] else [];
      assert one + (DecodeLines(decode, logs, xs[1..]).value + DecodeLines(decode, logs, ys).value)
          == one + DecodeLines(decode, logs, xs[1..]).value + DecodeLines(decode, logs, ys).value;
    }
  }

  // The positions that items occupy.
  lemma {:induction false} LinesInside(items: Items, inTarget: bool, at: nat, programId: string)
    ensures forall k :: 0 <= k < |DirectLines(items, inTarget, at, programId)| ==>
              at <= DirectLines(items, inTarget, at, programId)[k] < at + |Print(items)|
  {
    hide StartsWith;
    match items
    case Nil =>
    case Line(text, rest) => LinesInside(rest, inTarget, at + 1, programId);
    case Call(program, depth, body, exit, rest) =>
      LinesInside(body, program == programId, at + 1, programId);
      LinesInside(rest, inTarget, at + 2 + |Print(body)|, programId);
  }

  predicate EventsInside(events: seq<CommitmentEvent>, from: nat, end: nat) {
    forall t :: 0 <= t < |events| ==> from <= events[t].logIndex < end
  }

  lemma InsideTogether(xs: seq<CommitmentEvent>, ys: seq<CommitmentEvent>, from: nat, middle: nat, end: nat)
    requires EventsInside(xs, from, middle) && EventsInside(ys, middle, end) && from <= middle <= end
    ensures EventsInside(xs + ys, from, end)
  {
  }

  lemma WiderInside(xs: seq<CommitmentEvent>, from: nat, end: nat, from': nat, end': nat)
    requires EventsInside(xs, from, end) && from' <= from && end <= end'
    ensures EventsInside(xs, from', end')
  {
  }

  // What the event coder is given and what it makes of it, for the items printed at a position.
  ghost predicate Decodes(decode: string -> Decoded, logs: seq<string>, items: Items, inTarget: bool, at: nat, programId: string) {
    && Proper(items) && StandsAt(logs, at, Print(items))
    && at + |Print(items)| <= |logs|
    && (forall k :: 0 <= k < |DirectLines(items, inTarget, at, programId)| ==> DirectLines(items, inTarget, at, programId)[k] < |logs|)
    && DecodeLines(decode, logs, DirectLines(items, inTarget, at, programId)).Success?
  }

  ghost function EventsOf(decode: string -> Decoded, logs: seq<string>, items: Items, inTarget: bool, at: nat, programId: string): seq<CommitmentEvent>
    requires Decodes(decode, logs, items, inTarget, at, programId)
  {
    DecodeLines(decode, logs, DirectLines(items, inTarget, at, programId)).value
  }

  lemma CallDecoding(decode: string -> Decoded, logs: seq<string>, items: Items, inTarget: bool, at: nat, programId: string)
    requires items.Call? && Decodes(decode, logs, items, inTarget, at, programId)
    ensures var end := at + 2 + |Print(items.body)|;
      && at + |Print(items)| == end + |Print(items.rest)|
      && Decodes(decode, logs, items.body, items.program == programId, at + 1, programId)
      && Decodes(decode, logs, items.rest, inTarget, end, programId)
      && EventsOf(decode, logs, items, inTarget, at, programId)
         == EventsOf(decode, logs, items.body, items.program == programId, at + 1, programId)
            + EventsOf(decode, logs, items.rest, inTarget, end, programId)
  {
    hide StandsAt, Print, DecodeLines, InvokeLine, ExitLine, AllBase58, ProperExit;
    CallParts(logs, at, items);
    LinesInside(items.body, items.program == programId, at + 1, programId);
    LinesInside(items.rest, inTarget, at + 2 + |Print(items.body)|, programId);
    DecodeAppend(decode, logs, DirectLines(items.body, items.program == programId, at + 1, programId),
                 DirectLines(items.rest, inTarget, at + 2 + |Print(items.body)|, programId));
  }

  lemma {:induction false} LineDecoding(decode: string -> Decoded, logs: seq<string>, items: Items, inTarget: bool, at: nat, programId: string)
    requires items.Line? && Decodes(decode, logs, items, inTarget, at, programId)
    ensures |Print(items)| == 1 + |Print(items.rest)|
    ensures Decodes(decode, logs, items.rest, inTarget, at + 1, programId)
    ensures var mine := inTarget && StartsWith(items.text, PROGRAM_DATA) && decode(items.text[|PROGRAM_DATA|..]).Commitment?;
      var events, rest := EventsOf(decode, logs, items, inTarget, at, programId), EventsOf(decode, logs, items.rest, inTarget, at + 1, programId);
      if mine then events != [] && events[0].logIndex == at && events[1..] == rest else events == rest
  {
    hide StandsAt, Print, DecodeLines, Inert, StartsWith;
    LineParts(logs, at, items);
    LinesInside(items.rest, inTarget, at + 1, programId);
    var here := if inTarget && StartsWith(items.text, PROGRAM_DATA) then [at] else [];
    DecodeAppend(decode, logs, here, DirectLines(items.rest, inTarget, at + 1, programId));
    OneDecoded(decode, logs, at, inTarget && StartsWith(items.text, PROGRAM_DATA));
  }

  lemma OneDecoded(decode: string -> Decoded, logs: seq<string>, at: nat, data: bool)
    requires at < |logs| && (data ==> StartsWith(logs[at], PROGRAM_DATA))
    requires DecodeLines(decode, logs, if data then [at] else []).Success?
    ensures var events := DecodeLines(decode, logs, if data then [at] else []).value;
      if data && decode(logs[at][|PROGRAM_DATA|..]).Commitment? then |events| == 1 && events[0].logIndex == at else events == []
  {
    assert [at][1..] == [];
  }

  // The events of nested calls are as many as the commitments, and come from their lines.
  lemma {:induction false} EventsCounted(decode: string -> Decoded, logs: seq<string>, items: Items, inTarget: bool, at: nat, programId: string)
    requires Decodes(decode, logs, items, inTarget, at, programId)
    ensures |EventsOf(decode, logs, items, inTarget, at, programId)| == Commitments(decode, items, inTarget, programId)
    ensures EventsInside(EventsOf(decode, logs, items, inTarget, at, programId), at, at + |Print(items)|)
    decreases items
  {
    hide Decodes, EventsOf, Print, StartsWith, EventsInside;
    match items
    case Nil => NoEvents(decode, logs, inTarget, at, programId);
    case Line(text, rest) =>
      LineDecoding(decode, logs, items, inTarget, at, programId);
      EventsCounted(decode, logs, rest, inTarget, at + 1, programId);
      LineInside(EventsOf(decode, logs, items, inTarget, at, programId), EventsOf(decode, logs, rest, inTarget, at + 1, programId),
                 at, at + |Print(items)|);
    case Call(program, depth, body, exit, rest) =>
      var end := at + 2 + |Print(body)|;
      CallDecoding(decode, logs, items, inTarget, at, programId);
      EventsCounted(decode, logs, body, program == programId, at + 1, programId);
      EventsCounted(decode, logs, rest, inTarget, end, programId);
      WiderInside(EventsOf(decode, logs, body, program == programId, at + 1, programId), at + 1, at + 1 + |Print(body)|, at, end);
      InsideTogether(EventsOf(decode, logs, body, program == programId, at + 1, programId),
                     EventsOf(decode, logs, rest, inTarget, end, programId), at, end, at + |Print(items)|);
  }

  lemma NoEvents(decode: string -> Decoded, logs: seq<string>, inTarget: bool, at: nat, programId: string)
    requires Decodes(decode, logs, Nil, inTarget, at, programId)
    ensures EventsOf(decode, logs, Nil, inTarget, at, programId) == []
    ensures EventsInside(EventsOf(decode, logs, Nil, inTarget, at, programId), at, at + |Print(Nil)|)
  {
  }

  lemma LineInside(events: seq<CommitmentEvent>, rest: seq<CommitmentEvent>, at: nat, end: nat)
    requires events == rest || (events != [] && events[0].logIndex == at && events[1..] == rest)
    requires EventsInside(rest, at + 1, end) && at < end
    ensures EventsInside(events, at, end)
  {
    assert events != rest ==> events == [events[0]] + rest;
  }

  // Each event comes from the call that its label names.
  ghost predicate Labelled(items: Items, at: nat, j: nat, events: seq<CommitmentEvent>, labels: seq<nat>) {
    |events| == |labels| && forall t :: 0 <= t < |events| ==> CallOf(items, at, events[t].logIndex, j) == Some(labels[t])
  }

  /** The events of a transaction's log, call by call. */
  lemma {:induction false} EventsByCall(decode: string -> Decoded, logs: seq<string>, items: Items, at: nat, j: nat, programId: string)
    requires Decodes(decode, logs, items, false, at, programId)
    ensures Labelled(items, at, j, EventsOf(decode, logs, items, false, at, programId), Labels(CallCounts(decode, items, programId), j))
    decreases items
  {
    hide Decodes, EventsOf, Print, StartsWith, Labelled, EventsInside, CallOf, Commitments, Labels;
    EventsCounted(decode, logs, items, false, at, programId);
    match items
    case Nil => NoLabels(decode, logs, at, j, programId);
    case Line(text, rest) =>
      LineDecoding(decode, logs, items, false, at, programId);
      EventsCounted(decode, logs, rest, false, at + 1, programId);
      EventsByCall(decode, logs, rest, at + 1, j, programId);
      LabelsAfterLine(items, at, j, EventsOf(decode, logs, items, false, at, programId), at + |Print(items)|,
                      Labels(CallCounts(decode, items, programId), j));
    case Call(program, depth, body, exit, rest) =>
      var end := at + 2 + |Print(body)|;
      CallDecoding(decode, logs, items, false, at, programId);
      EventsCounted(decode, logs, body, program == programId, at + 1, programId);
      EventsCounted(decode, logs, rest, false, end, programId);
      EventsByCall(decode, logs, rest, end, j + 1, programId);
      LabelsOfCall(items, at, j, EventsOf(decode, logs, body, program == programId, at + 1, programId),
                   EventsOf(decode, logs, rest, false, end, programId), end + |Print(rest)|, CallCounts(decode, rest, programId));
      CountsOfCall(decode, items, programId);
  }

  lemma CountsOfCall(decode: string -> Decoded, items: Items, programId: string)
    requires items.Call?
    ensures CallCounts(decode, items, programId)
            == [Commitments(decode, items.body, items.program == programId, programId)] + CallCounts(decode, items.rest, programId)
  {
  }

  lemma NoLabels(decode: string -> Decoded, logs: seq<string>, at: nat, j: nat, programId: string)
    requires Decodes(decode, logs, Nil, false, at, programId)
    ensures Labelled(Nil, at, j, EventsOf(decode, logs, Nil, false, at, programId), Labels([], j))
  {
  }

  lemma LabelsAfterLine(items: Items, at: nat, j: nat, events: seq<CommitmentEvent>, end: nat, labels: seq<nat>)
    requires items.Line? && EventsInside(events, at + 1, end) && Labelled(items.rest, at + 1, j, events, labels)
    ensures Labelled(items, at, j, events, labels)
  {
  }

  lemma LabelsOfCall(items: Items, at: nat, j: nat, inner: seq<CommitmentEvent>, outer: seq<CommitmentEvent>, end: nat, counts: seq<nat>)
    requires items.Call? && EventsInside(inner, at + 1, at + 1 + |Print(items.body)|)
    requires EventsInside(outer, at + 2 + |Print(items.body)|, end)
    requires Labelled(items.rest, at + 2 + |Print(items.body)|, j + 1, outer, Labels(counts, j + 1))
    ensures Labelled(items, at, j, inner + outer, Labels([|inner|] + counts, j))
  {
    hide Print, Labels;
    LabelsCons(|inner|, counts, j);
    var events, labels := inner + outer, Labels([|inner|] + counts, j);
    assert labels == Repeat(j, |inner|) + Labels(counts, j + 1);
    forall t | 0 <= t < |events|
      ensures CallOf(items, at, events[t].logIndex, j) == Some(labels[t])
    {
      if t < |inner| {
        assert events[t] == inner[t] && labels[t] == j;
      } else {
        assert events[t] == outer[t - |inner|] && labels[t] == Labels(counts, j + 1)[t - |inner|];
      }
    }
  }

  lemma LabelsCons(n: nat, counts: seq<nat>, j: nat)
    ensures Labels([n] + counts, j) == Repeat(j, n) + Labels(counts, j + 1)
  {
    assert ([n] + counts)[1..] == counts;
  }
}
