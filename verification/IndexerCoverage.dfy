// What discovery never misses.
module IndexerCoverage {
  import opened Wrappers
  import opened IndexerQueue
  import opened IndexerService
  import opened IndexerProtocol
  import opened IndexerInvariants
  import opened IndexerRefinement

  // ---- Coverage ----

  predicate Known(log: ChainLog, until: Option<string>) {
    until.Some? ==> EntryOf(log, until.value)
  }

  predicate InFound(found: seq<ProgramSignature>, x: string) {
    exists i :: 0 <= i < |found| && found[i].signature == x
  }

  predicate DiscoveryCovers(queue: Queue, log: ChainLog, discovery: Discovery) {
    match discovery
    case Reading(until) => Known(log, until) && Covered(queue, log, until)
    case Fetched(found) =>
      found != [] ==>
        && Known(log, Some(found[0].signature))
        && forall i :: 0 <= i < After(log, Some(found[0].signature)) ==> log[i].signature in queue || InFound(found, log[i].signature)
    case Inserted(found) =>
      found != [] ==> Known(log, Some(found[0].signature)) && Covered(queue, log, Some(found[0].signature))
  }

  ghost predicate CoverInv(s: State) {
    && DistinctLog(s.log)
    && Known(s.log, s.watermark) && Covered(s.queue, s.log, s.watermark)
    && forall id :: id in s.discoveries ==> DiscoveryCovers(s.queue, s.log, s.discoveries[id])
  }

  // The answer leaves nothing out.
  predicate WithinLimit(s: State, step: Step) {
    step.FetchNew? && step.id in s.discoveries && s.discoveries[step.id].Reading? ==>
      |s.log| - After(s.log, s.discoveries[step.id].until) <= step.limit
  }

  predicate RunWithinLimit(env: Env, steps: seq<Step>)
    decreases |steps|
  {
    steps == [] ||
    (RunWithinLimit(env, steps[..|steps| - 1]) && WithinLimit(Run(env, Start(), steps[..|steps| - 1]), steps[|steps| - 1]))
  }

  lemma AfterGrows(log: ChainLog, entry: ProgramSignature, until: Option<string>)
    requires Known(log, until) && !EntryOf(log, entry.signature)
    ensures After(log + [entry], until) == After(log, until)
    ensures Known(log + [entry], until)
  {
    assert (log + [entry])[..|log|] == log;
    if until.Some? {
      EntryStays(log, entry, until.value);
    }
  }

  lemma CoveredGrows(queue: Queue, log: ChainLog, entry: ProgramSignature, until: Option<string>)
    requires Known(log, until) && !EntryOf(log, entry.signature) && Covered(queue, log, until)
    ensures Covered(queue, log + [entry], until)
  {
    hide After;
    AfterGrows(log, entry, until);
  }

  lemma DiscoveryGrows(queue: Queue, log: ChainLog, entry: ProgramSignature, discovery: Discovery)
    requires !EntryOf(log, entry.signature) && DiscoveryCovers(queue, log, discovery)
    ensures DiscoveryCovers(queue, log + [entry], discovery)
  {
    hide After, EntryOf, InFound;
    match discovery
    case Reading(until) => AfterGrows(log, entry, until);
    case Fetched(found) =>
      if found != [] {
        AfterGrows(log, entry, Some(found[0].signature));
      }
    case Inserted(found) =>
      if found != [] {
        AfterGrows(log, entry, Some(found[0].signature));
      }
  }

  lemma AppendKeepsCover(env: Env, s: State, entry: ProgramSignature)
    requires CoverInv(s)
    ensures CoverInv(Apply(env, s, Append(entry)))
  {
    hide Covered, DiscoveryCovers;
    if !EntryOf(s.log, entry.signature) {
      AfterGrows(s.log, entry, s.watermark);
      CoveredGrows(s.queue, s.log, entry, s.watermark);
      forall id | id in s.discoveries
        ensures DiscoveryCovers(s.queue, s.log + [entry], s.discoveries[id])
      {
        DiscoveryGrows(s.queue, s.log, entry, s.discoveries[id]);
      }
    }
  }

  lemma QueueGrows(queue: Queue, larger: Queue, log: ChainLog, discovery: Discovery)
    requires DiscoveryCovers(queue, log, discovery) && queue.Keys <= larger.Keys
    ensures DiscoveryCovers(larger, log, discovery)
  {
    hide Known, After, InFound;
    assert forall x :: x in queue.Keys ==> x in larger.Keys;
  }

  lemma LargerQueueKeepsCover(s: State, t: State)
    requires CoverInv(s) && s.queue.Keys <= t.queue.Keys
    requires t.log == s.log && t.watermark == s.watermark && t.discoveries == s.discoveries
    ensures CoverInv(t)
  {
    hide Known, After, DiscoveryCovers;
    assert forall x :: x in s.queue.Keys ==> x in t.queue.Keys;
    forall id | id in t.discoveries
      ensures DiscoveryCovers(t.queue, t.log, t.discoveries[id])
    {
      QueueGrows(s.queue, t.queue, s.log, s.discoveries[id]);
    }
  }

  // The answer to a request that is within its limit holds everything after the watermark it read.
  lemma {:induction false} FetchCovers(queue: Queue, log: ChainLog, until: Option<string>, limit: nat)
    requires DistinctLog(log) && Covered(queue, log, until) && |log| - After(log, until) <= limit
    ensures DiscoveryCovers(queue, log, Fetched(NewestSince(log, until, limit)))
  {
    hide After;
    var found := NewestSince(log, until, limit);
    if found != [] {
      assert found[0] == log[|log| - 1];
      AfterEntry(log, |log| - 1);
      forall i | 0 <= i < |log|
        ensures log[i].signature in queue || InFound(found, log[i].signature)
      {
        if i >= After(log, until) {
          assert found[|log| - 1 - i] == log[i];
        }
      }
    }
  }

  lemma InsertCovers(queue: Queue, log: ChainLog, programId: string, found: seq<ProgramSignature>)
    requires DiscoveryCovers(queue, log, Fetched(found))
    ensures DiscoveryCovers(InsertNew(queue, programId, found), log, Inserted(found))
  {
    hide After, Known, InsertNew;
  }

  lemma StepKeepsCover(env: Env, s: State, step: Step)
    requires CoverInv(s) && WithinLimit(s, step)
    ensures CoverInv(Apply(env, s, step))
  {
    hide DistinctLog, Known, Covered, DiscoveryCovers, InsertNew, IsBatch, StoreRows, EntryOf, StatusAfter, Finishable, NewestSince, After;
    var t := Apply(env, s, step);
    match step
    case Append(entry) => AppendKeepsCover(env, s, entry);
    case ReadWatermark(id) => ReadingCovers(s.queue, s.log, s.watermark);
    case FetchNew(id, limit) =>
      if id in s.discoveries && s.discoveries[id].Reading? {
        ReadingCovers(s.queue, s.log, s.discoveries[id].until);
        FetchCovers(s.queue, s.log, s.discoveries[id].until, limit);
      }
    case InsertFound(id) =>
      if id in s.discoveries && s.discoveries[id].Fetched? {
        var found := s.discoveries[id].found;
        InsertCovers(s.queue, s.log, env.programId, found);
        GrownQueue(s.queue, env.programId, found);
        LargerQueueKeepsCover(s, s.(queue := t.queue));
      }
    case StoreWatermark(id) =>
      if id in s.discoveries && s.discoveries[id].Inserted? {
        if s.discoveries[id].found != [] {
          InsertedCovers(s.queue, s.log, s.discoveries[id].found);
        }
      }
    case _ => LargerQueueKeepsCover(s, s.(queue := t.queue));
  }

  lemma GrownQueue(queue: Queue, programId: string, found: seq<ProgramSignature>)
    ensures queue.Keys <= InsertNew(queue, programId, found).Keys
  {
  }

  lemma ReadingCovers(queue: Queue, log: ChainLog, until: Option<string>)
    ensures DiscoveryCovers(queue, log, Reading(until)) <==> Known(log, until) && Covered(queue, log, until)
  {
  }

  lemma InsertedCovers(queue: Queue, log: ChainLog, found: seq<ProgramSignature>)
    requires DiscoveryCovers(queue, log, Inserted(found)) && found != []
    ensures Known(log, Some(found[0].signature)) && Covered(queue, log, Some(found[0].signature))
  {
  }

  lemma StartIsCovered()
    ensures CoverInv(Start())
  {
  }

  lemma {:induction false} RunKeepsCover(env: Env, steps: seq<Step>)
    requires RunWithinLimit(env, steps)
    ensures CoverInv(Run(env, Start(), steps))
    decreases |steps|
  {
    hide CoverInv, Apply, WithinLimit;
    if steps == [] {
      StartIsCovered();
    } else {
      RunKeepsCover(env, steps[..|steps| - 1]);
      StepKeepsCover(env, Run(env, Start(), steps[..|steps| - 1]), steps[|steps| - 1]);
    }
  }

  /** Discovery misses nothing: in every run with any number of discoveries at once, crashes, and
      watermarks overwritten by slower ones, everything on the chain's log up to the stored
      watermark is queued, provided no single answer was cut off by its limit. */
  lemma {:induction false} WatermarkIsCovered(env: Env, steps: seq<Step>, i: nat)
    requires RunWithinLimit(env, steps)
    ensures var s := Run(env, Start(), steps);
      i < After(s.log, s.watermark) ==> s.log[i].signature in s.queue
  {
    hide Run, Apply, After;
    RunKeepsCover(env, steps);
  }

  function Entry(signature: string): ProgramSignature {
    ProgramSignature(signature, 0, None)
  }

  // Two transactions, and a discovery that asks for one entry.
  function CutOffRun(): seq<Step> {
    [Append(Entry("a"))] + ([Append(Entry("b"))] + DiscoverySteps(0, 1))
  }

  // The state after the two transactions.
  function TwoEntries(): State {
    Start().(log := [Entry("a")] + [Entry("b")])
  }

  lemma TwoAppends(env: Env)
    ensures Apply(env, Apply(env, Start(), Append(Entry("a"))), Append(Entry("b"))) == TwoEntries()
  {
    var s := Apply(env, Start(), Append(Entry("a")));
    assert "a"[0] != "b"[0];
    assert s.log == [Entry("a")];
    assert !EntryOf(s.log, "b");
  }

  lemma NewestOfTwo()
    ensures After(TwoEntries().log, None) == 0 && After(TwoEntries().log, Some("b")) == 2
    ensures NewestSince(TwoEntries().log, None, 1) == [Entry("b")]
  {
  }

  lemma OnlyNewestInserted(programId: string)
    ensures "a" !in InsertNew(map[], programId, [Entry("b")]) && "b" in InsertNew(map[], programId, [Entry("b")])
  {
    assert "a"[0] != "b"[0];
    assert [Entry("b")][0].signature == "b";
  }

  /** A run with an answer that was cut off: the older entry lies below the watermark and is not
      queued. */
  lemma CutOffEntryIsMissed(env: Env)
    ensures var s := Run(env, Start(), CutOffRun());
      && s.log == [Entry("a"), Entry("b")] && s.watermark == Some("b") && After(s.log, s.watermark) == 2
      && "a" !in s.queue && "b" in s.queue
  {
    hide Run, Apply, DiscoverySteps, InsertNew, After, NewestSince;
    var first, second := Append(Entry("a")), Append(Entry("b"));
    RunInParts(env, Start(), [first], [second] + DiscoverySteps(0, 1));
    RunOne(env, Start(), first);
    RunInParts(env, Apply(env, Start(), first), [second], DiscoverySteps(0, 1));
    RunOne(env, Apply(env, Start(), first), second);
    TwoAppends(env);
    DiscoveryIsARun(env, TwoEntries(), 0, 1, None);
    NewestOfTwo();
    OnlyNewestInserted(env.programId);
  }
}
