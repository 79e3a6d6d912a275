// The table of discovered signatures, used as a work queue with retries.
module IndexerQueue {
  import opened Wrappers

  datatype ProgramSignature = ProgramSignature(signature: string, slot: nat, blockTime: Option<int>)

  datatype Status = Pending | Processing | Done | FailedTransient | FailedTerminal

  datatype QueueRow = QueueRow(programId: string, slot: nat, blockTime: Option<int>, status: Status, attempts: nat)

  // Rows by signature, the primary key.
  type Queue = map<string, QueueRow>

  datatype Watermark = Watermark(signature: string, slot: nat)

  datatype WorkItem = WorkItem(signature: string, slot: nat, blockTime: Option<int>, attempts: nat)

  const MAX_PROCESSING_ATTEMPTS := 5

  // The database's order of texts; any order will do.
  type Collation = string -> int

  // ---- What the statements do ----

  function NewRow(programId: string, found: ProgramSignature): QueueRow {
    QueueRow(programId, found.slot, found.blockTime, Pending, 0)
  }

  // INSERT ... ON CONFLICT DO NOTHING
  function InsertNew(queue: Queue, programId: string, found: seq<ProgramSignature>): (r: Queue)
    ensures forall s :: s in r <==> s in queue || exists i :: 0 <= i < |found| && found[i].signature == s
    ensures forall s :: s in queue ==> r[s] == queue[s]
    ensures forall s :: s in r && s !in queue ==> r[s].status == Pending && r[s].attempts == 0 && r[s].programId == programId
    decreases |found|
  {
    if found == [] then queue
    else
      var first := found[0];
      var next := if first.signature in queue then queue else queue[first.signature := NewRow(programId, first)];
      assert found == [first] + found[1..];
      InsertNew(next, programId, found[1..])
  }

  /** A signature that was not known gets its slot and time from the first entry that names it. */
  lemma {:induction false} NewRowIs(queue: Queue, programId: string, found: seq<ProgramSignature>, i: nat)
    requires i < |found| && found[i].signature !in queue && forall j :: 0 <= j < i ==> found[j].signature != found[i].signature
    ensures InsertNew(queue, programId, found)[found[i].signature]
            == QueueRow(programId, found[i].slot, found[i].blockTime, Pending, 0)
    decreases |found|
  {
    var first := found[0];
    var next := if first.signature in queue then queue else queue[first.signature := NewRow(programId, first)];
    if i > 0 {
      NewRowIs(next, programId, found[1..], i - 1);
    }
  }

  // The rows a claim may take.
  predicate Eligible(queue: Queue, programId: string, s: string) {
    s in queue && queue[s].programId == programId && (queue[s].status == Pending || queue[s].status == FailedTransient)
  }

  // ORDER BY slot, signature
  predicate NotAfter(collate: Collation, queue: Queue, s: string, t: string)
    requires s in queue && t in queue
  {
    queue[s].slot < queue[t].slot || (queue[s].slot == queue[t].slot && collate(s) <= collate(t))
  }

  // Rows locked by another claim are skipped.
  function Free(queue: Queue, programId: string, locked: set<string>): set<string> {
    set s | s in queue && Eligible(queue, programId, s) && s !in locked
  }

  /** A batch: the first `limit` of the free eligible rows. */
  predicate IsBatch(collate: Collation, queue: Queue, programId: string, limit: nat, locked: set<string>, batch: set<string>) {
    && batch <= Free(queue, programId, locked)
    && |batch| <= limit
    && (batch == Free(queue, programId, locked) || |batch| == limit)
    && forall s, t :: s in batch && t in Free(queue, programId, locked) && t !in batch ==> NotAfter(collate, queue, s, t)
  }

  /** A batch takes waiting rows of the program that nobody has locked, at most as many as asked for;
      it leaves such a row only when it is full, and then for rows of no later slot, the text order
      deciding among equal slots. */
  lemma BatchIsOldest(collate: Collation, queue: Queue, programId: string, limit: nat, locked: set<string>, batch: set<string>)
    requires IsBatch(collate, queue, programId, limit, locked, batch)
    ensures |batch| <= limit
    ensures forall s :: s in batch ==>
              s in queue && s !in locked && queue[s].programId == programId && queue[s].status in {Pending, FailedTransient}
    ensures forall t :: t in queue && t !in locked && t !in batch && queue[t].programId == programId
                        && queue[t].status in {Pending, FailedTransient} ==>
              |batch| == limit
              && forall s :: s in batch ==>
                   queue[s].slot < queue[t].slot || (queue[s].slot == queue[t].slot && collate(s) <= collate(t))
  {
    forall t | t in queue && t !in locked && t !in batch && queue[t].programId == programId
               && queue[t].status in {Pending, FailedTransient}
      ensures |batch| == limit
      ensures forall s :: s in batch ==>
                queue[s].slot < queue[t].slot || (queue[s].slot == queue[t].slot && collate(s) <= collate(t))
    {
      assert t in Free(queue, programId, locked);
    }
  }

  // SET status = 'processing', attempts = attempts + 1
  function Claimed(queue: Queue, batch: set<string>): Queue {
    map s | s in queue :: if s in batch then queue[s].(status := Processing, attempts := queue[s].attempts + 1) else queue[s]
  }

  function WithStatus(queue: Queue, signature: string, status: Status): Queue {
    if signature in queue then queue[signature := queue[signature].(status := status)] else queue
  }

  function ItemOf(queue: Queue, s: string): WorkItem
    requires s in queue
  {
    WorkItem(s, queue[s].slot, queue[s].blockTime, queue[s].attempts)
  }

  // ---- The repository ----

  predicate IsFirst(collate: Collation, queue: Queue, candidates: set<string>, s: string)
    requires forall t :: t in candidates ==> t in queue
  {
    s in candidates && forall t :: t in candidates ==> NotAfter(collate, queue, s, t)
  }

  lemma {:induction false} FirstExists(collate: Collation, queue: Queue, candidates: set<string>)
    requires candidates != {} && forall s :: s in candidates ==> s in queue
    ensures exists s :: s in candidates && IsFirst(collate, queue, candidates, s)
    decreases |candidates|
  {
    var s :| s in candidates;
    var rest := candidates - {s};
    if rest == {} {
      assert candidates == {s};
      assert IsFirst(collate, queue, candidates, s);
    } else {
      FirstExists(collate, queue, rest);
      var m :| m in rest && IsFirst(collate, queue, rest, m);
      FirstOfMore(collate, queue, candidates, s, m);
    }
  }

  lemma FirstOfMore(collate: Collation, queue: Queue, candidates: set<string>, s: string, m: string)
    requires s in candidates && forall t :: t in candidates ==> t in queue
    requires IsFirst(collate, queue, candidates - {s}, m)
    ensures IsFirst(collate, queue, candidates, s) || IsFirst(collate, queue, candidates, m)
  {
    if NotAfter(collate, queue, s, m) {
      forall t | t in candidates
        ensures NotAfter(collate, queue, s, t)
      {
        assert t == s || t in candidates - {s};
      }
    } else {
      forall t | t in candidates
        ensures NotAfter(collate, queue, m, t)
      {
        assert t == s || t in candidates - {s};
      }
    }
  }

  // The rows picked so far and the rows left, while a batch is collected.
  ghost predicate Picking(collate: Collation, queue: Queue, candidates: set<string>, items: seq<WorkItem>, batch: set<string>, left: set<string>) {
    && |items| == |batch| && batch !! left && batch + left == candidates
    && (forall s :: s in candidates ==> s in queue)
    && (forall s, t :: s in batch && t in left ==> NotAfter(collate, queue, s, t))
    && (forall i :: 0 <= i < |items| ==> items[i].signature in batch && items[i] == Bumped(queue, items[i].signature))
    && (forall i, j :: 0 <= i < j < |items| ==> items[i].signature != items[j].signature)
  }

  // The item of a row whose attempts have gone up.
  function Bumped(queue: Queue, s: string): WorkItem
    requires s in queue
  {
    WorkItem(s, queue[s].slot, queue[s].blockTime, queue[s].attempts + 1)
  }

  lemma PickOne(collate: Collation, queue: Queue, candidates: set<string>, items: seq<WorkItem>, batch: set<string>, left: set<string>, s: string)
    requires Picking(collate, queue, candidates, items, batch, left) && left <= candidates && IsFirst(collate, queue, left, s)
    ensures Picking(collate, queue, candidates, items + [Bumped(queue, s)], batch + {s}, left - {s})
  {
    hide NotAfter;
    assert batch + {s} + (left - {s}) == candidates;
    var more := items + [Bumped(queue, s)];
    assert forall i :: 0 <= i < |items| ==> more[i] == items[i];
    forall x, t | x in batch + {s} && t in left - {s}
      ensures NotAfter(collate, queue, x, t)
    {
      if x !in batch {
        assert x == s;
      }
    }
  }

  lemma PickedIsBatch(collate: Collation, queue: Queue, programId: string, limit: nat, locked: set<string>,
                      items: seq<WorkItem>, batch: set<string>, left: set<string>)
    requires Picking(collate, queue, Free(queue, programId, locked), items, batch, left)
    requires |items| <= limit && (left == {} || |items| == limit)
    ensures IsBatch(collate, queue, programId, limit, locked, batch)
    ensures forall i :: 0 <= i < |items| ==> items[i].signature in batch && items[i] == ItemOf(Claimed(queue, batch), items[i].signature)
    ensures forall i, j :: 0 <= i < j < |items| ==> items[i].signature != items[j].signature
    ensures (set i | 0 <= i < |items| :: items[i].signature) == batch && |items| == |batch|
  {
    hide NotAfter;
    TakenIsBatch(items, batch);
    assert left == {} ==> batch == Free(queue, programId, locked);
  }

  class IndexerRepository {
    var queue: Queue
    var watermarks: map<string, Watermark>

    constructor ()
      ensures queue == map[] && watermarks == map[]
    {
      queue, watermarks := map[], map[];
    }

    function FindState(programId: string): (r: Option<Watermark>)
      reads this
      ensures r.Some? <==> programId in watermarks
    {
      if programId in watermarks then Some(watermarks[programId]) else None
    }

    method InsertSignatures(programId: string, found: seq<ProgramSignature>) returns (inserted: int)
      modifies this`queue
      ensures queue == InsertNew(old(queue), programId, found) && inserted == |queue| - |old(queue)|
    {
      if found == [] {
        return 0;
      }
      var before := |queue|;
      queue := InsertNew(queue, programId, found);
      inserted := |queue| - before;
    }

    method UpsertState(programId: string, high: Watermark)
      modifies this`watermarks
      ensures watermarks == old(watermarks)[programId := high]
    {
      watermarks := watermarks[programId := high];
    }

    // One statement: select a batch, mark it, return it.
    method ClaimPendingSignatures(collate: Collation, programId: string, limit: nat, locked: set<string>)
      returns (items: seq<WorkItem>, ghost batch: set<string>)
      modifies this`queue
      ensures IsBatch(collate, old(queue), programId, limit, locked, batch)
      ensures queue == Claimed(old(queue), batch)
      ensures |items| == |batch|
      ensures forall i :: 0 <= i < |items| ==> items[i].signature in batch && items[i] == ItemOf(queue, items[i].signature)
      ensures forall i, j :: 0 <= i < j < |items| ==> items[i].signature != items[j].signature
    {
      hide *;
      var before := queue;
      var left := Free(queue, programId, locked);
      items, batch := [], {};
      StartPicking(collate, before, programId, locked);
      while |items| < limit && left != {}
        modifies {}
        invariant Picking(collate, before, Free(before, programId, locked), items, batch, left)
        invariant |items| <= limit && left <= Free(before, programId, locked)
        invariant forall s :: s in left ==> s in before
        decreases left
      {
        FirstExists(collate, before, left);
        var s :| s in left && IsFirst(collate, before, left, s);
        PickOne(collate, before, Free(before, programId, locked), items, batch, left, s);
        items := items + [Bumped(before, s)];
        batch := batch + {s};
        left := left - {s};
      }
      PickedIsBatch(collate, before, programId, limit, locked, items, batch, left);
      queue := Claimed(before, set i | 0 <= i < |items| :: items[i].signature);
    }

    method MarkDone(signature: string)
      modifies this`queue
      ensures queue == WithStatus(old(queue), signature, Done)
    {
      queue := WithStatus(queue, signature, Done);
    }

    method MarkFailedTransient(signature: string)
      modifies this`queue
      ensures queue == WithStatus(old(queue), signature, FailedTransient)
    {
      queue := WithStatus(queue, signature, FailedTransient);
    }

    method MarkFailedTerminal(signature: string)
      modifies this`queue
      ensures queue == WithStatus(old(queue), signature, FailedTerminal)
    {
      queue := WithStatus(queue, signature, FailedTerminal);
    }
  }

  lemma StartPicking(collate: Collation, queue: Queue, programId: string, locked: set<string>)
    ensures Picking(collate, queue, Free(queue, programId, locked), [], {}, Free(queue, programId, locked))
    ensures forall s :: s in Free(queue, programId, locked) ==> s in queue
  {
  }

  // Distinct items that all belong to a batch of the same size are the batch.
  lemma {:induction false} TakenIsBatch(items: seq<WorkItem>, batch: set<string>)
    requires |items| == |batch| && forall i :: 0 <= i < |items| ==> items[i].signature in batch
    requires forall i, j :: 0 <= i < j < |items| ==> items[i].signature != items[j].signature
    ensures (set i | 0 <= i < |items| :: items[i].signature) == batch
    decreases |items|
  {
    var taken := set i | 0 <= i < |items| :: items[i].signature;
    if items != [] {
      var last := items[|items| - 1].signature;
      var front := items[..|items| - 1];
      TakenIsBatch(front, batch - {last});
      assert taken == (set i | 0 <= i < |front| :: front[i].signature) + {last};
    }
  }
}
