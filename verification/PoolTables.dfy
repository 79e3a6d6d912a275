// The pool's tables: rows are inserted unless a unique key is taken, and are never changed.
module PoolTables {
  import opened Wrappers
  import opened PoolParser
  import opened Sorting

  // ---- Unique keys ----

  predicate OutputsClash(a: OutputRow, b: OutputRow) {
    || (a.programId == b.programId && a.outputIndex == b.outputIndex)
    || (a.txSignature == b.txSignature && a.logIndex == b.logIndex)
  }

  predicate RootsClash(a: RootRow, b: RootRow) {
    a.programId == b.programId && a.root == b.root
  }

  predicate NullifiersClash(a: NullifierRow, b: NullifierRow) {
    a.programId == b.programId && a.nullifier == b.nullifier
  }

  predicate Taken<T(!new)>(clash: (T, T) -> bool, table: seq<T>, row: T) {
    exists i :: 0 <= i < |table| && clash(table[i], row)
  }

  // INSERT ... ON CONFLICT DO NOTHING, row by row.
  function InsertAll<T(!new)>(clash: (T, T) -> bool, table: seq<T>, rows: seq<T>): (r: seq<T>)
    ensures table <= r
    decreases |rows|
  {
    if rows == [] then table
    else InsertAll(clash, if Taken(clash, table, rows[0]) then table else table + [rows[0]], rows[1..])
  }

  predicate UniqueKeys<T(!new)>(clash: (T, T) -> bool, table: seq<T>) {
    forall i, j :: 0 <= i < j < |table| ==> !clash(table[i], table[j])
  }

  lemma {:induction false} InsertKeepsUniqueKeys<T(!new)>(clash: (T, T) -> bool, table: seq<T>, rows: seq<T>)
    requires UniqueKeys(clash, table)
    ensures UniqueKeys(clash, InsertAll(clash, table, rows))
    decreases |rows|
  {
    if rows != [] {
      InsertKeepsUniqueKeys(clash, if Taken(clash, table, rows[0]) then table else table + [rows[0]], rows[1..]);
    }
  }

  lemma {:induction false} OnlyGivenRows<T(!new)>(clash: (T, T) -> bool, table: seq<T>, rows: seq<T>, row: T)
    requires row in InsertAll(clash, table, rows)
    ensures row in table || row in rows
    decreases |rows|
  {
    if rows != [] {
      OnlyGivenRows(clash, if Taken(clash, table, rows[0]) then table else table + [rows[0]], rows[1..], row);
    }
  }

  lemma TakenGrows<T(!new)>(clash: (T, T) -> bool, table: seq<T>, larger: seq<T>, row: T)
    requires Taken(clash, table, row) && table <= larger
    ensures Taken(clash, larger, row)
  {
    var i :| 0 <= i < |table| && clash(table[i], row);
    assert larger[i] == table[i];
  }

  // After an insert every given row is either there or was kept out by a row that is there.
  lemma {:induction false} InsertedAreTaken<T(!new)>(clash: (T, T) -> bool, table: seq<T>, rows: seq<T>, row: T)
    requires row in rows && forall x :: clash(x, x)
    ensures Taken(clash, InsertAll(clash, table, rows), row)
    decreases |rows|
  {
    var next := if Taken(clash, table, rows[0]) then table else table + [rows[0]];
    if row == rows[0] {
      assert !Taken(clash, table, row) ==> next[|table|] == row;
      TakenGrows(clash, next, InsertAll(clash, next, rows[1..]), row);
    } else {
      InsertedAreTaken(clash, next, rows[1..], row);
    }
  }

  lemma {:induction false} AllTakenInsertNothing<T(!new)>(clash: (T, T) -> bool, table: seq<T>, rows: seq<T>)
    requires forall row :: row in rows ==> Taken(clash, table, row)
    ensures InsertAll(clash, table, rows) == table
    decreases |rows|
  {
    if rows != [] {
      AllTakenInsertNothing(clash, table, rows[1..]);
    }
  }

  // Every row is stored, or kept out by a stored row with its key.
  ghost predicate AllTaken<T(!new)>(clash: (T, T) -> bool, table: seq<T>, rows: seq<T>) {
    forall row :: row in rows ==> Taken(clash, table, row)
  }

  lemma AllTakenGrows<T(!new)>(clash: (T, T) -> bool, table: seq<T>, larger: seq<T>, rows: seq<T>)
    requires AllTaken(clash, table, rows) && table <= larger
    ensures AllTaken(clash, larger, rows)
  {
    forall row | row in rows
      ensures Taken(clash, larger, row)
    {
      TakenGrows(clash, table, larger, row);
    }
  }

  lemma InsertLands<T(!new)>(clash: (T, T) -> bool, table: seq<T>, rows: seq<T>)
    requires forall x :: clash(x, x)
    ensures AllTaken(clash, InsertAll(clash, table, rows), rows)
  {
    forall row | row in rows
      ensures Taken(clash, InsertAll(clash, table, rows), row)
    {
      InsertedAreTaken(clash, table, rows, row);
    }
  }

  /** Inserting the same rows again, at once or after any other inserts, changes nothing. */
  lemma ReplayInsertsNothing<T(!new)>(clash: (T, T) -> bool, table: seq<T>, rows: seq<T>, later: seq<T>)
    requires forall x :: clash(x, x)
    requires InsertAll(clash, table, rows) <= later
    ensures InsertAll(clash, later, rows) == later
  {
    forall row | row in rows
      ensures Taken(clash, later, row)
    {
      InsertedAreTaken(clash, table, rows, row);
      TakenGrows(clash, InsertAll(clash, table, rows), later, row);
    }
    AllTakenInsertNothing(clash, later, rows);
  }

  // Rows that clash only with themselves, as the rows of one chain do.
  ghost predicate Coherent<T(!new)>(clash: (T, T) -> bool, rows: iset<T>) {
    forall a, b :: a in rows && b in rows && clash(a, b) ==> a == b
  }

  /** Among coherent rows an insert loses none and adds no other, so the final contents do not
      depend on the order or the number of inserts. */
  lemma CoherentInsert<T(!new)>(clash: (T, T) -> bool, table: seq<T>, rows: seq<T>, chain: iset<T>)
    requires forall x :: clash(x, x)
    requires Coherent(clash, chain) && (forall x :: x in table || x in rows ==> x in chain)
    ensures forall x :: x in InsertAll(clash, table, rows) <==> x in table || x in rows
  {
    var r := InsertAll(clash, table, rows);
    forall x | x in r
      ensures x in table || x in rows
    {
      OnlyGivenRows(clash, table, rows, x);
    }
    forall x | x in rows
      ensures x in r
    {
      InsertedAreTaken(clash, table, rows, x);
      var i :| 0 <= i < |r| && clash(r[i], x);
      OnlyGivenRows(clash, table, rows, r[i]);
      assert r[i] == x;
    }
  }

  ghost predicate FromChain<T(!new)>(chain: iset<T>, rows: seq<T>) {
    forall x :: x in rows ==> x in chain
  }

  // Whatever rows of the chain are inserted, neither their order nor repetitions decide which of
  // them are stored.
  ghost predicate OrderFree<T(!new)>(clash: (T, T) -> bool, chain: iset<T>) {
    forall rows: seq<T>, other: seq<T> ::
      FromChain(chain, rows) && FromChain(chain, other) && SameElements(rows, other) ==>
        SameElements(InsertAll(clash, [], rows), InsertAll(clash, [], other))
  }

  // Of two clashing rows the first one stays.
  lemma FirstOfPair<T(!new)>(clash: (T, T) -> bool, a: T, b: T)
    requires clash(a, b)
    ensures InsertAll(clash, [], [a, b]) == [a]
  {
    assert [a, b] == [a] + [b] && [b] == [b] + [] && [] + [a] == [a];
    InsertOne(clash, [], a, [b]);
    TakenInOne(clash, a, b);
    InsertOne(clash, [a], b, []);
  }

  /** Which rows are stored does not depend on the order of the inserts if and only if different
      rows never clash. */
  lemma OrderFreeIffCoherent<T(!new)>(clash: (T, T) -> bool, chain: iset<T>)
    requires (forall x :: clash(x, x)) && (forall x, y :: clash(x, y) ==> clash(y, x))
    ensures OrderFree(clash, chain) <==> Coherent(clash, chain)
  {
    if Coherent(clash, chain) {
      forall rows: seq<T>, other: seq<T> | FromChain(chain, rows) && FromChain(chain, other) && SameElements(rows, other)
        ensures SameElements(InsertAll(clash, [], rows), InsertAll(clash, [], other))
      {
        CoherentInsert(clash, [], rows, chain);
        CoherentInsert(clash, [], other, chain);
      }
    }
    if OrderFree(clash, chain) {
      forall a, b | a in chain && b in chain && clash(a, b)
        ensures a == b
      {
        FirstOfPair(clash, a, b);
        FirstOfPair(clash, b, a);
        assert FromChain(chain, [a, b]) && FromChain(chain, [b, a]) && SameElements([a, b], [b, a]);
        assert SameElements([a], [b]) && a in [a];
      }
    }
  }

  lemma ClashesAreReflexive()
    ensures forall x :: OutputsClash(x, x)
    ensures forall x :: RootsClash(x, x)
    ensures forall x :: NullifiersClash(x, x)
  {
  }

  lemma ClashesAreSymmetric()
    ensures forall x, y :: OutputsClash(x, y) ==> OutputsClash(y, x)
    ensures forall x, y :: RootsClash(x, y) ==> RootsClash(y, x)
    ensures forall x, y :: NullifiersClash(x, y) ==> NullifiersClash(y, x)
  {
  }

  // An output row with these keys.
  function SampleOutput(outputIndex: nat, txSignature: string, logIndex: nat): OutputRow {
    OutputRow("pool", outputIndex, "", "", txSignature, 0, logIndex, 0, None)
  }

  /** Two transactions that report the same output index: the one that is inserted first keeps it. */
  lemma OrderMattersWithoutCoherence()
    ensures var a, b := SampleOutput(0, "s", 0), SampleOutput(0, "t", 1);
      && a != b
      && InsertAll(OutputsClash, [], [a, b]) == [a]
      && InsertAll(OutputsClash, [], [b, a]) == [b]
  {
    assert "s"[0] != "t"[0];
    FirstOfPair(OutputsClash, SampleOutput(0, "s", 0), SampleOutput(0, "t", 1));
    FirstOfPair(OutputsClash, SampleOutput(0, "t", 1), SampleOutput(0, "s", 0));
  }

  lemma InsertOne<T(!new)>(clash: (T, T) -> bool, table: seq<T>, row: T, rest: seq<T>)
    ensures InsertAll(clash, table, [row] + rest)
            == InsertAll(clash, if Taken(clash, table, row) then table else table + [row], rest)
  {
    assert ([row] + rest)[1..] == rest;
  }

  lemma TakenInOne<T(!new)>(clash: (T, T) -> bool, only: T, row: T)
    ensures Taken(clash, [only], row) <==> clash(only, row)
  {
    var table := [only];
    assert clash(table[0], row) == clash(only, row);
  }

  // ---- The repository ----

  class PoolRepository {
    var outputs: seq<OutputRow>
    var roots: seq<RootRow>
    var nullifiers: seq<NullifierRow>

    ghost predicate Valid()
      reads this
    {
      UniqueKeys(OutputsClash, outputs) && UniqueKeys(RootsClash, roots) && UniqueKeys(NullifiersClash, nullifiers)
    }

    constructor ()
      ensures Valid() && outputs == [] && roots == [] && nullifiers == []
    {
      outputs, roots, nullifiers := [], [], [];
    }

    method InsertOutputs(rows: seq<OutputRow>) returns (inserted: nat)
      requires Valid()
      modifies this`outputs
      ensures Valid() && outputs == InsertAll(OutputsClash, old(outputs), rows)
      ensures inserted == |outputs| - |old(outputs)|
    {
      if rows == [] {
        return 0;
      }
      var before := |outputs|;
      InsertKeepsUniqueKeys(OutputsClash, outputs, rows);
      outputs := InsertAll(OutputsClash, outputs, rows);
      inserted := |outputs| - before;
    }

    method InsertObservedRoots(rows: seq<RootRow>) returns (inserted: nat)
      requires Valid()
      modifies this`roots
      ensures Valid() && roots == InsertAll(RootsClash, old(roots), rows)
      ensures inserted == |roots| - |old(roots)|
    {
      if rows == [] {
        return 0;
      }
      var before := |roots|;
      InsertKeepsUniqueKeys(RootsClash, roots, rows);
      roots := InsertAll(RootsClash, roots, rows);
      inserted := |roots| - before;
    }

    method InsertSpentNullifiers(rows: seq<NullifierRow>) returns (inserted: nat)
      requires Valid()
      modifies this`nullifiers
      ensures Valid() && nullifiers == InsertAll(NullifiersClash, old(nullifiers), rows)
      ensures inserted == |nullifiers| - |old(nullifiers)|
    {
      if rows == [] {
        return 0;
      }
      var before := |nullifiers|;
      InsertKeepsUniqueKeys(NullifiersClash, nullifiers, rows);
      nullifiers := InsertAll(NullifiersClash, nullifiers, rows);
      inserted := |nullifiers| - before;
    }
  }

  // ---- Reads ----

  function OutputIndexOf(row: OutputRow): nat {
    row.outputIndex
  }

  function OfProgram(rows: seq<OutputRow>, programId: string, start: nat, end: Option<int>): (r: seq<OutputRow>)
    decreases |rows|
  {
    if rows == [] then []
    else
      (if rows[0].programId == programId && start <= rows[0].outputIndex && (end.Some? ==> rows[0].outputIndex < end.value)
       then [rows[0]] else [])
      + OfProgram(rows[1..], programId, start, end)
  }

  // listOutputRange: start <= outputIndex < end, by outputIndex
  function ListOutputRange(rows: seq<OutputRow>, programId: string, start: nat, end: int): seq<OutputRow> {
    SortBy(OutputIndexOf, OfProgram(rows, programId, start, Some(end)))
  }

  // listOutputsForTree
  function ListOutputsForTree(rows: seq<OutputRow>, programId: string): seq<OutputRow> {
    SortBy(OutputIndexOf, OfProgram(rows, programId, 0, None))
  }

  // getStatus: outputCount
  function OutputCount(rows: seq<OutputRow>, programId: string): nat {
    |OfProgram(rows, programId, 0, None)|
  }

  lemma {:induction false} OfProgramMembers(rows: seq<OutputRow>, programId: string, start: nat, end: Option<int>, row: OutputRow)
    ensures row in OfProgram(rows, programId, start, end)
            <==> row in rows && row.programId == programId && start <= row.outputIndex && (end.Some? ==> row.outputIndex < end.value)
    decreases |rows|
  {
    if rows != [] {
      OfProgramMembers(rows[1..], programId, start, end, row);
    }
  }

  lemma {:induction false} OfProgramDistinct(rows: seq<OutputRow>, programId: string, start: nat, end: Option<int>)
    requires UniqueKeys(OutputsClash, rows)
    ensures DistinctKeys(OutputIndexOf, OfProgram(rows, programId, start, end))
    decreases |rows|
  {
    if rows != [] {
      OfProgramDistinct(rows[1..], programId, start, end);
      var rest := OfProgram(rows[1..], programId, start, end);
      forall i | 0 <= i < |rest| && rows[0].programId == programId
        ensures OutputIndexOf(rest[i]) != OutputIndexOf(rows[0])
      {
        assert rest[i] in rest;
        OfProgramMembers(rows[1..], programId, start, end, rest[i]);
        var j :| 0 <= j < |rows[1..]| && rows[1..][j] == rest[i];
        assert rows[j + 1] == rest[i];
      }
    }
  }

  /** A range read returns exactly the stored rows of the range, by strictly ascending index. */
  lemma RangeIsExact(rows: seq<OutputRow>, programId: string, start: nat, end: int)
    requires UniqueKeys(OutputsClash, rows)
    ensures Ascending(OutputIndexOf, ListOutputRange(rows, programId, start, end))
    ensures forall row :: row in ListOutputRange(rows, programId, start, end)
                          <==> row in rows && row.programId == programId && start <= row.outputIndex < end
  {
    hide SortBy, OfProgram, Ascending, DistinctKeys, UniqueKeys;
    var found := OfProgram(rows, programId, start, Some(end));
    OfProgramDistinct(rows, programId, start, Some(end));
    SortIsAscending(OutputIndexOf, found);
    MembersOfSort(OutputIndexOf, found);
    forall row
      ensures row in found <==> row in rows && row.programId == programId && start <= row.outputIndex < end
    {
      OfProgramMembers(rows, programId, start, Some(end), row);
    }
  }

  lemma TreeRowsAreExact(rows: seq<OutputRow>, programId: string)
    requires UniqueKeys(OutputsClash, rows)
    ensures Ascending(OutputIndexOf, ListOutputsForTree(rows, programId))
    ensures |ListOutputsForTree(rows, programId)| == OutputCount(rows, programId)
    ensures forall row :: row in ListOutputsForTree(rows, programId) <==> row in rows && row.programId == programId
  {
    hide SortBy, OfProgram, Ascending, DistinctKeys, UniqueKeys;
    var found := OfProgram(rows, programId, 0, None);
    OfProgramDistinct(rows, programId, 0, None);
    SortIsAscending(OutputIndexOf, found);
    MembersOfSort(OutputIndexOf, found);
    forall row
      ensures row in found <==> row in rows && row.programId == programId
    {
      OfProgramMembers(rows, programId, 0, None, row);
    }
  }
}
