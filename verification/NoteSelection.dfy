// Choosing the one or two private notes that pay for a transfer.
module NoteSelection {
  import opened Wrappers

  datatype OwnedNote = OwnedNote(
    commitment: string, encryptedOutput: string, outputIndex: nat, nullifier: string, amountLamports: nat)

  datatype SelectionError = NotEnoughNotes

  // The order in which localeCompare arranges commitments; any order will do.
  type Collation = string -> int

  // compareOwnedNotes(left, right) <= 0: larger amounts first, then by commitment.
  predicate NotAfter(collate: Collation, left: OwnedNote, right: OwnedNote) {
    || left.amountLamports > right.amountLamports
    || (left.amountLamports == right.amountLamports && collate(left.commitment) <= collate(right.commitment))
  }

  function InsertNote(collate: Collation, note: OwnedNote, sorted: seq<OwnedNote>): (r: seq<OwnedNote>)
    ensures multiset(r) == multiset{note} + multiset(sorted) && |r| == |sorted| + 1
  {
    if sorted == [] || NotAfter(collate, note, sorted[0]) then [note] + sorted
    else
      assert sorted == [sorted[0]] + sorted[1..];
      [sorted[0]] + InsertNote(collate, note, sorted[1..])
  }

  // [...notes].sort(compareOwnedNotes)
  function SortNotes(collate: Collation, notes: seq<OwnedNote>): (r: seq<OwnedNote>)
    ensures multiset(r) == multiset(notes) && |r| == |notes|
  {
    if notes == [] then []
    else
      assert notes == [notes[0]] + notes[1..];
      InsertNote(collate, notes[0], SortNotes(collate, notes[1..]))
  }

  // Larger amounts first, equal amounts by the order of their commitments.
  predicate InOrder(collate: Collation, notes: seq<OwnedNote>) {
    forall i, j :: 0 <= i < j < |notes| ==>
      || notes[i].amountLamports > notes[j].amountLamports
      || (notes[i].amountLamports == notes[j].amountLamports && collate(notes[i].commitment) <= collate(notes[j].commitment))
  }

  lemma {:induction false} InsertInOrder(collate: Collation, note: OwnedNote, sorted: seq<OwnedNote>)
    requires InOrder(collate, sorted)
    ensures InOrder(collate, InsertNote(collate, note, sorted))
    decreases |sorted|
  {
    if sorted != [] && !NotAfter(collate, note, sorted[0]) {
      InsertInOrder(collate, note, sorted[1..]);
      var rest := InsertNote(collate, note, sorted[1..]);
      forall j | 0 <= j < |rest|
        ensures rest[j] == note || rest[j] in sorted[1..]
      {
        assert rest[j] in multiset(rest);
      }
    }
  }

  lemma {:induction false} SortIsInOrder(collate: Collation, notes: seq<OwnedNote>)
    ensures InOrder(collate, SortNotes(collate, notes))
    decreases |notes|
  {
    if notes != [] {
      SortIsInOrder(collate, notes[1..]);
      InsertInOrder(collate, notes[0], SortNotes(collate, notes[1..]));
    }
  }

  function TotalLamports(notes: seq<OwnedNote>): nat {
    if notes == [] then 0 else notes[0].amountLamports + TotalLamports(notes[1..])
  }

  ghost predicate OneReaches(notes: seq<OwnedNote>, target: int) {
    exists i :: 0 <= i < |notes| && notes[i].amountLamports >= target
  }

  ghost predicate TwoReach(notes: seq<OwnedNote>, target: int) {
    exists i, j :: 0 <= i < j < |notes| && notes[i].amountLamports + notes[j].amountLamports >= target
  }

  predicate Descending(notes: seq<OwnedNote>) {
    forall i, j :: 0 <= i < j < |notes| ==> notes[i].amountLamports >= notes[j].amountLamports
  }

  lemma {:induction false} InsertDescending(collate: Collation, note: OwnedNote, sorted: seq<OwnedNote>)
    requires Descending(sorted)
    ensures Descending(InsertNote(collate, note, sorted))
    ensures sorted == [] ==> InsertNote(collate, note, sorted) == [note]
    ensures sorted != [] ==>
      InsertNote(collate, note, sorted)[0] == note || InsertNote(collate, note, sorted)[0] == sorted[0]
    decreases |sorted|
  {
    if sorted != [] && !NotAfter(collate, note, sorted[0]) {
      InsertDescending(collate, note, sorted[1..]);
    }
  }

  ghost predicate AllAtMost(notes: seq<OwnedNote>, m: nat) {
    forall i :: 0 <= i < |notes| ==> notes[i].amountLamports <= m
  }

  ghost predicate PairsAtMost(notes: seq<OwnedNote>, m: nat) {
    forall i, j :: 0 <= i < j < |notes| ==> notes[i].amountLamports + notes[j].amountLamports <= m
  }

  // Inserting a note into a descending list leaves the two largest in front.
  lemma InsertTopTwo(collate: Collation, note: OwnedNote, sorted: seq<OwnedNote>)
    requires Descending(sorted) && sorted != []
    ensures var r := InsertNote(collate, note, sorted);
      && r[0].amountLamports >= note.amountLamports && r[0].amountLamports >= sorted[0].amountLamports
      && r[0].amountLamports + r[1].amountLamports >= note.amountLamports + sorted[0].amountLamports
      && (|sorted| > 1 ==>
            r[0].amountLamports + r[1].amountLamports >= sorted[0].amountLamports + sorted[1].amountLamports)
  {
    if !NotAfter(collate, note, sorted[0]) {
      var r := InsertNote(collate, note, sorted[1..]);
      InsertDescending(collate, note, sorted[1..]);
      assert InsertNote(collate, note, sorted)[1] == r[0];
    }
  }

  // The first two of the sorted notes are the largest that can be had.
  lemma {:induction false} TopTwo(collate: Collation, notes: seq<OwnedNote>)
    ensures var s := SortNotes(collate, notes);
      && Descending(s)
      && (|s| > 0 ==> AllAtMost(notes, s[0].amountLamports))
      && (|s| > 1 ==> PairsAtMost(notes, s[0].amountLamports + s[1].amountLamports))
    decreases |notes|
  {
    if notes != [] {
      var x, tail := notes[0], notes[1..];
      TopTwo(collate, tail);
      InsertDescending(collate, x, SortNotes(collate, tail));
      if tail != [] {
        InsertTopTwo(collate, x, SortNotes(collate, tail));
        ConsBounds(notes, SortNotes(collate, tail), SortNotes(collate, notes));
      }
    }
  }

  lemma ConsBounds(notes: seq<OwnedNote>, t: seq<OwnedNote>, s: seq<OwnedNote>)
    requires |notes| == |s| == |t| + 1 && |t| > 0
    requires AllAtMost(notes[1..], t[0].amountLamports)
    requires |t| > 1 ==> PairsAtMost(notes[1..], t[0].amountLamports + t[1].amountLamports)
    requires s[0].amountLamports >= notes[0].amountLamports && s[0].amountLamports >= t[0].amountLamports
    requires s[0].amountLamports + s[1].amountLamports >= notes[0].amountLamports + t[0].amountLamports
    requires |t| > 1 ==>
      s[0].amountLamports + s[1].amountLamports >= t[0].amountLamports + t[1].amountLamports
    ensures AllAtMost(notes, s[0].amountLamports)
    ensures PairsAtMost(notes, s[0].amountLamports + s[1].amountLamports)
  {
    var tail := notes[1..];
    assert forall i :: 1 <= i < |notes| ==> notes[i] == tail[i - 1];
  }

  /** The selection is complete and frugal, for every list of notes and every target: it is empty
      exactly when no one or two of the notes reach the target; otherwise it is one or two of the
      notes that reach it, the first in order, and it is one note exactly when one note suffices. */
  method PickNotes(collate: Collation, notes: seq<OwnedNote>, target: int) returns (selected: seq<OwnedNote>)
    ensures selected == [] <==> !OneReaches(notes, target) && !TwoReach(notes, target)
    ensures |selected| == 1 <==> OneReaches(notes, target)
    ensures |selected| <= 2 && multiset(selected) <= multiset(notes)
    ensures selected != [] ==> TotalLamports(selected) >= target
    ensures selected <= SortNotes(collate, notes)
  {
    hide SortNotes, InsertNote, NotAfter, OneReaches, TwoReach;
    var sorted := SortNotes(collate, notes);
    selected := [];
    var total := 0;
    for k := 0 to |sorted|
      invariant k <= 1 && selected == sorted[..k] && total == TotalLamports(selected)
      invariant k == 1 ==> sorted[0].amountLamports < target
    {
      selected := selected + [sorted[k]];
      total := total + sorted[k].amountLamports;
      SelectionOf(sorted, selected, k + 1);
      assert k == 1 ==> sorted[0].amountLamports + sorted[1].amountLamports == total;
      if total >= target {
        Reaches(collate, notes, sorted, target, k + 1);
        return;
      }
      if |selected| == 2 {
        NothingReaches(collate, notes, sorted, target);
        return [];
      }
    }
    NothingReaches(collate, notes, sorted, target);
    return [];
  }

  lemma SelectionOf(sorted: seq<OwnedNote>, selected: seq<OwnedNote>, k: nat)
    requires k <= 2 && k <= |sorted| && selected == sorted[..k]
    ensures multiset(selected) <= multiset(sorted)
    ensures k == 1 ==> TotalLamports(selected) == sorted[0].amountLamports
    ensures k == 2 ==> TotalLamports(selected) == sorted[0].amountLamports + sorted[1].amountLamports
  {
    assert sorted == sorted[..k] + sorted[k..];
    if k == 2 {
      assert TotalLamports(selected[1..]) == sorted[1].amountLamports + TotalLamports(selected[1..][1..]);
    }
  }

  lemma WithoutOne(notes: seq<OwnedNote>, i: nat)
    requires i < |notes|
    ensures multiset(notes) == multiset{notes[i]} + multiset(notes[..i] + notes[i + 1..])
  {
    assert notes == notes[..i] + [notes[i]] + notes[i + 1..];
  }

  lemma SameRest(x: OwnedNote, a: multiset<OwnedNote>, b: multiset<OwnedNote>)
    requires multiset{x} + a == multiset{x} + b
    ensures a == b
  {
    assert a == (multiset{x} + a) - multiset{x};
    assert b == (multiset{x} + b) - multiset{x};
  }

  lemma SecondInRest(notes: seq<OwnedNote>, sorted: seq<OwnedNote>, i: nat)
    requires multiset(notes) == multiset(sorted) && |sorted| >= 2
    requires i < |notes| && notes[i] == sorted[0]
    ensures sorted[1] in notes[..i] + notes[i + 1..]
  {
    WithoutOne(notes, i);
    WithoutOne(sorted, 0);
    var rest, rest' := notes[..i] + notes[i + 1..], sorted[..0] + sorted[1..];
    assert rest'[0] == sorted[1] && sorted[1] in multiset(rest');
    SameRest(sorted[0], multiset(rest), multiset(rest'));
    assert sorted[1] in multiset(rest);
  }

  // The first two of a rearranged list stand at two different positions of the original.
  lemma PermutedPair(notes: seq<OwnedNote>, sorted: seq<OwnedNote>) returns (i: nat, j: nat)
    requires multiset(notes) == multiset(sorted) && |sorted| >= 2
    ensures i < |notes| && j < |notes| && i != j && notes[i] == sorted[0] && notes[j] == sorted[1]
  {
    assert sorted[0] in multiset(notes);
    i :| 0 <= i < |notes| && notes[i] == sorted[0];
    SecondInRest(notes, sorted, i);
    if sorted[1] in notes[..i] {
      j :| 0 <= j < i && notes[..i][j] == sorted[1];
    } else {
      var k :| 0 <= k < |notes[i + 1..]| && notes[i + 1..][k] == sorted[1];
      j := i + 1 + k;
    }
  }

  lemma Reaches(collate: Collation, notes: seq<OwnedNote>, sorted: seq<OwnedNote>, target: int, k: nat)
    requires sorted == SortNotes(collate, notes) && 1 <= k <= 2 && k <= |sorted|
    requires k == 1 <==> sorted[0].amountLamports >= target
    requires k == 2 ==> sorted[0].amountLamports + sorted[1].amountLamports >= target
    ensures k == 1 <==> OneReaches(notes, target)
    ensures k == 2 ==> TwoReach(notes, target)
  {
    hide SortNotes, InsertNote, NotAfter;
    TopTwo(collate, notes);
    assert sorted[0] in multiset(notes);
    if k == 2 {
      var i, j := PermutedPair(notes, sorted);
      var lo, hi := if i < j then i else j, if i < j then j else i;
      assert notes[lo].amountLamports + notes[hi].amountLamports >= target;
    }
  }

  lemma NothingReaches(collate: Collation, notes: seq<OwnedNote>, sorted: seq<OwnedNote>, target: int)
    requires sorted == SortNotes(collate, notes)
    requires |sorted| > 0 ==> sorted[0].amountLamports < target
    requires |sorted| > 1 ==> sorted[0].amountLamports + sorted[1].amountLamports < target
    ensures !OneReaches(notes, target) && !TwoReach(notes, target)
  {
    TopTwo(collate, notes);
  }

  function KnownNotes(notes: seq<OwnedNote>, known: set<nat>): (r: seq<OwnedNote>)
    ensures forall n :: n in r <==> n in notes && n.outputIndex in known
  {
    if notes == [] then []
    else (if notes[0].outputIndex in known then [notes[0]] else []) + KnownNotes(notes[1..], known)
  }

  // No note is counted more often than it is given.
  lemma {:induction false} KnownAreGiven(notes: seq<OwnedNote>, known: set<nat>)
    ensures multiset(KnownNotes(notes, known)) <= multiset(notes)
    decreases |notes|
  {
    if notes != [] {
      KnownAreGiven(notes[1..], known);
      assert notes == [notes[0]] + notes[1..];
      assert multiset(notes) == multiset{notes[0]} + multiset(notes[1..]);
    }
  }

  /** `createNoteSelector`: only notes whose output is in the local backup are considered. */
  method SelectNotes(collate: Collation, notes: seq<OwnedNote>, backupIndexes: set<nat>, gross: int)
    returns (r: Result<seq<OwnedNote>, SelectionError>)
    ensures var known := KnownNotes(notes, backupIndexes);
      r.Success? <==> OneReaches(known, gross) || TwoReach(known, gross)
    ensures r.Success? ==> 1 <= |r.value| <= 2 && TotalLamports(r.value) >= gross
    ensures r.Success? ==> r.value <= SortNotes(collate, KnownNotes(notes, backupIndexes))
    ensures r.Success? ==> (|r.value| == 1 <==> OneReaches(KnownNotes(notes, backupIndexes), gross))
    ensures r.Success? ==> multiset(r.value) <= multiset(notes)
    ensures r.Success? ==> forall n :: n in r.value ==> n in notes && n.outputIndex in backupIndexes
  {
    hide KnownNotes, OneReaches, TwoReach, TotalLamports, SortNotes;
    var known := KnownNotes(notes, backupIndexes);
    KnownAreGiven(notes, backupIndexes);
    var selected := PickNotes(collate, known, gross);
    if |selected| == 0 {
      return Failure(NotEnoughNotes);
    }
    forall n | n in selected
      ensures n in known
    {
      assert n in multiset(selected);
      assert n in multiset(known);
    }
    return Success(selected);
  }
}
