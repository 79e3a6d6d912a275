// The encrypted outputs of a note backup and how they are normalized.
module NoteOutputs {
  import opened Wrappers
  import opened Numerals
  import opened Text
  import opened Sorting

  predicate SafeInteger(n: int) {
    0 <= n <= MAX_SAFE_INTEGER
  }

  // At least one byte, in lower-case hex.
  predicate HexBytes(s: string) {
    |s| >= 2 && |s| % 2 == 0 && IsNumeral(16, s)
  }

  type Ciphertext = s: string | HexBytes(s) witness "00"

  // Trimmed, hex pairs, lower-cased.
  function ParseCiphertext(raw: string): (r: Option<Ciphertext>) {
    var s := Lower(Trim(raw));
    if HexBytes(s) then Some(s) else None
  }

  // The same text but for the case of letters.
  predicate SameButCase(s: string, lower: string) {
    && |s| == |lower|
    && forall i :: 0 <= i < |s| ==> s[i] == lower[i] || ('A' <= s[i] <= 'Z' && s[i] - 'A' + 'a' == lower[i])
  }

  /** A text is read as a ciphertext exactly when it is the ciphertext's hex digits, in any case,
      between any spaces. */
  lemma CiphertextIff(raw: string, c: Ciphertext)
    ensures ParseCiphertext(raw) == Some(c)
            <==> exists left, s, right :: AllSpaces(left) && AllSpaces(right) && SameButCase(s, c) && raw == left + s + right
  {
    hide Trim;
    if ParseCiphertext(raw) == Some(c) {
      var left, right := TrimSplits(raw);
      assert SameButCase(Trim(raw), c);
    }
    forall left, s, right | AllSpaces(left) && AllSpaces(right) && SameButCase(s, c) && raw == left + s + right
      ensures ParseCiphertext(raw) == Some(c)
    {
      assert CharDigit(c[0]) < 16 && CharDigit(c[|c| - 1]) < 16;
      TrimSpaces(left, s, right);
      LowerOf(s, c);
    }
  }

  lemma LowerOf(s: string, c: Ciphertext)
    requires SameButCase(s, c)
    ensures Lower(s) == c
  {
    forall i | 0 <= i < |s|
      ensures Lower(s)[i] == c[i]
    {
      assert CharDigit(c[i]) < 16;
    }
  }

  lemma ParseIsStable(c: Ciphertext)
    ensures ParseCiphertext(c) == Some(c)
  {
    TrimNumeral(16, c);
  }

  datatype IndexedOutput = IndexedOutput(outputIndex: nat, encryptedOutput: Ciphertext)

  function IndexOf(output: IndexedOutput): nat {
    output.outputIndex
  }

  datatype NoteError = Malformed | Conflicting | WrongProgram | WrongOwner

  // ---- What normalization means ----

  // Equal indexes have equal ciphertexts, and equal ciphertexts have equal indexes.
  predicate OneToOne(outputs: seq<IndexedOutput>) {
    forall i, j :: 0 <= i < |outputs| && 0 <= j < |outputs| ==>
      (outputs[i].outputIndex == outputs[j].outputIndex <==> outputs[i].encryptedOutput == outputs[j].encryptedOutput)
  }

  predicate Normal(outputs: seq<IndexedOutput>) {
    Ascending(IndexOf, outputs) && OneToOne(outputs)
  }

  // A list without indexes: the position of each ciphertext is its index.
  function Positioned(ciphertexts: seq<Ciphertext>): seq<IndexedOutput> {
    seq(|ciphertexts|, i requires 0 <= i < |ciphertexts| => IndexedOutput(i, ciphertexts[i]))
  }

  predicate HasCiphertext(outputs: seq<IndexedOutput>, c: Ciphertext) {
    exists i :: 0 <= i < |outputs| && outputs[i].encryptedOutput == c
  }

  // The first entry of each ciphertext.
  function FirstOfEach(outputs: seq<IndexedOutput>, n: nat): seq<IndexedOutput>
    requires n <= |outputs|
    decreases n
  {
    if n == 0 then []
    else if HasCiphertext(FirstOfEach(outputs, n - 1), outputs[n - 1].encryptedOutput) then FirstOfEach(outputs, n - 1)
    else FirstOfEach(outputs, n - 1) + [outputs[n - 1]]
  }

  function Normalized(outputs: seq<IndexedOutput>, hasIndexes: bool): Result<seq<IndexedOutput>, NoteError> {
    if hasIndexes && !OneToOne(outputs) then Failure(Conflicting)
    else Success(SortBy(IndexOf, FirstOfEach(outputs, |outputs|)))
  }

  // ---- The loop over two maps ----

  ghost predicate MapsHold(entries: seq<IndexedOutput>, byIndex: map<nat, Ciphertext>, indexBy: map<Ciphertext, nat>) {
    && (forall k: nat :: k in byIndex ==> IndexedOutput(k, byIndex[k]) in entries)
    && (forall o :: o in entries ==> o.outputIndex in byIndex && byIndex[o.outputIndex] == o.encryptedOutput)
    && (forall c: Ciphertext :: c in indexBy ==> IndexedOutput(indexBy[c], c) in entries)
    && (forall o :: o in entries ==> o.encryptedOutput in indexBy && indexBy[o.encryptedOutput] == o.outputIndex)
  }

  predicate Before(outputs: seq<IndexedOutput>, i: nat, entries: seq<IndexedOutput>)
    requires i <= |outputs|
  {
    forall o :: o in entries ==> o in outputs[..i]
  }

  // No conflict among the first i outputs, and every one of them is an entry.
  ghost predicate NoConflict(outputs: seq<IndexedOutput>, i: nat, entries: seq<IndexedOutput>)
    requires i <= |outputs|
  {
    OneToOne(outputs[..i]) && forall j :: 0 <= j < i ==> outputs[j] in entries
  }

  // Among checked outputs, an entry that agrees with the next one in one part disagrees in the other.
  lemma ClashingEntry(outputs: seq<IndexedOutput>, i: nat, entries: seq<IndexedOutput>, other: IndexedOutput)
    requires i < |outputs| && Before(outputs, i, entries) && other in entries
    requires !(other.outputIndex == outputs[i].outputIndex <==> other.encryptedOutput == outputs[i].encryptedOutput)
    ensures !OneToOne(outputs)
  {
    var j :| 0 <= j < i && outputs[..i][j] == other;
    assert outputs[j] == other;
  }

  lemma KnownEntry(outputs: seq<IndexedOutput>, i: nat, entries: seq<IndexedOutput>)
    requires i < |outputs| && outputs[i] in entries && NoConflict(outputs, i, entries) && Before(outputs, i, entries)
    ensures NoConflict(outputs, i + 1, entries)
  {
    var m :| 0 <= m < i && outputs[..i][m] == outputs[i];
    var before, now := outputs[..i], outputs[..i + 1];
    assert forall j :: 0 <= j < i ==> now[j] == before[j];
    assert now[i] == before[m];
  }

  lemma FreshEntry(outputs: seq<IndexedOutput>, i: nat, entries: seq<IndexedOutput>)
    requires i < |outputs| && NoConflict(outputs, i, entries)
    requires forall o :: o in entries ==>
               o.outputIndex != outputs[i].outputIndex && o.encryptedOutput != outputs[i].encryptedOutput
    ensures NoConflict(outputs, i + 1, entries + [outputs[i]])
  {
    var before, now := outputs[..i], outputs[..i + 1];
    assert forall j :: 0 <= j < i ==> now[j] == before[j] == outputs[j];
  }

  // What the two maps say about the next output.
  lemma LookUp(entries: seq<IndexedOutput>, byIndex: map<nat, Ciphertext>, indexBy: map<Ciphertext, nat>, output: IndexedOutput)
    requires MapsHold(entries, byIndex, indexBy)
    ensures output.outputIndex in byIndex ==> IndexedOutput(output.outputIndex, byIndex[output.outputIndex]) in entries
    ensures output.encryptedOutput in indexBy ==> IndexedOutput(indexBy[output.encryptedOutput], output.encryptedOutput) in entries
    ensures output.encryptedOutput in indexBy <==> HasCiphertext(entries, output.encryptedOutput)
    ensures forall o :: o in entries ==> o.outputIndex in byIndex && o.encryptedOutput in indexBy
  {
    assert output.encryptedOutput in indexBy ==> IndexedOutput(indexBy[output.encryptedOutput], output.encryptedOutput) in entries;
    assert forall i :: 0 <= i < |entries| ==> entries[i] in entries;
  }

  lemma MapsExtend(entries: seq<IndexedOutput>, byIndex: map<nat, Ciphertext>, indexBy: map<Ciphertext, nat>, output: IndexedOutput)
    requires MapsHold(entries, byIndex, indexBy)
    requires output.outputIndex !in byIndex && output.encryptedOutput !in indexBy
    ensures MapsHold(entries + [output], byIndex[output.outputIndex := output.encryptedOutput],
                     indexBy[output.encryptedOutput := output.outputIndex])
  {
  }

  lemma BeforeGrows(outputs: seq<IndexedOutput>, i: nat, entries: seq<IndexedOutput>)
    requires i < |outputs| && Before(outputs, i, entries)
    ensures Before(outputs, i + 1, entries) && Before(outputs, i + 1, entries + [outputs[i]])
  {
    assert outputs[..i + 1] == outputs[..i] + [outputs[i]];
  }

  lemma NothingYet(outputs: seq<IndexedOutput>)
    ensures MapsHold([], map[], map[]) && Before(outputs, 0, []) && NoConflict(outputs, 0, []) && FirstOfEach(outputs, 0) == []
  {
  }

  // In a positioned list no earlier output has the index of a later one.
  lemma PositionsDiffer(ciphertexts: seq<Ciphertext>, i: nat, entries: seq<IndexedOutput>, o: IndexedOutput)
    requires i < |ciphertexts| && Before(Positioned(ciphertexts), i, entries) && o in entries
    ensures o.outputIndex < i == Positioned(ciphertexts)[i].outputIndex
  {
    var j :| 0 <= j < i && Positioned(ciphertexts)[..i][j] == o;
  }

  method NormalizeIndexedOutputs(indexed: Option<seq<IndexedOutput>>, legacy: seq<Ciphertext>)
    returns (r: Result<seq<IndexedOutput>, NoteError>)
    ensures indexed.Some? ==> r == Normalized(indexed.value, true)
    ensures indexed.None? ==> r == Normalized(Positioned(legacy), false)
  {
    var outputs := if indexed.Some? then indexed.value else Positioned(legacy);
    hide MapsHold, Before, NoConflict, FirstOfEach, HasCiphertext, OneToOne, SortBy, Positioned;
    NothingYet(outputs);
    var byIndex: map<nat, Ciphertext> := map[];
    var indexBy: map<Ciphertext, nat> := map[];
    var entries: seq<IndexedOutput> := [];
    for i := 0 to |outputs|
      invariant entries == FirstOfEach(outputs, i)
      invariant MapsHold(entries, byIndex, indexBy) && Before(outputs, i, entries)
      invariant indexed.Some? ==> NoConflict(outputs, i, entries)
    {
      var output := outputs[i];
      LookUp(entries, byIndex, indexBy, output);
      BeforeGrows(outputs, i, entries);
      NextOfEach(outputs, i);
      if output.outputIndex in byIndex && byIndex[output.outputIndex] != output.encryptedOutput {
        var other := IndexedOutput(output.outputIndex, byIndex[output.outputIndex]);
        if indexed.None? {
          PositionsDiffer(legacy, i, entries, other);
          assert false;
        }
        ClashingEntry(outputs, i, entries, other);
        return Failure(Conflicting);
      }
      if output.encryptedOutput in indexBy {
        var known := IndexedOutput(indexBy[output.encryptedOutput], output.encryptedOutput);
        if known.outputIndex != output.outputIndex {
          if indexed.None? {
            continue;
          }
          ClashingEntry(outputs, i, entries, known);
          return Failure(Conflicting);
        }
        if indexed.Some? {
          KnownEntry(outputs, i, entries);
        }
        continue;
      }
      if indexed.Some? {
        FreshEntry(outputs, i, entries);
      }
      MapsExtend(entries, byIndex, indexBy, output);
      byIndex := byIndex[output.outputIndex := output.encryptedOutput];
      indexBy := indexBy[output.encryptedOutput := output.outputIndex];
      entries := entries + [output];
    }
    AllChecked(outputs, entries);
    return Success(SortBy(IndexOf, entries));
  }

  lemma NextOfEach(outputs: seq<IndexedOutput>, i: nat)
    requires i < |outputs|
    ensures FirstOfEach(outputs, i + 1) ==
            if HasCiphertext(FirstOfEach(outputs, i), outputs[i].encryptedOutput) then FirstOfEach(outputs, i)
            else FirstOfEach(outputs, i) + [outputs[i]]
  {
  }

  lemma AllChecked(outputs: seq<IndexedOutput>, entries: seq<IndexedOutput>)
    ensures NoConflict(outputs, |outputs|, entries) ==> OneToOne(outputs)
  {
    assert outputs[..|outputs|] == outputs;
  }

  // ---- What comes out ----

  predicate FirstAt(outputs: seq<IndexedOutput>, i: nat)
    requires i < |outputs|
  {
    forall j :: 0 <= j < i ==> outputs[j].encryptedOutput != outputs[i].encryptedOutput
  }

  // o stands among the first n outputs, ahead of every other output with its ciphertext.
  predicate IsFirst(outputs: seq<IndexedOutput>, n: nat, o: IndexedOutput)
    requires n <= |outputs|
  {
    exists i :: 0 <= i < n && outputs[i] == o && FirstAt(outputs, i)
  }

  lemma {:induction false} EntriesAreFirsts(outputs: seq<IndexedOutput>, n: nat, o: IndexedOutput)
    requires n <= |outputs|
    ensures o in FirstOfEach(outputs, n) <==> IsFirst(outputs, n, o)
  {
    if n > 0 {
      hide HasCiphertext, FirstAt;
      EntriesAreFirsts(outputs, n - 1, o);
      NextIsFirst(outputs, n - 1);
      NextOfEach(outputs, n - 1);
    }
  }

  lemma {:induction false} NextIsFirst(outputs: seq<IndexedOutput>, n: nat)
    requires n < |outputs|
    ensures FirstAt(outputs, n) <==> !HasCiphertext(FirstOfEach(outputs, n), outputs[n].encryptedOutput)
  {
    hide FirstOfEach, HasCiphertext;
    CiphertextsKept(outputs, n, outputs[n].encryptedOutput);
  }

  lemma {:induction false} CiphertextsKept(outputs: seq<IndexedOutput>, n: nat, c: Ciphertext)
    requires n <= |outputs|
    ensures HasCiphertext(FirstOfEach(outputs, n), c) <==> exists i :: 0 <= i < n && outputs[i].encryptedOutput == c
  {
    if n > 0 {
      CiphertextsKept(outputs, n - 1, c);
      CiphertextsKept(outputs, n - 1, outputs[n - 1].encryptedOutput);
      var before, now := FirstOfEach(outputs, n - 1), FirstOfEach(outputs, n);
      assert forall i :: 0 <= i < |before| ==> now[i] == before[i];
      assert |now| > |before| ==> now[|before|] == outputs[n - 1];
    }
  }

  predicate DistinctCiphertexts(outputs: seq<IndexedOutput>) {
    forall i, j :: 0 <= i < j < |outputs| ==> outputs[i].encryptedOutput != outputs[j].encryptedOutput
  }

  lemma {:induction false} EntriesAreDistinct(outputs: seq<IndexedOutput>, n: nat)
    requires n <= |outputs|
    ensures DistinctCiphertexts(FirstOfEach(outputs, n))
  {
    if n > 0 {
      EntriesAreDistinct(outputs, n - 1);
    }
  }

  // Entries of equal index have equal ciphertexts.
  predicate IndexDetermines(outputs: seq<IndexedOutput>) {
    forall o, p :: o in outputs && p in outputs && o.outputIndex == p.outputIndex ==> o.encryptedOutput == p.encryptedOutput
  }

  lemma SortedEntries(outputs: seq<IndexedOutput>, r: seq<IndexedOutput>)
    requires IndexDetermines(outputs) && r == SortBy(IndexOf, FirstOfEach(outputs, |outputs|))
    ensures Normal(r)
    ensures forall o :: o in r <==> IsFirst(outputs, |outputs|, o)
  {
    hide FirstOfEach, SortBy, IsFirst, Ascending, OneToOne, DistinctKeys, DistinctCiphertexts, IndexDetermines;
    var n, entries := |outputs|, FirstOfEach(outputs, |outputs|);
    forall o
      ensures o in entries <==> IsFirst(outputs, n, o)
    {
      EntriesAreFirsts(outputs, n, o);
    }
    EntriesAreDistinct(outputs, n);
    EntriesAreOutputs(outputs, n);
    DistinctIndexes(outputs, entries);
    SortIsAscending(IndexOf, entries);
    MembersOfSort(IndexOf, entries);
    DistinctIsOneToOne(entries, r);
  }

  lemma {:induction false} EntriesAreOutputs(outputs: seq<IndexedOutput>, n: nat)
    requires n <= |outputs|
    ensures forall o :: o in FirstOfEach(outputs, n) ==> o in outputs
  {
    if n > 0 {
      EntriesAreOutputs(outputs, n - 1);
    }
  }

  lemma DistinctIndexes(outputs: seq<IndexedOutput>, entries: seq<IndexedOutput>)
    requires IndexDetermines(outputs) && DistinctCiphertexts(entries) && forall o :: o in entries ==> o in outputs
    ensures DistinctKeys(IndexOf, entries)
  {
    forall i, j | 0 <= i < j < |entries|
      ensures IndexOf(entries[i]) != IndexOf(entries[j])
    {
      assert entries[i] in outputs && entries[j] in outputs;
    }
  }

  lemma DistinctIsOneToOne(entries: seq<IndexedOutput>, r: seq<IndexedOutput>)
    requires DistinctCiphertexts(entries) && Ascending(IndexOf, r) && SameElements(r, entries)
    ensures OneToOne(r)
  {
    forall i, j | 0 <= i < |r| && 0 <= j < |r|
      ensures r[i].outputIndex == r[j].outputIndex <==> r[i].encryptedOutput == r[j].encryptedOutput
    {
      assert r[i] in r && r[j] in r;
      var a :| 0 <= a < |entries| && entries[a] == r[i];
      var b :| 0 <= b < |entries| && entries[b] == r[j];
      assert i < j ==> IndexOf(r[i]) < IndexOf(r[j]);
      assert j < i ==> IndexOf(r[j]) < IndexOf(r[i]);
    }
  }

  /** With indexes: normalization succeeds exactly on lists that are one-to-one both ways, and then
      it gives the same outputs, once each, by ascending index. */
  lemma NormalizedWithIndexes(outputs: seq<IndexedOutput>)
    ensures Normalized(outputs, true).Success? <==> OneToOne(outputs)
    ensures OneToOne(outputs) ==>
              Normal(Normalized(outputs, true).value) && SameElements(Normalized(outputs, true).value, outputs)
  {
    if OneToOne(outputs) {
      var r := Normalized(outputs, true).value;
      forall o, p | o in outputs && p in outputs && o.outputIndex == p.outputIndex
        ensures o.encryptedOutput == p.encryptedOutput
      {
        var i :| 0 <= i < |outputs| && outputs[i] == o;
        var j :| 0 <= j < |outputs| && outputs[j] == p;
      }
      SortedEntries(outputs, r);
      forall o | o in outputs
        ensures o in r
      {
        var i :| 0 <= i < |outputs| && outputs[i] == o;
        FirstOccurrence(outputs, i);
      }
    }
  }

  // In a one-to-one list the first entry with a ciphertext is the output itself.
  lemma {:induction false} FirstOccurrence(outputs: seq<IndexedOutput>, i: nat)
    requires i < |outputs| && OneToOne(outputs)
    ensures exists j :: 0 <= j <= i && outputs[j] == outputs[i] && FirstAt(outputs, j)
    decreases i
  {
    if !FirstAt(outputs, i) {
      var j :| 0 <= j < i && outputs[j].encryptedOutput == outputs[i].encryptedOutput;
      FirstOccurrence(outputs, j);
    }
  }

  // The first position of a ciphertext, in the list itself.
  predicate FirstPosition(ciphertexts: seq<Ciphertext>, o: IndexedOutput) {
    && o.outputIndex < |ciphertexts|
    && ciphertexts[o.outputIndex] == o.encryptedOutput
    && forall j :: 0 <= j < o.outputIndex ==> ciphertexts[j] != o.encryptedOutput
  }

  /** Without indexes: normalization never fails, and it keeps each ciphertext at its first
      position. */
  lemma NormalizedPositions(ciphertexts: seq<Ciphertext>)
    ensures Normalized(Positioned(ciphertexts), false).Success?
    ensures Normal(Normalized(Positioned(ciphertexts), false).value)
    ensures forall o :: o in Normalized(Positioned(ciphertexts), false).value <==> FirstPosition(ciphertexts, o)
  {
    hide IsFirst, FirstPosition, FirstOfEach, SortBy;
    var outputs := Positioned(ciphertexts);
    SortedEntries(outputs, Normalized(outputs, false).value);
    forall o
      ensures IsFirst(outputs, |outputs|, o) <==> FirstPosition(ciphertexts, o)
    {
      FirstInPositioned(ciphertexts, o);
    }
  }

  lemma FirstInPositioned(ciphertexts: seq<Ciphertext>, o: IndexedOutput)
    ensures IsFirst(Positioned(ciphertexts), |ciphertexts|, o) <==> FirstPosition(ciphertexts, o)
  {
    var outputs := Positioned(ciphertexts);
    if FirstPosition(ciphertexts, o) {
      assert outputs[o.outputIndex] == o && FirstAt(outputs, o.outputIndex);
    }
    if IsFirst(outputs, |ciphertexts|, o) {
      var i :| 0 <= i < |ciphertexts| && outputs[i] == o && FirstAt(outputs, i);
      forall j | 0 <= j < i
        ensures ciphertexts[j] != o.encryptedOutput
      {
        assert outputs[j].encryptedOutput == ciphertexts[j];
      }
    }
  }

  lemma NormalizedMembers(outputs: seq<IndexedOutput>, s: seq<IndexedOutput>)
    requires Normal(s) && SameElements(s, outputs)
    ensures Normalized(outputs, true) == Success(s)
  {
    SameIsOneToOne(s, outputs);
    NormalizedWithIndexes(outputs);
    AscendingIsUnique(IndexOf, Normalized(outputs, true).value, s);
  }

  lemma SameIsOneToOne(s: seq<IndexedOutput>, t: seq<IndexedOutput>)
    requires OneToOne(s) && SameElements(s, t)
    ensures OneToOne(t)
  {
    forall i, j | 0 <= i < |t| && 0 <= j < |t|
      ensures t[i].outputIndex == t[j].outputIndex <==> t[i].encryptedOutput == t[j].encryptedOutput
    {
      assert t[i] in s && t[j] in s;
    }
  }
}
