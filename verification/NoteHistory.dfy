// The newest sync offsets kept in a note backup.
module NoteHistory {

  const MAX_HISTORY_INDEXES := 20

  predicate Descending(h: seq<nat>) {
    forall i, j :: 0 <= i < j < |h| ==> h[i] > h[j]
  }

  function Take(k: nat, h: seq<nat>): seq<nat> {
    if |h| <= k then h else h[..k]
  }

  // Insert into a descending list, once.
  function Insert(x: nat, h: seq<nat>): (r: seq<nat>)
    decreases |h|
  {
    if h == [] || x > h[0] then [x] + h
    else if x == h[0] then h
    else [h[0]] + Insert(x, h[1..])
  }

  function InsertAll(xs: seq<nat>, h: seq<nat>): seq<nat>
    decreases |xs|
  {
    if xs == [] then h else Insert(xs[0], InsertAll(xs[1..], h))
  }

  // unique(...).sort((left, right) => right - left)
  function UniqueDescending(xs: seq<nat>): seq<nat> {
    InsertAll(xs, [])
  }

  // ... .slice(0, MAX_HISTORY_INDEXES)
  function NewestOffsets(xs: seq<nat>): seq<nat> {
    Take(MAX_HISTORY_INDEXES, UniqueDescending(xs))
  }

  predicate NormalHistory(h: seq<nat>) {
    Descending(h) && |h| <= MAX_HISTORY_INDEXES
  }

  lemma {:induction false} InsertIsDescending(x: nat, h: seq<nat>)
    requires Descending(h)
    ensures Descending(Insert(x, h))
    ensures forall y :: y in Insert(x, h) <==> y == x || y in h
    decreases |h|
  {
    if h != [] && x < h[0] {
      InsertIsDescending(x, h[1..]);
      assert h == [h[0]] + h[1..];
      assert forall i :: 0 <= i < |Insert(x, h[1..])| ==> Insert(x, h[1..])[i] in Insert(x, h[1..]);
    }
  }

  lemma {:induction false} InsertAllIsDescending(xs: seq<nat>, h: seq<nat>)
    requires Descending(h)
    ensures Descending(InsertAll(xs, h))
    ensures forall y :: y in InsertAll(xs, h) <==> y in xs || y in h
    decreases |xs|
  {
    if xs != [] {
      InsertAllIsDescending(xs[1..], h);
      InsertIsDescending(xs[0], InsertAll(xs[1..], h));
      assert xs == [xs[0]] + xs[1..];
    }
  }

  /** A descending list is determined by its elements. */
  lemma {:induction false} DescendingIsUnique(s: seq<nat>, t: seq<nat>)
    requires Descending(s) && Descending(t) && forall y :: y in s <==> y in t
    ensures s == t
    decreases |s|
  {
    assert t != [] ==> t[0] in s;
    if s != [] {
      assert s[0] in t && t != [];
      assert s[0] == t[0];
      forall y
        ensures y in s[1..] <==> y in t[1..]
      {
        TailMember(s, y);
        TailMember(t, y);
      }
      DescendingIsUnique(s[1..], t[1..]);
    }
  }

  lemma TailMember(h: seq<nat>, y: nat)
    requires Descending(h) && h != []
    ensures y in h[1..] <==> y in h && y != h[0]
  {
    assert h == [h[0]] + h[1..];
  }

  // Whatever the first k elements are, the rest of the list does not change them.
  lemma {:induction false} TakeInsert(k: nat, x: nat, h: seq<nat>)
    ensures Take(k, Insert(x, Take(k, h))) == Take(k, Insert(x, h))
    decreases k
  {
    if |h| > k && k > 0 && x < h[0] {
      TakeInsert(k - 1, x, h[1..]);
      assert h[..k][0] == h[0] && h[..k][1..] == h[1..][..k - 1];
      TakeCons(k, h[0], Insert(x, h[1..]));
      TakeCons(k, h[0], Insert(x, h[1..][..k - 1]));
    } else if |h| > k && k > 0 {
      assert h[..k][0] == h[0];
    }
  }

  lemma TakeCons(k: nat, x: nat, h: seq<nat>)
    requires k > 0
    ensures Take(k, [x] + h) == [x] + Take(k - 1, h)
  {
  }

  lemma {:induction false} TakeInsertAll(k: nat, xs: seq<nat>, h: seq<nat>)
    ensures Take(k, InsertAll(xs, Take(k, h))) == Take(k, InsertAll(xs, h))
    decreases |xs|
  {
    if xs == [] {
      assert Take(k, Take(k, h)) == Take(k, h);
    } else {
      TakeInsertAll(k, xs[1..], h);
      TakeInsert(k, xs[0], InsertAll(xs[1..], h));
      TakeInsert(k, xs[0], InsertAll(xs[1..], Take(k, h)));
    }
  }

  lemma NewestIsNormal(xs: seq<nat>)
    ensures NormalHistory(NewestOffsets(xs))
    ensures forall y :: y in NewestOffsets(xs) ==> y in xs
    ensures NormalHistory(xs) ==> NewestOffsets(xs) == xs
  {
    InsertAllIsDescending(xs, []);
    if NormalHistory(xs) {
      DescendingIsUnique(UniqueDescending(xs), xs);
    }
  }

  /** Kept or dropped only by rank: an offset is left out only when 20 are kept, all of them above
      it. */
  lemma NewestAreKept(xs: seq<nat>, dropped: nat)
    requires dropped in xs && dropped !in NewestOffsets(xs)
    ensures |NewestOffsets(xs)| == 20 && forall kept :: kept in NewestOffsets(xs) ==> dropped < kept
  {
    InsertAllIsDescending(xs, []);
    var all := UniqueDescending(xs);
    var i :| 0 <= i < |all| && all[i] == dropped;
    var newest := NewestOffsets(xs);
    assert forall m :: 0 <= m < |newest| ==> newest[m] == all[m] && newest[m] in newest;
  }

  lemma NewestOfElements(xs: seq<nat>, ys: seq<nat>)
    requires forall y :: y in xs <==> y in ys
    ensures NewestOffsets(xs) == NewestOffsets(ys)
  {
    InsertAllIsDescending(xs, []);
    InsertAllIsDescending(ys, []);
    DescendingIsUnique(UniqueDescending(xs), UniqueDescending(ys));
  }

  /** Merging two histories and cutting the result to 20 forgets nothing that a later merge could
      still bring to light. */
  lemma NewestOfNewest(xs: seq<nat>, ys: seq<nat>)
    ensures NewestOffsets(NewestOffsets(xs) + ys) == NewestOffsets(xs + ys)
    ensures NewestOffsets(ys + NewestOffsets(xs)) == NewestOffsets(xs + ys)
  {
    var k, top := MAX_HISTORY_INDEXES, NewestOffsets(xs);
    InsertAllIsDescending(xs, []);
    InsertAllIsDescending(ys, top);
    InsertAllIsDescending(ys, UniqueDescending(xs));
    InsertAllIsDescending(top + ys, []);
    InsertAllIsDescending(xs + ys, []);
    DescendingIsUnique(UniqueDescending(top + ys), InsertAll(ys, top));
    DescendingIsUnique(UniqueDescending(xs + ys), InsertAll(ys, UniqueDescending(xs)));
    TakeInsertAll(k, ys, UniqueDescending(xs));
    NewestOfElements(ys + top, top + ys);
  }
}
