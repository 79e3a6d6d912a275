// Lists sorted by a numeric key: the order in which rows are read and notes are kept.
module Sorting {

  predicate Ascending<T(!new)>(key: T -> nat, s: seq<T>) {
    forall i, j :: 0 <= i < j < |s| ==> key(s[i]) < key(s[j])
  }

  predicate DistinctKeys<T(!new)>(key: T -> nat, s: seq<T>) {
    forall i, j :: 0 <= i < j < |s| ==> key(s[i]) != key(s[j])
  }

  ghost predicate SameElements<T(!new)>(s: seq<T>, t: seq<T>) {
    forall x :: x in s <==> x in t
  }

  lemma FirstIsMember<T(!new)>(s: seq<T>)
    ensures s != [] ==> s[0] in s
  {
  }

  function InsertBy<T>(key: T -> nat, x: T, s: seq<T>): (r: seq<T>)
    ensures multiset(r) == multiset{x} + multiset(s)
    decreases |s|
  {
    if s == [] || key(x) <= key(s[0]) then [x] + s
    else
      assert s == [s[0]] + s[1..];
      [s[0]] + InsertBy(key, x, s[1..])
  }

  function SortBy<T>(key: T -> nat, s: seq<T>): (r: seq<T>)
    ensures multiset(r) == multiset(s)
    decreases |s|
  {
    if s == [] then []
    else
      assert s == [s[0]] + s[1..];
      InsertBy(key, s[0], SortBy(key, s[1..]))
  }

  lemma {:induction false} InsertAscending<T(!new)>(key: T -> nat, x: T, s: seq<T>)
    requires Ascending(key, s) && forall i :: 0 <= i < |s| ==> key(s[i]) != key(x)
    ensures Ascending(key, InsertBy(key, x, s))
    ensures s == [] || key(x) <= key(s[0]) || InsertBy(key, x, s)[0] == s[0]
    decreases |s|
  {
    if s != [] && key(x) > key(s[0]) {
      InsertAscending(key, x, s[1..]);
      var r := InsertBy(key, x, s[1..]);
      forall i | 0 <= i < |r|
        ensures key(s[0]) < key(r[i])
      {
        InsertedMember(key, x, s[1..], i);
      }
      AscendingCons(key, s[0], r);
    } else if s != [] {
      AscendingCons(key, x, s);
    }
  }

  lemma InsertedMember<T(!new)>(key: T -> nat, x: T, s: seq<T>, i: nat)
    requires i < |InsertBy(key, x, s)|
    ensures InsertBy(key, x, s)[i] == x || InsertBy(key, x, s)[i] in s
  {
    hide InsertBy;
    assert InsertBy(key, x, s)[i] in multiset(InsertBy(key, x, s));
  }

  lemma AscendingCons<T(!new)>(key: T -> nat, x: T, s: seq<T>)
    requires Ascending(key, s) && forall i :: 0 <= i < |s| ==> key(x) < key(s[i])
    ensures Ascending(key, [x] + s)
  {
  }

  lemma MembersOfSort<T(!new)>(key: T -> nat, s: seq<T>)
    ensures |SortBy(key, s)| == |s| && SameElements(SortBy(key, s), s)
  {
    var r := SortBy(key, s);
    assert |multiset(r)| == |multiset(s)|;
    forall x
      ensures x in r <==> x in s
    {
      assert x in r <==> x in multiset(r);
      assert x in s <==> x in multiset(s);
    }
  }

  /** Sorting a list without equal keys gives a strictly ascending list of the same elements. */
  lemma {:induction false} SortIsAscending<T(!new)>(key: T -> nat, s: seq<T>)
    requires DistinctKeys(key, s)
    ensures Ascending(key, SortBy(key, s))
    decreases |s|
  {
    if s != [] {
      SortIsAscending(key, s[1..]);
      MembersOfSort(key, s[1..]);
      var r := SortBy(key, s[1..]);
      forall i | 0 <= i < |r|
        ensures key(r[i]) != key(s[0])
      {
        assert r[i] in s[1..];
      }
      InsertAscending(key, s[0], r);
    }
  }

  /** A strictly ascending list is determined by its elements. */
  lemma {:induction false} AscendingIsUnique<T(!new)>(key: T -> nat, s: seq<T>, t: seq<T>)
    requires Ascending(key, s) && Ascending(key, t) && SameElements(s, t)
    ensures s == t
    decreases |s|
  {
    assert t != [] ==> t[0] in s;
    if s != [] {
      assert s[0] in t && t != [] && t[0] in s;
      assert key(s[0]) <= key(t[0]) && key(t[0]) <= key(s[0]);
      assert s[0] == t[0];
      forall x
        ensures x in s[1..] <==> x in t[1..]
      {
        TailMember(key, s, x);
        TailMember(key, t, x);
      }
      AscendingIsUnique(key, s[1..], t[1..]);
    }
  }

  lemma TailMember<T(!new)>(key: T -> nat, s: seq<T>, x: T)
    requires Ascending(key, s) && s != []
    ensures x in s[1..] <==> x in s && x != s[0]
  {
    assert s == [s[0]] + s[1..];
  }

  // Each key is at least its position.
  lemma {:induction false} KeyAtLeastPosition<T(!new)>(key: T -> nat, s: seq<T>, i: nat)
    requires Ascending(key, s) && i < |s|
    ensures key(s[i]) >= i
  {
    if i > 0 {
      KeyAtLeastPosition(key, s, i - 1);
    }
  }

  ghost predicate HasKey<T(!new)>(key: T -> nat, s: seq<T>, k: nat) {
    exists x :: x in s && key(x) == k
  }

  /** In a strictly ascending list the keys are their own positions exactly when every number below
      the length is a key. */
  lemma DenseIffPositions<T(!new)>(key: T -> nat, s: seq<T>)
    requires Ascending(key, s)
    ensures (forall i :: 0 <= i < |s| ==> key(s[i]) == i) <==> (forall k :: 0 <= k < |s| ==> HasKey(key, s, k))
  {
    if forall k :: 0 <= k < |s| ==> HasKey(key, s, k) {
      forall i | 0 <= i < |s|
        ensures key(s[i]) == i
      {
        DensePosition(key, s, i);
      }
    }
    if forall i :: 0 <= i < |s| ==> key(s[i]) == i {
      forall k | 0 <= k < |s|
        ensures HasKey(key, s, k)
      {
        assert s[k] in s;
      }
    }
  }

  lemma {:induction false} DensePosition<T(!new)>(key: T -> nat, s: seq<T>, i: nat)
    requires Ascending(key, s) && i < |s| && forall k :: 0 <= k < |s| ==> HasKey(key, s, k)
    ensures key(s[i]) == i
    decreases i
  {
    KeyAtLeastPosition(key, s, i);
    assert HasKey(key, s, i);
    var x :| x in s && key(x) == i;
    var j :| 0 <= j < |s| && s[j] == x;
    if j < i {
      DensePosition(key, s, j);
    }
  }

  /** A strictly ascending list whose keys are exactly the numbers below n has n elements, each at
      the position of its key. */
  lemma FullRange<T(!new)>(key: T -> nat, s: seq<T>, n: nat)
    requires Ascending(key, s) && (forall i :: 0 <= i < |s| ==> key(s[i]) < n) && (forall k :: 0 <= k < n ==> HasKey(key, s, k))
    ensures |s| == n && forall i :: 0 <= i < n ==> key(s[i]) == i
  {
    hide HasKey;
    if |s| > 0 {
      KeyAtLeastPosition(key, s, |s| - 1);
    }
    DenseIffPositions(key, s);
    if |s| < n {
      LastKey(key, s, n - 1);
    }
  }

  lemma LastKey<T(!new)>(key: T -> nat, s: seq<T>, k: nat)
    requires HasKey(key, s, k) && forall i :: 0 <= i < |s| ==> key(s[i]) == i
    ensures k < |s|
  {
    var x :| x in s && key(x) == k;
    var i :| 0 <= i < |s| && s[i] == x;
  }
}
