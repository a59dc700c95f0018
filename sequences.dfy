/**
  Sequence operations that the store's queries are built from: ordering by a
  numeric key (the `sort` of a query), reversal and the strict ascending
  order in which identifiers are handed out.
*/
module Sequences {

  /** Keys strictly increase along `s`, so in particular they are distinct. */
  predicate StrictlyAscending<T>(s: seq<T>, key: T -> int) {
    forall i, j :: 0 <= i < j < |s| ==> key(s[i]) < key(s[j])
  }

  /** Every key in `s` is below `bound`. */
  predicate AllBelow<T>(s: seq<T>, key: T -> int, bound: int) {
    forall i :: 0 <= i < |s| ==> key(s[i]) < bound
  }

  /** Appending an element keyed `bound` keeps `s` ascending, and below `bound + 1`. */
  lemma AppendAbove<T>(s: seq<T>, x: T, key: T -> int, bound: int)
    requires StrictlyAscending(s, key) && AllBelow(s, key, bound)
    requires key(x) == bound
    ensures StrictlyAscending(s + [x], key) && AllBelow(s + [x], key, bound + 1)
  {
    var r := s + [x];
    assert forall i :: 0 <= i < |s| ==> r[i] == s[i];
  }

  /** Keys never increase along `s`: a descending sort order. */
  predicate SortedDesc<T>(s: seq<T>, key: T -> int) {
    forall i, j :: 0 <= i < j < |s| ==> key(s[i]) >= key(s[j])
  }

  /** An element no smaller than the head of a descending sequence can go in front of it. */
  lemma PrependLargest<T>(x: T, s: seq<T>, key: T -> int)
    requires SortedDesc(s, key)
    requires s == [] || key(x) >= key(s[0])
    ensures SortedDesc([x] + s, key)
  {
    var r := [x] + s;
    forall i, j | 0 <= i < j < |r| ensures key(r[i]) >= key(r[j]) {
      assert r[j] == s[j - 1];
      if i > 0 { assert r[i] == s[i - 1]; } else { assert key(s[0]) >= key(s[j - 1]); }
    }
  }

  lemma TailSorted<T>(s: seq<T>, key: T -> int)
    requires s != [] && SortedDesc(s, key)
    ensures SortedDesc(s[1..], key)
  {
    var t := s[1..];
    forall i, j | 0 <= i < j < |t| ensures key(t[i]) >= key(t[j]) {
      assert t[i] == s[i + 1] && t[j] == s[j + 1];
    }
  }

  /** Puts `x` in front of the first element whose key is not larger. */
  function Insert<T>(x: T, s: seq<T>, key: T -> int): (r: seq<T>)
    ensures |r| == |s| + 1
    ensures r[0] == x || (s != [] && r[0] == s[0])
  {
    if s == [] || key(x) >= key(s[0]) then [x] + s else [s[0]] + Insert(x, s[1..], key)
  }

  /** Inserting into a descending sequence keeps it descending. */
  lemma {:induction false} InsertSorted<T>(x: T, s: seq<T>, key: T -> int)
    requires SortedDesc(s, key)
    ensures SortedDesc(Insert(x, s, key), key)
  {
    if s == [] || key(x) >= key(s[0]) {
      PrependLargest(x, s, key);
    } else {
      var tail := s[1..];
      TailSorted(s, key);
      InsertSorted(x, tail, key);
      var rest := Insert(x, tail, key);
      assert key(s[0]) >= key(rest[0]) by {
        if rest[0] != x { assert rest[0] == s[1]; }
      }
      PrependLargest(s[0], rest, key);
    }
  }

  /** Inserting adds exactly `x`: the result is a permutation of `s` with `x`. */
  lemma {:induction false} InsertPermutes<T>(x: T, s: seq<T>, key: T -> int)
    ensures multiset(Insert(x, s, key)) == multiset(s) + multiset{x}
  {
    if s != [] && key(x) < key(s[0]) {
      var tail := s[1..];
      assert s == [s[0]] + tail;
      InsertPermutes(x, tail, key);
      assert Insert(x, s, key) == [s[0]] + Insert(x, tail, key);
    }
  }

  /** A descending sort by `key`, by insertion. */
  function SortDesc<T>(s: seq<T>, key: T -> int): (r: seq<T>)
    ensures |r| == |s|
  {
    if s == [] then [] else Insert(s[0], SortDesc(s[1..], key), key)
  }

  /** The descending sort orders its result by the key. */
  lemma {:induction false} SortDescSorted<T>(s: seq<T>, key: T -> int)
    ensures SortedDesc(SortDesc(s, key), key)
  {
    if s != [] {
      SortDescSorted(s[1..], key);
      InsertSorted(s[0], SortDesc(s[1..], key), key);
    }
  }

  /** The descending sort is a permutation of its input. */
  lemma {:induction false} SortDescPermutes<T>(s: seq<T>, key: T -> int)
    ensures multiset(SortDesc(s, key)) == multiset(s)
  {
    if s != [] {
      var tail := s[1..];
      SortDescPermutes(tail, key);
      InsertPermutes(s[0], SortDesc(tail, key), key);
      assert s == [s[0]] + tail;
    }
  }

  function Reverse<T>(s: seq<T>): (r: seq<T>)
    ensures |r| == |s|
    ensures forall i :: 0 <= i < |s| ==> r[i] == s[|s| - 1 - i]
  {
    seq(|s|, i requires 0 <= i < |s| => s[|s| - 1 - i])
  }

  /** Inserting an element that is smaller than all the others appends it. */
  lemma {:induction false} InsertSmallest<T>(x: T, s: seq<T>, key: T -> int)
    requires forall i :: 0 <= i < |s| ==> key(x) < key(s[i])
    ensures Insert(x, s, key) == s + [x]
  {
    if s != [] {
      var tail := s[1..];
      assert forall i :: 0 <= i < |tail| ==> tail[i] == s[i + 1];
      InsertSmallest(x, tail, key);
      assert s == [s[0]] + tail;
    }
  }

  lemma ReverseFront<T>(s: seq<T>)
    requires s != []
    ensures Reverse(s) == Reverse(s[1..]) + [s[0]]
  {
    var l, r := Reverse(s), Reverse(s[1..]) + [s[0]];
    assert forall i :: 0 <= i < |s| ==> l[i] == r[i];
  }

  /** On a strictly ascending sequence, the descending sort is the reversal. */
  lemma {:induction false} SortDescOfAscending<T>(s: seq<T>, key: T -> int)
    requires StrictlyAscending(s, key)
    ensures SortDesc(s, key) == Reverse(s)
  {
    if s != [] {
      var tail := s[1..];
      assert StrictlyAscending(tail, key);
      SortDescOfAscending(tail, key);
      var rt := Reverse(tail);
      assert forall i :: 0 <= i < |rt| ==> rt[i] == s[|s| - 1 - i];
      InsertSmallest(s[0], rt, key);
      ReverseFront(s);
    }
  }

  /** Reversing the first `n` elements of a reversal gives the last `n` elements. */
  lemma ReversedPrefix<T>(s: seq<T>, n: nat)
    requires n <= |s|
    ensures Reverse(Reverse(s)[..n]) == s[|s| - n..]
  {
    var p := Reverse(s)[..n];
    var r := Reverse(p);
    var t := s[|s| - n..];
    assert |r| == n == |t|;
    forall i | 0 <= i < n ensures r[i] == t[i] {
      assert r[i] == p[n - 1 - i];
      assert p[n - 1 - i] == Reverse(s)[n - 1 - i];
      assert Reverse(s)[n - 1 - i] == s[|s| - n + i];
    }
  }

  /** An element below all keys of an ascending sequence can go in front of it. */
  lemma PrependSmallest<T>(x: T, s: seq<T>, key: T -> int)
    requires StrictlyAscending(s, key)
    requires forall y :: y in s ==> key(x) < key(y)
    ensures StrictlyAscending([x] + s, key)
  {
    var r := [x] + s;
    forall i, j | 0 <= i < j < |r| ensures key(r[i]) < key(r[j]) {
      assert r[j] == s[j - 1];
      if i > 0 { assert r[i] == s[i - 1]; }
    }
  }

  /** The first `n` of a descending sequence, reversed, ascend. */
  lemma ReversedPrefixAscends<T>(sorted: seq<T>, key: T -> int, n: nat)
    requires n <= |sorted| && SortedDesc(sorted, key)
    ensures var r := Reverse(sorted[..n]);
      && |r| == n
      && (forall i :: 0 <= i < n ==> r[i] == sorted[n - 1 - i])
      && (forall i, j :: 0 <= i < j < n ==> key(r[i]) <= key(r[j]))
  {
    var r := Reverse(sorted[..n]);
    forall i, j | 0 <= i < j < n ensures key(r[i]) <= key(r[j]) {
      assert r[i] == sorted[n - 1 - i] && r[j] == sorted[n - 1 - j];
    }
  }

  /** Elements of a permutation of `s` are elements of `s`. */
  lemma PermutationMembers<T>(p: seq<T>, s: seq<T>)
    requires multiset(p) == multiset(s)
    ensures forall i :: 0 <= i < |p| ==> p[i] in s
  {
    forall i | 0 <= i < |p| ensures p[i] in s {
      assert p[i] in multiset(p);
    }
  }

  /** The first `n` of a descending sort, reversed: ascending, and drawn from `s`. */
  lemma TopReversed<T>(s: seq<T>, key: T -> int, n: nat)
    requires n <= |s|
    ensures var r := Reverse(SortDesc(s, key)[..n]);
      && |r| == n
      && (forall i :: 0 <= i < n ==> r[i] in s)
      && (forall i, j :: 0 <= i < j < n ==> key(r[i]) <= key(r[j]))
  {
    var sorted := SortDesc(s, key);
    SortDescSorted(s, key);
    ReversedPrefixAscends(sorted, key, n);
    SortDescPermutes(s, key);
    PermutationMembers(sorted, s);
  }

  /** In a strictly ascending sequence a suffix ascends, and holds the largest keys. */
  lemma SuffixHoldsLargest<T>(s: seq<T>, key: T -> int, start: nat)
    requires start <= |s|
    requires StrictlyAscending(s, key)
    ensures StrictlyAscending(s[start..], key)
    ensures forall y, z :: y in s && y !in s[start..] && z in s[start..] ==> key(y) < key(z)
  {
    var t := s[start..];
    assert forall i :: 0 <= i < |t| ==> t[i] == s[start + i];
    assert forall i :: start <= i < |s| ==> s[i] in t by {
      forall i | start <= i < |s| ensures s[i] in t { assert t[i - start] == s[i]; }
    }
    forall y, z | y in s && y !in t && z in t ensures key(y) < key(z) {
      var p :| 0 <= p < |s| && s[p] == y;
      var q :| 0 <= q < |t| && t[q] == z;
      assert p < start + q;
    }
  }
}
