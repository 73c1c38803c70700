/** Sequence facts shared by the model: subsequences, duplicate-freedom,
    first occurrences, and order-preserving deduplication (the behaviour of
    a table's drop_duplicates, which keeps the first row of each value). */
module Seqs {

  /** The distinct elements of a sequence. */
  function Elements<T>(s: seq<T>): set<T>
  {
    set x | x in s
  }

  /** `sub` can be obtained from `s` by deleting elements, keeping order. */
  predicate Subsequence<T(==)>(sub: seq<T>, s: seq<T>)
    decreases |s|
  {
    if |sub| == 0 then true
    else if |s| == 0 then false
    else (sub[0] == s[0] && Subsequence(sub[1..], s[1..])) || Subsequence(sub, s[1..])
  }

  predicate NoDuplicates<T(==)>(s: seq<T>)
  {
    forall i, j :: 0 <= i < j < |s| ==> s[i] != s[j]
  }

  /** Position of the first occurrence of `x` in `s`. */
  function FirstIndex<T(==)>(s: seq<T>, x: T): (r: nat)
    requires x in s
    ensures r < |s| && s[r] == x
    ensures forall k :: 0 <= k < r ==> s[k] != x
  {
    if s[0] == x then 0 else 1 + FirstIndex(s[1..], x)
  }

  /** Extending a sequence does not move the first occurrence of an element
      already present. */
  lemma FirstIndexOfPrefix<T>(p: seq<T>, s: seq<T>, x: T)
    requires x in p
    requires |p| <= |s| && p == s[..|p|]
    ensures FirstIndex(s, x) == FirstIndex(p, x)
  {
    var i, j := FirstIndex(s, x), FirstIndex(p, x);
    assert s[j] == p[j];
  }

  /** Order-preserving deduplication: the first occurrence of every value,
      in input order. */
  function Dedup<T(==)>(s: seq<T>): (r: seq<T>)
    ensures NoDuplicates(r)
    ensures forall i :: 0 <= i < |r| ==> r[i] in s
    ensures forall i :: 0 <= i < |s| ==> s[i] in r
    ensures |r| <= |s|
    decreases |s|
  {
    if |s| == 0 then []
    else
      var p := s[..|s| - 1];
      var last := s[|s| - 1];
      var rest := Dedup(p);
      assert s == p + [last];
      if last in rest then rest else rest + [last]
  }

  /** Dedup lists the kept values in the order of their first occurrences
      in the input. */
  lemma {:induction false} DedupFirstOccurrenceOrder<T>(s: seq<T>)
    ensures forall i, j :: 0 <= i < j < |Dedup(s)| ==>
      FirstIndex(s, Dedup(s)[i]) < FirstIndex(s, Dedup(s)[j])
    decreases |s|
  {
    if |s| > 0 {
      var p := s[..|s| - 1];
      var last := s[|s| - 1];
      var rest := Dedup(p);
      assert s == p + [last];
      DedupFirstOccurrenceOrder(p);
      forall i | 0 <= i < |rest|
        ensures FirstIndex(s, rest[i]) == FirstIndex(p, rest[i])
      {
        FirstIndexOfPrefix(p, s, rest[i]);
      }
      if last !in rest {
        assert FirstIndex(s, last) == |s| - 1;
      }
    }
  }

  /** A duplicate-free sequence has as many elements as distinct values. */
  lemma {:induction false} NoDuplicatesCardinality<T>(s: seq<T>)
    requires NoDuplicates(s)
    ensures |Elements(s)| == |s|
  {
    if |s| > 0 {
      var p := s[..|s| - 1];
      var last := s[|s| - 1];
      assert s == p + [last];
      assert NoDuplicates(p);
      NoDuplicatesCardinality(p);
      assert Elements(s) == Elements(p) + {last};
      assert last !in Elements(p);
    }
  }

  /** Dedup keeps exactly one element per distinct value of its input. */
  lemma DedupLength<T>(s: seq<T>)
    ensures |Dedup(s)| == |Elements(s)|
  {
    var r := Dedup(s);
    NoDuplicatesCardinality(r);
    assert Elements(r) == Elements(s) by {
      forall x | x in Elements(s) ensures x in Elements(r) {
        var i :| 0 <= i < |s| && s[i] == x;
      }
    }
  }

  /** Elementwise image of a sequence under `f`. */
  function Map<T, U>(f: T -> U, s: seq<T>): (r: seq<U>)
    ensures |r| == |s|
    ensures forall i :: 0 <= i < |s| ==> r[i] == f(s[i])
  {
    seq(|s|, i requires 0 <= i < |s| => f(s[i]))
  }

  lemma {:induction false} ElementsBound<T>(s: seq<T>)
    ensures |Elements(s)| <= |s|
  {
    if |s| > 0 {
      var p := s[..|s| - 1];
      assert s == p + [s[|s| - 1]];
      ElementsBound(p);
      assert Elements(s) == Elements(p) + {s[|s| - 1]};
    }
  }
}
