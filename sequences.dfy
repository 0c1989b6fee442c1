/** Sequence operations the comparison is built from: `[...new Set(xs)]`, the
    deduplication that keeps the first occurrence of each value in order. */
module Sequences {

  /** No value occurs twice in s. */
  predicate NoDuplicates<T(==,!new)>(s: seq<T>) {
    forall i, j :: 0 <= i < j < |s| ==> s[i] != s[j]
  }

  /** The position of the first occurrence of x in s. */
  function FirstIndex<T(==,!new)>(s: seq<T>, x: T): (k: nat)
    requires x in s
    ensures k < |s| && s[k] == x && x !in s[..k]
  {
    if s[0] == x then 0
    else
      var k := FirstIndex(s[1..], x);
      assert s[..k + 1] == [s[0]] + s[1..][..k];
      1 + k
  }

  /** Appending to s does not move the first occurrence of a value already in s. */
  lemma FirstIndexUnique<T(!new)>(s: seq<T>, x: T, k: nat)
    requires k < |s| && s[k] == x && x !in s[..k]
    ensures FirstIndex(s, x) == k
  {
    var m := FirstIndex(s, x);
    assert forall j :: 0 <= j < k ==> s[j] == s[..k][j];
    assert forall j :: 0 <= j < m ==> s[j] == s[..m][j];
  }

  /** Appending to s does not move the first occurrence of a value already in s. */
  lemma FirstIndexOfPrefix<T(!new)>(s: seq<T>, t: seq<T>, x: T)
    requires x in s
    ensures x in s + t && FirstIndex(s + t, x) == FirstIndex(s, x)
  {
    var k := FirstIndex(s, x);
    assert (s + t)[..k] == s[..k];
    FirstIndexUnique(s + t, x, k);
  }

  /** `[...new Set(s)]`: a Set remembers insertion order, and inserting a value
      it already holds changes nothing, so the result is s without repeats. */
  function Dedup<T(==,!new)>(s: seq<T>): (r: seq<T>)
    ensures NoDuplicates(r)
    ensures forall x :: x in r <==> x in s
    ensures |r| <= |s|
  {
    if s == [] then []
    else
      var d := Dedup(s[..|s| - 1]);
      var x := s[|s| - 1];
      assert s == s[..|s| - 1] + [x];
      if x in d then d else d + [x]
  }

  /** The values of Dedup(s) come in the order of their first occurrence in s. */
  lemma {:induction false} DedupFirstOccurrenceOrder<T(!new)>(s: seq<T>, i: nat, j: nat)
    requires i < j < |Dedup(s)|
    ensures FirstIndex(s, Dedup(s)[i]) < FirstIndex(s, Dedup(s)[j])
    decreases |s|
  {
    var init, x := s[..|s| - 1], s[|s| - 1];
    assert s == init + [x];
    var d := Dedup(init);
    var a, b := Dedup(s)[i], Dedup(s)[j];
    if j < |d| {
      DedupFirstOccurrenceOrder(init, i, j);
      FirstIndexOfPrefix(init, [x], a);
      FirstIndexOfPrefix(init, [x], b);
    } else {
      // b is x, appended because it does not occur earlier in s
      assert b == x && x !in init;
      FirstIndexOfPrefix(init, [x], a);
      assert s[..|init|] == init;
      FirstIndexUnique(s, b, |init|);
    }
  }

  /** Sequences are ordered by first occurrence in s. */
  predicate InFirstOccurrenceOrder<T(==,!new)>(s: seq<T>, r: seq<T>)
    requires forall x :: x in r ==> x in s
  {
    forall i, j :: 0 <= i < j < |r| ==> FirstIndex(s, r[i]) < FirstIndex(s, r[j])
  }

  /** Dedup(s) is the only sequence that holds each value of s exactly once
      in first-occurrence order. */
  lemma DedupIsUnique<T(!new)>(s: seq<T>, r: seq<T>)
    requires NoDuplicates(r)
    requires forall x :: x in r <==> x in s
    requires InFirstOccurrenceOrder(s, r)
    ensures r == Dedup(s)
  {
    var d := Dedup(s);
    forall i, j | 0 <= i < j < |d| ensures FirstIndex(s, d[i]) < FirstIndex(s, d[j]) {
      DedupFirstOccurrenceOrder(s, i, j);
    }
    OrderedUnique(s, r, d);
  }

  /** Two duplicate-free sequences with the same values, both ordered by first
      occurrence in s, are equal. */
  lemma {:induction false} OrderedUnique<T(!new)>(s: seq<T>, a: seq<T>, b: seq<T>)
    requires NoDuplicates(a) && NoDuplicates(b)
    requires forall x :: x in a ==> x in s
    requires forall x :: x in b ==> x in s
    requires forall x :: x in a <==> x in b
    requires InFirstOccurrenceOrder(s, a) && InFirstOccurrenceOrder(s, b)
    ensures a == b
    decreases |a|
  {
    assert a != [] ==> a[0] in b;
    assert b != [] ==> b[0] in a;
    if a != [] {
      var p :| 0 <= p < |a| && a[p] == b[0];
      var q :| 0 <= q < |b| && b[q] == a[0];
      assert FirstIndex(s, a[0]) <= FirstIndex(s, a[p]);
      assert FirstIndex(s, b[0]) <= FirstIndex(s, b[q]);
      assert a[0] == b[0];
      forall x ensures x in a[1..] <==> x in b[1..] {
        if x in a[1..] {
          assert x != a[0];
          assert x in b;
        }
        if x in b[1..] {
          assert x != b[0];
          assert x in a;
        }
      }
      OrderedUnique(s, a[1..], b[1..]);
      assert a == [a[0]] + a[1..];
      assert b == [b[0]] + b[1..];
    }
  }

  /** The positions of s whose element satisfies f. */
  function Positions<T>(s: seq<T>, f: T -> bool): set<nat> {
    set i: nat | i < |s| && f(s[i])
  }

  /** Appending an element adds its position exactly when it satisfies f. */
  lemma PositionsSnoc<T>(s: seq<T>, f: T -> bool)
    requires s != []
    ensures |Positions(s, f)| == |Positions(s[..|s| - 1], f)| + if f(s[|s| - 1]) then 1 else 0
  {
    var init, x := s[..|s| - 1], s[|s| - 1];
    var p, q := Positions(init, f), Positions(s, f);
    assert q == p + (if f(x) then {|init|} else {}) by {
      forall i: nat | i in q ensures i in p || i == |init| {
        if i < |init| { assert s[i] == init[i]; }
      }
      forall i: nat | i in p ensures i in q {
        assert s[i] == init[i];
      }
    }
  }
}
