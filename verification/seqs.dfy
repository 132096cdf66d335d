/** Sequence helpers: order-preserving de-duplication (`Stream.distinct`) and
    the subsequence relation. */
module Seqs {

  predicate NoDuplicates<T(==)>(s: seq<T>) {
    forall i, j | 0 <= i < j < |s| :: s[i] != s[j]
  }

  /** The position of the first occurrence of `x` in `s`. */
  function FirstIndex<T(==)>(s: seq<T>, x: T): (k: nat)
    requires x in s
    ensures k < |s| && s[k] == x
    ensures forall l | 0 <= l < k :: s[l] != x
  {
    if s[0] == x then 0 else 1 + FirstIndex(s[1..], x)
  }

  /** An element of a prefix first occurs in the whole sequence where it
      first occurs in the prefix. */
  lemma FirstIndexInPrefix<T>(s: seq<T>, n: nat, x: T)
    requires n <= |s| && x in s[..n]
    ensures FirstIndex(s, x) == FirstIndex(s[..n], x)
  {
    var k := FirstIndex(s[..n], x);
    var k' := FirstIndex(s, x);
    assert s[k] == x;
    assert k' < n ==> s[..n][k'] == x;
  }

  /** Putting an element in front of a sequence keeps a repetition, and makes
      one when the element already occurs. */
  lemma ConsRepeats<T>(x: T, s: seq<T>)
    requires x in s || !NoDuplicates(s)
    ensures !NoDuplicates([x] + s)
  {
    if x in s {
      var k :| 0 <= k < |s| && s[k] == x;
      assert ([x] + s)[0] == ([x] + s)[k + 1];
    } else {
      var k, l :| 0 <= k < l < |s| && s[k] == s[l];
      assert ([x] + s)[k + 1] == ([x] + s)[l + 1];
    }
  }

  /** The elements of `s` without repetitions, each kept at its first
      occurrence, as `Stream.distinct` does: the result lists the distinct
      elements in the order in which they first occur. */
  function Dedup<T(==)>(s: seq<T>): (r: seq<T>)
    ensures DistinctInOrder(s, r)
  {
    if |s| == 0 then []
    else
      var r' := Dedup(s[..|s| - 1]);
      DedupStep(s, r');
      if s[|s| - 1] in r' then r' else r' + [s[|s| - 1]]
  }

  /** The properties `Dedup` promises, as a predicate. */
  ghost predicate DistinctInOrder<T>(s: seq<T>, r: seq<T>) {
    && (forall i | 0 <= i < |r| :: r[i] in s)
    && (forall i | 0 <= i < |s| :: s[i] in r)
    && NoDuplicates(r)
    && InOrder(s, r)
    && |r| <= |s|
  }

  /** The elements of `r` occur in `s`, and in the order of their first
      occurrences there. */
  ghost predicate InOrder<T>(s: seq<T>, r: seq<T>) {
    forall i, j {:trigger FirstIndex(s, r[i]), FirstIndex(s, r[j])} | 0 <= i < j < |r| ::
      r[i] in s && r[j] in s && FirstIndex(s, r[i]) < FirstIndex(s, r[j])
  }

  /** Growing `s` by one element keeps `r` in first-occurrence order, and `r`
      may take that element at its end when it occurs nowhere earlier. */
  lemma InOrderExtend<T>(s: seq<T>, r: seq<T>)
    requires |s| > 0
    requires forall i | 0 <= i < |r| :: r[i] in s[..|s| - 1]
    requires InOrder(s[..|s| - 1], r)
    ensures InOrder(s, r)
    ensures s[|s| - 1] !in s[..|s| - 1] ==> InOrder(s, r + [s[|s| - 1]])
  {
    var init := s[..|s| - 1];
    forall i | 0 <= i < |r| ensures r[i] in s && FirstIndex(s, r[i]) == FirstIndex(init, r[i]) < |s| - 1 {
      FirstIndexInPrefix(s, |s| - 1, r[i]);
    }
    if s[|s| - 1] !in init {
      assert FirstIndex(s, s[|s| - 1]) == |s| - 1;
      var r2 := r + [s[|s| - 1]];
      assert forall i | 0 <= i < |r| :: r2[i] == r[i];
    }
  }

  /** One step of `Dedup`: from the distinct elements of all but the last
      element of `s`, in first-occurrence order, appending the last element
      when it is new gives the distinct elements of `s` in that order. */
  lemma DedupStep<T>(s: seq<T>, r: seq<T>)
    requires |s| > 0 && DistinctInOrder(s[..|s| - 1], r)
    ensures DistinctInOrder(s, if s[|s| - 1] in r then r else r + [s[|s| - 1]])
  {
    var init := s[..|s| - 1];
    var last := s[|s| - 1];
    assert s == init + [last];
    InOrderExtend(s, r);
    if last !in r {
      assert last !in init;
      var r2 := r + [last];
      assert forall i | 0 <= i < |r| :: r2[i] == r[i];
      assert forall i | 0 <= i < |s| :: s[i] in r2 by {
        forall i | 0 <= i < |s| ensures s[i] in r2 {
          if i < |s| - 1 { assert s[i] == init[i]; }
        }
      }
    } else {
      assert forall i | 0 <= i < |s| :: s[i] in r by {
        forall i | 0 <= i < |s| ensures s[i] in r {
          if i < |s| - 1 { assert s[i] == init[i]; }
        }
      }
    }
  }

  /** A repetition-free sequence has as many elements as its set. */
  lemma {:induction false} DistinctCardinality<T>(s: seq<T>)
    requires NoDuplicates(s)
    ensures |set x | x in s| == |s|
  {
    if |s| > 0 {
      var init := s[..|s| - 1];
      assert NoDuplicates(init);
      DistinctCardinality(init);
      assert s[|s| - 1] !in init by {
        forall i | 0 <= i < |init| ensures init[i] != s[|s| - 1] {
          assert init[i] == s[i];
        }
      }
      assert s == init + [s[|s| - 1]];
      assert (set x | x in s) == (set x | x in init) + {s[|s| - 1]};
    }
  }

  /** De-duplication keeps one copy of every distinct element. */
  lemma DedupCardinality<T>(s: seq<T>)
    ensures |Dedup(s)| == |set x | x in s|
  {
    DistinctCardinality(Dedup(s));
    assert (set x | x in Dedup(s)) == (set x | x in s);
  }

  /** `a` can be obtained from `b` by deleting elements. */
  ghost predicate SubsequenceOf<T>(a: seq<T>, b: seq<T>)
    decreases |b|
  {
    if |a| == 0 then true
    else if |b| == 0 then false
    else if a[|a| - 1] == b[|b| - 1] then SubsequenceOf(a[..|a| - 1], b[..|b| - 1])
    else SubsequenceOf(a, b[..|b| - 1])
  }

  /** Putting the same element in front of both sides keeps the relation, and
      so does putting any element in front of the longer side only. */
  lemma {:induction false} SubsequencePrepend<T>(x: T, a: seq<T>, b: seq<T>)
    requires SubsequenceOf(a, b)
    ensures SubsequenceOf(a, [x] + b)
    ensures SubsequenceOf([x] + a, [x] + b)
    decreases |b|
  {
    if |b| == 0 {
      assert ([x] + a)[..0] == [];
    } else {
      var b' := b[..|b| - 1];
      assert ([x] + b)[..|b|] == [x] + b';
      assert ([x] + b)[|b|] == b[|b| - 1];
      if |a| == 0 {
        SubsequencePrepend(x, a, b');
      } else {
        var a' := a[..|a| - 1];
        assert ([x] + a)[..|a|] == [x] + a';
        assert ([x] + a)[|a|] == a[|a| - 1];
        if a[|a| - 1] == b[|b| - 1] {
          SubsequencePrepend(x, a', b');
        } else {
          SubsequencePrepend(x, a, b');
        }
      }
    }
  }
}
