/** Failure-carrying datatypes shared by the model: the Python code signals errors by raising
    exceptions, which the model returns as values instead. */
module Wrappers {

  datatype Option<T> = None | Some(value: T)

  /** A computation that yields a value or raises an exception with a message. */
  datatype Result<T> = Success(value: T) | Failure(error: string)

  /** A computation that returns nothing (Python `None`) or raises an exception with a message. */
  datatype Outcome = Pass | Fail(error: string)

  /** `xs` is obtained from `ys` by deleting some elements (order is kept). The greedy match from
      the back is complete for this question. */
  ghost predicate IsSubsequence<T>(xs: seq<T>, ys: seq<T>)
    decreases |ys|
  {
    if xs == [] then true
    else if ys == [] then false
    else if xs[|xs| - 1] == ys[|ys| - 1] then IsSubsequence(xs[..|xs| - 1], ys[..|ys| - 1])
    else IsSubsequence(xs, ys[..|ys| - 1])
  }

  /** The elements of `xs` in first-occurrence order, each once. */
  function Distinct<T(==,!new)>(xs: seq<T>): (r: seq<T>)
    ensures forall x :: x in r <==> x in xs
    ensures forall i, j :: 0 <= i < j < |r| ==> r[i] != r[j]
    ensures IsSubsequence(r, xs)
    decreases |xs|
  {
    if xs == [] then []
    else
      var prev := Distinct(xs[..|xs| - 1]);
      var last := xs[|xs| - 1];
      assert xs == xs[..|xs| - 1] + [last];
      if last in prev then SubsequenceOfPrefix(prev, xs); prev else prev + [last]
  }

  /** `Distinct` keeps first-occurrence order: wherever a later element of the result occurs in
      `xs`, every earlier element of the result has already occurred. With the contract of
      `Distinct`, this fixes the result: `[2, 1]` is not `Distinct([1, 2, 1])`. */
  lemma {:induction false} DistinctFirstOrder<T(!new)>(xs: seq<T>)
    ensures forall i, j, k :: 0 <= i < j < |Distinct(xs)| && 0 <= k < |xs| && xs[k] == Distinct(xs)[j] ==>
      Distinct(xs)[i] in xs[..k]
    decreases |xs|
  {
    if xs != [] {
      var prefix := xs[..|xs| - 1];
      var last := xs[|xs| - 1];
      var prev := Distinct(prefix);
      var r := Distinct(xs);
      DistinctFirstOrder(prefix);
      assert xs == prefix + [last];
      assert r == if last in prev then prev else prev + [last];
      forall i, j, k | 0 <= i < j < |r| && 0 <= k < |xs| && xs[k] == r[j] ensures r[i] in xs[..k] {
        if k < |xs| - 1 {
          assert xs[..k] == prefix[..k];
          assert prefix[k] == xs[k];
          if j < |prev| {
            assert r[i] == prev[i] && r[j] == prev[j];
            assert 0 <= i < j < |prev| && 0 <= k < |prefix| && prefix[k] == prev[j];
            assert prev[i] in prefix[..k];
          } else {
            // r[j] would be `last`, which is new in `prev` and so cannot occur in the prefix
            assert false;
          }
        } else {
          assert xs[..k] == prefix;
          assert i < |prev| && r[i] == prev[i];
          assert prev[i] in prev;
        }
      }
    }
  }

  /** A subsequence of the prefix of `ys` without its last element is a subsequence of `ys`. */
  lemma {:induction false} SubsequenceOfPrefix<T>(xs: seq<T>, ys: seq<T>)
    requires ys != [] && IsSubsequence(xs, ys[..|ys| - 1])
    ensures IsSubsequence(xs, ys)
    decreases |ys|, 0
  {
    if xs != [] && xs[|xs| - 1] == ys[|ys| - 1] {
      // xs is a subsequence of ys without its last element, so xs without its last one is too
      SubsequenceDropLast(xs, ys[..|ys| - 1]);
    }
  }

  /** Dropping the last element of a subsequence keeps it a subsequence. */
  lemma {:induction false} SubsequenceDropLast<T>(xs: seq<T>, ys: seq<T>)
    requires xs != [] && IsSubsequence(xs, ys)
    ensures IsSubsequence(xs[..|xs| - 1], ys)
    decreases |ys|, 1
  {
    var ys' := ys[..|ys| - 1];
    if xs[|xs| - 1] == ys[|ys| - 1] {
      SubsequenceOfPrefix(xs[..|xs| - 1], ys);
    } else {
      SubsequenceDropLast(xs, ys');
      SubsequenceOfPrefix(xs[..|xs| - 1], ys);
    }
  }
}
