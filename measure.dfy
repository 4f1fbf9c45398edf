/**
 * The two folds both layouts run over their measured children: the running
 * width sum and the running height maximum, each started at 0.
 */
module Measure {
  /** The `map` taking each child to one of its measurements. */
  function Project<T>(s: seq<T>, f: T -> int): (r: seq<int>)
    ensures |r| == |s|
    ensures forall i :: 0 <= i < |s| ==> r[i] == f(s[i])
  {
    seq(|s|, i requires 0 <= i < |s| => f(s[i]))
  }


  /** Reference sum of a sequence, peeling the last element. */
  function Sum(s: seq<int>): int
  {
    if s == [] then 0 else Sum(s[..|s| - 1]) + s[|s| - 1]
  }

  /** One more element extends a prefix sum by that element. */
  lemma SumPrefixStep(s: seq<int>, i: nat)
    requires i < |s|
    ensures Sum(s[..i + 1]) == Sum(s[..i]) + s[i]
  {
    assert s[..i + 1][..i] == s[..i];
  }

  /** The whole sequence is its own longest prefix. */
  lemma SumWhole(s: seq<int>)
    ensures Sum(s[..|s|]) == Sum(s)
  {
    assert s[..|s|] == s;
  }

  /** Sum peels the first element just as well as the last. */
  lemma {:induction false} SumFront(s: seq<int>)
    requires s != []
    ensures Sum(s) == s[0] + Sum(s[1..])
  {
    if |s| > 1 {
      SumFront(s[..|s| - 1]);
      assert s[..|s| - 1][1..] == s[1..][..|s[1..]| - 1];
    } else {
      assert s[1..] == [];
    }
  }

  /**
   * `fold(acc) { acc, w -> acc + w }`, the left fold Kotlin runs over the
   * measured widths.
   */
  function FoldSum(acc: int, s: seq<int>): int
    decreases |s|
  {
    if s == [] then acc else FoldSum(acc + s[0], s[1..])
  }

  /** The left fold from `acc` adds the reference sum to `acc`. */
  lemma {:induction false} FoldSumIsSum(acc: int, s: seq<int>)
    ensures FoldSum(acc, s) == acc + Sum(s)
    decreases |s|
  {
    if s != [] {
      FoldSumIsSum(acc + s[0], s[1..]);
      SumFront(s);
    }
  }

  /**
   * `fold(acc) { acc, h -> maxOf(acc, h) }`, the left fold Kotlin runs over the
   * children's intrinsic heights: the largest of `acc` and every element, and
   * one of them.
   */
  function FoldMax(acc: int, s: seq<int>): (r: int)
    ensures r >= acc
    ensures forall i :: 0 <= i < |s| ==> s[i] <= r
    ensures r == acc || exists i :: 0 <= i < |s| && r == s[i]
    decreases |s|
  {
    if s == [] then acc
    else
      var r := FoldMax(if acc >= s[0] then acc else s[0], s[1..]);
      assert forall i :: 1 <= i < |s| ==> s[i] == s[1..][i - 1];
      r
  }
}
