/** Finite sums of real sequences, as Python's built-in `sum` computes them over a list. */
module Sums {

  /** The sum of all elements, first to last. */
  function Sum(s: seq<real>): real
  {
    if s == [] then 0.0 else s[0] + Sum(s[1..])
  }

  lemma {:induction false} SumAppend(a: seq<real>, b: seq<real>)
    ensures Sum(a + b) == Sum(a) + Sum(b)
  {
    if a == [] {
      assert a + b == b;
    } else {
      assert (a + b)[1..] == a[1..] + b;
      SumAppend(a[1..], b);
    }
  }

  /** Cutting a sequence at `i` and `j` splits its sum into the sums of the three pieces. */
  lemma SumSplitThree(s: seq<real>, i: nat, j: nat)
    requires i <= j <= |s|
    ensures Sum(s) == Sum(s[..i]) + Sum(s[i..j]) + Sum(s[j..])
  {
    assert s == s[..i] + s[i..j] + s[j..];
    SumAppend(s[..i] + s[i..j], s[j..]);
    SumAppend(s[..i], s[i..j]);
  }

  /** Dropping the last element subtracts it from the sum. */
  lemma SumDropLast(s: seq<real>)
    requires s != []
    ensures Sum(s) == Sum(s[..|s| - 1]) + s[|s| - 1]
  {
    assert s == s[..|s| - 1] + [s[|s| - 1]];
    SumAppend(s[..|s| - 1], [s[|s| - 1]]);
  }

  lemma {:induction false} SumNonNegative(s: seq<real>)
    requires forall i :: 0 <= i < |s| ==> s[i] >= 0.0
    ensures Sum(s) >= 0.0
  {
    if s != [] {
      SumNonNegative(s[1..]);
    }
  }

  /** A sequence whose every element is zero sums to zero. */
  lemma {:induction false} SumZero(s: seq<real>)
    ensures (forall i :: 0 <= i < |s| ==> s[i] == 0.0) ==> Sum(s) == 0.0
  {
    if s != [] {
      SumZero(s[1..]);
    }
  }

  /** A sequence whose every element is `v` sums to its length times `v`. */
  lemma {:induction false} SumConstant(s: seq<real>, v: real)
    requires forall i :: 0 <= i < |s| ==> s[i] == v
    ensures Sum(s) == |s| as real * v
  {
    if s != [] {
      SumConstant(s[1..], v);
    }
  }

  lemma SumOfFive(s: seq<real>)
    requires |s| == 5
    ensures Sum(s) == s[0] + s[1] + s[2] + s[3] + s[4]
  {
    assert Sum(s[4..]) == s[4] + Sum(s[5..]);
    assert Sum(s[3..]) == s[3] + Sum(s[4..]);
    assert Sum(s[2..]) == s[2] + Sum(s[3..]);
    assert Sum(s[1..]) == s[1] + Sum(s[2..]);
  }

  /** Summing element-wise sums is summing the two sums. */
  lemma {:induction false} SumPointwise(a: seq<real>, b: seq<real>, c: seq<real>)
    requires |a| == |b| == |c|
    requires forall i :: 0 <= i < |c| ==> c[i] == a[i] + b[i]
    ensures Sum(c) == Sum(a) + Sum(b)
  {
    if c != [] {
      SumPointwise(a[1..], b[1..], c[1..]);
    }
  }

  /** The sums of the consecutive blocks of five elements of `s`. */
  function BlockSums(s: seq<real>): (r: seq<real>)
    requires |s| % 5 == 0
    ensures |r| == |s| / 5
  {
    seq(|s| / 5, i requires 0 <= i < |s| / 5 => Sum(s[5 * i..5 * i + 5]))
  }

  /** The block sums together account for every element exactly once. */
  lemma {:induction false} SumBlockSums(s: seq<real>)
    requires |s| % 5 == 0
    ensures Sum(BlockSums(s)) == Sum(s)
  {
    if s != [] {
      var head, tail := s[..5], s[5..];
      assert s == head + tail;
      SumAppend(head, tail);
      assert BlockSums(s)[1..] == BlockSums(tail) by {
        forall i | 0 <= i < |tail| / 5
          ensures BlockSums(s)[1..][i] == BlockSums(tail)[i]
        {
          assert s[5 * (i + 1)..5 * (i + 1) + 5] == tail[5 * i..5 * i + 5];
        }
      }
      SumBlockSums(tail);
    }
  }

  /** Element-wise negation. */
  function Negated(s: seq<real>): (r: seq<real>)
    ensures |r| == |s|
    ensures forall i :: 0 <= i < |s| ==> r[i] + s[i] == 0.0
  {
    seq(|s|, i requires 0 <= i < |s| => -s[i])
  }

}
