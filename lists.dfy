/** Facts about Python lists used by several parts of the front-end. */
module Lists {

  /** No value occurs twice. */
  predicate NoDuplicates<T(==)>(xs: seq<T>) {
    forall i, j :: 0 <= i < j < |xs| ==> xs[i] != xs[j]
  }

  /** `sub` is `xs` with some elements left out, the rest kept in order. */
  predicate Subsequence<T(==)>(sub: seq<T>, xs: seq<T>)
    decreases |xs|
  {
    if xs == [] then sub == []
    else Subsequence(sub, xs[1..]) || (sub != [] && sub[0] == xs[0] && Subsequence(sub[1..], xs[1..]))
  }

  /** Every value of a subsequence is a value of the sequence. */
  lemma {:induction false} SubsequenceMembers<T>(sub: seq<T>, xs: seq<T>)
    requires Subsequence(sub, xs)
    ensures forall x :: x in sub ==> x in xs
    decreases |xs|
  {
    if xs != [] {
      assert forall x :: x in xs[1..] ==> x in xs;
      if Subsequence(sub, xs[1..]) {
        SubsequenceMembers(sub, xs[1..]);
      } else {
        SubsequenceMembers(sub[1..], xs[1..]);
        assert forall x :: x in sub ==> x == sub[0] || x in sub[1..];
      }
    }
  }

  /** The tail of a list without duplicates has none either, and lacks the head. */
  lemma NoDuplicatesTail<T>(xs: seq<T>)
    requires xs != [] && NoDuplicates(xs)
    ensures NoDuplicates(xs[1..]) && xs[0] !in xs[1..]
  {
    forall i, j | 0 <= i < j < |xs[1..]| ensures xs[1..][i] != xs[1..][j] {
      assert xs[1..][i] == xs[i + 1] && xs[1..][j] == xs[j + 1];
    }
    forall k | 0 <= k < |xs[1..]| ensures xs[1..][k] != xs[0] {
      assert xs[1..][k] == xs[k + 1];
    }
  }

  /** A subsequence of a list without duplicates has none either. */
  lemma {:induction false} SubsequenceNoDuplicates<T>(sub: seq<T>, xs: seq<T>)
    requires Subsequence(sub, xs) && NoDuplicates(xs)
    ensures NoDuplicates(sub)
    decreases |xs|
  {
    if xs != [] {
      NoDuplicatesTail(xs);
      if Subsequence(sub, xs[1..]) {
        SubsequenceNoDuplicates(sub, xs[1..]);
      } else {
        SubsequenceNoDuplicates(sub[1..], xs[1..]);
        SubsequenceMembers(sub[1..], xs[1..]);
        forall i, j | 0 <= i < j < |sub| ensures sub[i] != sub[j] {
          assert sub[j] == sub[1..][j - 1];
          if i > 0 {
            assert sub[i] == sub[1..][i - 1];
          }
        }
      }
    }
  }

  /** The indices of `xs` whose values satisfy `p`. */
  function Positions<T>(xs: seq<T>, p: T -> bool): set<nat> {
    set i: nat | i < |xs| && p(xs[i])
  }

  /** One more value adds its index when it satisfies `p`, and nothing otherwise. */
  lemma PositionsSnoc<T>(xs: seq<T>, x: T, p: T -> bool)
    ensures |Positions(xs + [x], p)| == |Positions(xs, p)| + (if p(x) then 1 else 0)
  {
    var before, after := Positions(xs, p), Positions(xs + [x], p);
    assert forall i: nat :: i < |xs| ==> (xs + [x])[i] == xs[i];
    if p(x) {
      assert after == before + {|xs|};
      assert |xs| !in before;
    } else {
      assert after == before;
    }
  }

  /** Every list is a subsequence of itself. */
  lemma {:induction false} SubsequenceRefl<T>(xs: seq<T>)
    ensures Subsequence(xs, xs)
    decreases |xs|
  {
    if xs != [] {
      SubsequenceRefl(xs[1..]);
    }
  }
}
