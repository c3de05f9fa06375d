/** Single-cycle match construction: after the shuffle, every participant
    gives to the next one in the shuffled order and the last gives to the
    first, so the assignment is one ring through everybody. */
module Cycle {
  import opened Models

  /** The (giver, receiver) pairs built from a shuffled order. */
  function CyclePairs(order: seq<nat>): (pairs: seq<(nat, nat)>)
    ensures |pairs| == |order|
  {
    seq(|order|, i requires 0 <= i < |order| => (order[i], order[(i + 1) % |order|]))
  }

  /** The construction loop: one pair appended per position of the order. */
  method BuildCycle(order: seq<nat>) returns (pairs: seq<(nat, nat)>)
    ensures pairs == CyclePairs(order)
  {
    pairs := [];
    for i := 0 to |order|
      invariant pairs == CyclePairs(order)[..i]
    {
      pairs := pairs + [(order[i], order[(i + 1) % |order|])];
    }
  }

  /** The defensive check run on the pairs: nobody gives to themselves. */
  predicate NoSelfPairs(pairs: seq<(nat, nat)>)
  {
    forall i :: 0 <= i < |pairs| ==> pairs[i].0 != pairs[i].1
  }

  function Givers(pairs: seq<(nat, nat)>): (g: seq<nat>)
    ensures |g| == |pairs| && forall i :: 0 <= i < |pairs| ==> g[i] == pairs[i].0
  {
    seq(|pairs|, i requires 0 <= i < |pairs| => pairs[i].0)
  }

  function Receivers(pairs: seq<(nat, nat)>): (r: seq<nat>)
    ensures |r| == |pairs| && forall i :: 0 <= i < |pairs| ==> r[i] == pairs[i].1
  {
    seq(|pairs|, i requires 0 <= i < |pairs| => pairs[i].1)
  }

  /** Who each giver gives to; for a repeated giver the first pair wins. */
  function Successor(pairs: seq<(nat, nat)>): map<nat, nat>
  {
    if pairs == [] then map[] else Successor(pairs[1..])[pairs[0].0 := pairs[0].1]
  }

  /** Where following giver -> receiver for k steps from x leads. */
  function Walk(succ: map<nat, nat>, x: nat, k: nat): Option<nat>
  {
    if k == 0 then Some(x)
    else
      match Walk(succ, x, k - 1)
      case None => None
      case Some(y) => if y in succ then Some(succ[y]) else None
  }

  /** The pairs form one cycle through exactly the ids: each id gives once and
      receives once, nobody gives to themselves, and following the
      assignment from any id returns to it after exactly |ids| steps, having
      met every id on the way. */
  ghost predicate SingleCycle(pairs: seq<(nat, nat)>, ids: seq<nat>)
  {
    && multiset(Givers(pairs)) == multiset(ids)
    && multiset(Receivers(pairs)) == multiset(ids)
    && NoSelfPairs(pairs)
    && (forall x, k :: x in ids && 0 < k < |pairs| ==> Walk(Successor(pairs), x, k) != Some(x))
    && (forall x :: x in ids ==> Walk(Successor(pairs), x, |pairs|) == Some(x))
    && (forall x, y :: x in ids && y in ids ==> Reaches(Successor(pairs), x, y, |pairs|))
  }

  /** Some walk of fewer than n steps leads from x to y. */
  ghost predicate Reaches(succ: map<nat, nat>, x: nat, y: nat, n: nat)
  {
    exists k :: 0 <= k < n && Walk(succ, x, k) == Some(y)
  }

  lemma {:induction false} SuccessorAt(pairs: seq<(nat, nat)>, i: nat)
    requires Distinct(Givers(pairs))
    requires i < |pairs|
    ensures pairs[i].0 in Successor(pairs) && Successor(pairs)[pairs[i].0] == pairs[i].1
  {
    if i > 0 {
      var rest := pairs[1..];
      assert Givers(rest) == Givers(pairs)[1..];
      assert Givers(pairs)[0] != Givers(pairs)[i];
      SuccessorAt(rest, i - 1);
    }
  }

  lemma SuccessorIndex(i: nat, n: nat)
    requires i < n
    ensures (i + 1) % n == if i + 1 < n then i + 1 else 0
  {
  }

  function Wrap(j: nat, n: nat): nat
  {
    if j < n then j else j - n
  }

  /** Walking k steps from position i of the order lands on position i + k,
      counted round the ring. */
  lemma {:induction false} WalkAlongOrder(order: seq<nat>, i: nat, k: nat)
    requires Distinct(order)
    requires i < |order| && k <= |order|
    ensures Wrap(i + k, |order|) < |order|
    ensures Walk(Successor(CyclePairs(order)), order[i], k) == Some(order[Wrap(i + k, |order|)])
  {
    if k > 0 {
      WalkAlongOrder(order, i, k - 1);
      StepAlongOrder(order, Wrap(i + k - 1, |order|));
    }
  }

  /** The giver at position w of the order gives to the next position. */
  lemma StepAlongOrder(order: seq<nat>, w: nat)
    requires Distinct(order) && w < |order|
    ensures order[w] in Successor(CyclePairs(order))
    ensures Successor(CyclePairs(order))[order[w]] == order[Wrap(w + 1, |order|)]
  {
    var pairs := CyclePairs(order);
    assert Givers(pairs) == order;
    SuccessorAt(pairs, w);
    SuccessorIndex(w, |order|);
  }

  lemma {:induction false} DistinctCounts(s: seq<nat>)
    ensures Distinct(s) <==> forall x :: multiset(s)[x] <= 1
  {
    if s != [] {
      var rest := s[1..];
      assert s == [s[0]] + rest;
      DistinctCounts(rest);
      assert multiset(s) == multiset{s[0]} + multiset(rest);
      if Distinct(s) {
        assert Distinct(rest) by {
          forall i, j | 0 <= i < j < |rest| ensures rest[i] != rest[j] {
            assert rest[i] == s[i + 1] && rest[j] == s[j + 1];
          }
        }
      }
      if forall x :: multiset(s)[x] <= 1 {
        forall x ensures multiset(rest)[x] <= 1 {
          assert multiset(s)[x] == (if x == s[0] then 1 else 0) + multiset(rest)[x];
        }
        assert multiset(s)[s[0]] == 1 + multiset(rest)[s[0]];
        forall i, j | 0 <= i < j < |s| ensures s[i] != s[j] {
          if i == 0 {
            assert s[j] in rest;
          } else {
            assert s[i] == rest[i - 1] && s[j] == rest[j - 1];
          }
        }
      }
    }
  }

  /** A permutation of distinct ids is itself distinct. */
  lemma DistinctPermutation(a: seq<nat>, b: seq<nat>)
    requires Distinct(a) && multiset(a) == multiset(b)
    ensures Distinct(b)
  {
    DistinctCounts(a);
    DistinctCounts(b);
  }

  lemma CycleGiversReceivers(order: seq<nat>)
    ensures multiset(Givers(CyclePairs(order))) == multiset(order)
    ensures multiset(Receivers(CyclePairs(order))) == multiset(order)
  {
    var pairs := CyclePairs(order);
    assert Givers(pairs) == order;
    if order != [] {
      ReceiversRotate(order);
      RotateKeepsMultiset(order);
    }
  }

  /** The receivers are the order rotated by one. */
  lemma ReceiversRotate(order: seq<nat>)
    requires order != []
    ensures Receivers(CyclePairs(order)) == order[1..] + order[..1]
  {
    var n := |order|;
    var rotated := order[1..] + order[..1];
    forall i | 0 <= i < n ensures Receivers(CyclePairs(order))[i] == rotated[i] {
      SuccessorIndex(i, n);
    }
  }

  lemma RotateKeepsMultiset(order: seq<nat>)
    requires order != []
    ensures multiset(order[1..] + order[..1]) == multiset(order)
  {
    calc {
      multiset(order[1..] + order[..1]);
      multiset(order[..1] + order[1..]);
      { assert order[..1] + order[1..] == order; }
      multiset(order);
    }
  }

  lemma CycleReturnsAfterAll(order: seq<nat>)
    requires Distinct(order)
    ensures forall x, k :: x in order && 0 < k < |order| ==> Walk(Successor(CyclePairs(order)), x, k) != Some(x)
    ensures forall x :: x in order ==> Walk(Successor(CyclePairs(order)), x, |order|) == Some(x)
  {
    var n := |order|;
    forall x, k | x in order && 0 < k < n ensures Walk(Successor(CyclePairs(order)), x, k) != Some(x) {
      var i :| 0 <= i < n && order[i] == x;
      WalkAlongOrder(order, i, k);
    }
    forall x | x in order ensures Walk(Successor(CyclePairs(order)), x, n) == Some(x) {
      var i :| 0 <= i < n && order[i] == x;
      WalkAlongOrder(order, i, n);
    }
  }

  lemma CycleMeetsEveryone(order: seq<nat>)
    requires Distinct(order)
    ensures forall x, y :: x in order && y in order ==> Reaches(Successor(CyclePairs(order)), x, y, |order|)
  {
    var n := |order|;
    forall x, y | x in order && y in order
      ensures Reaches(Successor(CyclePairs(order)), x, y, n)
    {
      var i :| 0 <= i < n && order[i] == x;
      var j :| 0 <= j < n && order[j] == y;
      var k := if j >= i then j - i else j + n - i;
      WalkAlongOrder(order, i, k);
      assert Wrap(i + k, n) == j;
      assert 0 <= k < n && Walk(Successor(CyclePairs(order)), x, k) == Some(y);
    }
  }

  /** Over n >= 2 distinct ids the construction has no self-pair, which is
      what the defensive check after it tests: that check can never fail. */
  lemma CycleHasNoSelfPair(order: seq<nat>)
    requires Distinct(order) && |order| >= 2
    ensures NoSelfPairs(CyclePairs(order))
  {
    var n := |order|;
    forall i | 0 <= i < n ensures CyclePairs(order)[i].0 != CyclePairs(order)[i].1 {
      SuccessorIndex(i, n);
    }
  }

  /** The construction over n >= 2 distinct ids is one n-cycle through them. */
  lemma CycleIsSingle(order: seq<nat>)
    requires Distinct(order) && |order| >= 2
    ensures SingleCycle(CyclePairs(order), order)
  {
    CycleGiversReceivers(order);
    CycleHasNoSelfPair(order);
    CycleReturnsAfterAll(order);
    CycleMeetsEveryone(order);
  }

  /** Being one cycle through a set of ids does not depend on how the ids are
      listed. */
  lemma SingleCycleOverPermutation(pairs: seq<(nat, nat)>, a: seq<nat>, b: seq<nat>)
    requires SingleCycle(pairs, a) && multiset(a) == multiset(b)
    ensures SingleCycle(pairs, b)
  {
    forall x ensures x in a <==> x in b {
      assert x in a <==> x in multiset(a);
      assert x in b <==> x in multiset(b);
    }
  }
}
