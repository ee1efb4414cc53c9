/**
 * Reachability along 4-neighbour walks, the traversal shared by the flood
 * fill and the adjacency scan.
 *
 * A walk (for `avail`, `expand`) is a non-empty sequence of cells, each one a
 * neighbour of the one before, that stays inside `avail` and is continued
 * only from cells in `expand`.  The flood fill walks through the cells of the
 * initial colour (avail = expand = those cells); the adjacency scan walks
 * through the not yet visited cells and continues only from cells of the
 * region's colour.  Both traversals are recursive: they handle a seed cell
 * and then the four neighbours in turn, each neighbour seeing only what the
 * previous ones left available.  `Partial` is the invariant of that
 * sequence of calls.
 */
module Reachability {
  import opened Grids

  ghost predicate IsWalk(avail: set<Cell>, expand: set<Cell>, w: seq<Cell>)
    decreases |w|
  {
    && |w| > 0
    && w[0] in avail
    && (|w| > 1 ==> w[0] in expand && Adjacent(w[0], w[1]) && IsWalk(avail, expand, w[1..]))
  }

  /** What a walk says about each of its cells. */
  lemma {:induction false} WalkAt(avail: set<Cell>, expand: set<Cell>, w: seq<Cell>, k: nat)
    requires IsWalk(avail, expand, w) && k < |w|
    ensures w[k] in avail
    ensures k < |w| - 1 ==> w[k] in expand && Adjacent(w[k], w[k + 1])
  {
    if k > 0 {
      WalkAt(avail, expand, w[1..], k - 1);
    }
  }

  /** A sequence whose cells meet the conditions of a walk is one. */
  lemma {:induction false} WalkFrom(avail: set<Cell>, expand: set<Cell>, w: seq<Cell>)
    requires |w| > 0
    requires forall k :: 0 <= k < |w| ==> w[k] in avail
    requires forall k :: 0 <= k < |w| - 1 ==> w[k] in expand && Adjacent(w[k], w[k + 1])
    ensures IsWalk(avail, expand, w)
  {
    if |w| > 1 {
      assert w[0] in expand && Adjacent(w[0], w[1]);
      forall k | 0 <= k < |w| - 2
        ensures w[1..][k] in expand && Adjacent(w[1..][k], w[1..][k + 1])
      {
        assert w[k + 1] in expand && Adjacent(w[k + 1], w[k + 2]);
      }
      WalkFrom(avail, expand, w[1..]);
    }
  }

  /** A walk is one for any other pair of sets its cells meet. */
  lemma WalkReframe(avail: set<Cell>, expand: set<Cell>, avail': set<Cell>, expand': set<Cell>, w: seq<Cell>)
    requires IsWalk(avail, expand, w)
    requires forall k :: 0 <= k < |w| ==> w[k] in avail'
    requires forall k :: 0 <= k < |w| - 1 ==> w[k] in expand'
    ensures IsWalk(avail', expand', w)
  {
    forall k | 0 <= k < |w| - 1
      ensures w[k] in expand' && Adjacent(w[k], w[k + 1])
    {
      WalkAt(avail, expand, w, k);
    }
    WalkFrom(avail', expand', w);
  }

  /** `w` is a walk from `s` to `q`. */
  ghost predicate WalkBetween(avail: set<Cell>, expand: set<Cell>, w: seq<Cell>, s: Cell, q: Cell) {
    IsWalk(avail, expand, w) && w[0] == s && w[|w| - 1] == q
  }

  ghost predicate Reachable(avail: set<Cell>, expand: set<Cell>, s: Cell, q: Cell) {
    exists w :: WalkBetween(avail, expand, w, s, q)
  }

  /** The cells a traversal starting at `s` reaches. */
  ghost function Reach(avail: set<Cell>, expand: set<Cell>, s: Cell): (r: set<Cell>)
    ensures r <= avail
  {
    set q | q in avail && Reachable(avail, expand, s, q)
  }

  lemma ReachSelf(avail: set<Cell>, expand: set<Cell>, s: Cell)
    requires s in avail
    ensures s in Reach(avail, expand, s)
  {
    assert WalkBetween(avail, expand, [s], s, s);
  }

  /** A seed that is not available is a traversal that reaches nothing. */
  lemma ReachUnavailable(avail: set<Cell>, expand: set<Cell>, s: Cell)
    requires s !in avail
    ensures Reach(avail, expand, s) == {}
  {
  }

  /** A seed that is available but not expanded is reached and nothing else. */
  lemma ReachStuck(avail: set<Cell>, expand: set<Cell>, s: Cell)
    requires s in avail && s !in expand
    ensures Reach(avail, expand, s) == {s}
  {
    forall q | q in Reach(avail, expand, s)
      ensures q == s
    {
      var w :| WalkBetween(avail, expand, w, s, q);
      if |w| > 1 {
        assert w[0] in expand;
      }
    }
    ReachSelf(avail, expand, s);
  }

  lemma WalkExtend(avail: set<Cell>, expand: set<Cell>, w: seq<Cell>, q: Cell)
    requires IsWalk(avail, expand, w)
    requires w[|w| - 1] in expand && q in avail && Adjacent(w[|w| - 1], q)
    ensures IsWalk(avail, expand, w + [q])
  {
    var v := w + [q];
    forall k | 0 <= k < |v|
      ensures v[k] in avail
    {
      if k < |w| {
        WalkAt(avail, expand, w, k);
      }
    }
    forall k | 0 <= k < |v| - 1
      ensures v[k] in expand && Adjacent(v[k], v[k + 1])
    {
      WalkAt(avail, expand, w, k);
    }
    WalkFrom(avail, expand, v);
  }

  lemma WalkPrepend(avail: set<Cell>, expand: set<Cell>, s: Cell, w: seq<Cell>)
    requires IsWalk(avail, expand, w)
    requires s in avail && s in expand && Adjacent(s, w[0])
    ensures IsWalk(avail, expand, [s] + w)
  {
    assert ([s] + w)[1..] == w;
  }

  lemma WalkPrefix(avail: set<Cell>, expand: set<Cell>, w: seq<Cell>, m: nat)
    requires IsWalk(avail, expand, w) && 0 < m <= |w|
    ensures IsWalk(avail, expand, w[..m])
  {
    var v := w[..m];
    forall k | 0 <= k < |v|
      ensures v[k] in avail
    {
      WalkAt(avail, expand, w, k);
    }
    forall k | 0 <= k < |v| - 1
      ensures v[k] in expand && Adjacent(v[k], v[k + 1])
    {
      WalkAt(avail, expand, w, k);
      assert v[k] == w[k] && v[k + 1] == w[k + 1];
    }
    WalkFrom(avail, expand, v);
  }

  lemma WalkWiden(avail: set<Cell>, expand: set<Cell>, avail': set<Cell>, expand': set<Cell>, w: seq<Cell>)
    requires IsWalk(avail, expand, w)
    requires avail <= avail' && expand <= expand'
    ensures IsWalk(avail', expand', w)
  {
    forall k | 0 <= k < |w|
      ensures w[k] in avail' && (k < |w| - 1 ==> w[k] in expand')
    {
      WalkAt(avail, expand, w, k);
    }
    WalkReframe(avail, expand, avail', expand', w);
  }

  /** Reaching `q` and stepping on to an available neighbour reaches it too. */
  lemma ReachStep(avail: set<Cell>, expand: set<Cell>, s: Cell, q: Cell, q': Cell)
    requires q in Reach(avail, expand, s) && q in expand
    requires q' in avail && Adjacent(q, q')
    ensures q' in Reach(avail, expand, s)
  {
    var w :| WalkBetween(avail, expand, w, s, q);
    WalkExtend(avail, expand, w, q');
    assert WalkBetween(avail, expand, w + [q'], s, q');
  }

  /** Every cell of a walk from `s` is reached from `s`. */
  lemma WalkReached(avail: set<Cell>, expand: set<Cell>, w: seq<Cell>, k: nat)
    requires IsWalk(avail, expand, w) && k < |w|
    ensures w[k] in Reach(avail, expand, w[0])
  {
    var v := w[..k + 1];
    WalkPrefix(avail, expand, w, k + 1);
    WalkAt(avail, expand, w, k);
    assert WalkBetween(avail, expand, v, w[0], w[k]);
  }

  /** The last but one cell of a walk lies in expand, so when expand is part of
      avail it is reached by a walk inside expand. */
  lemma ReachBeforeLast(avail: set<Cell>, expand: set<Cell>, w: seq<Cell>)
    requires IsWalk(avail, expand, w) && |w| > 1 && expand <= avail
    ensures w[|w| - 2] in Reach(expand, expand, w[0])
    ensures Adjacent(w[|w| - 2], w[|w| - 1])
  {
    var v := w[..|w| - 1];
    forall k | 0 <= k < |v|
      ensures v[k] in expand
    {
      WalkAt(avail, expand, w, k);
    }
    WalkPrefix(avail, expand, w, |w| - 1);
    WalkReframe(avail, expand, expand, expand, v);
    WalkAt(avail, expand, w, |w| - 2);
    assert WalkBetween(expand, expand, v, w[0], w[|w| - 2]);
  }

  /** More room to walk in reaches at least as much. */
  lemma ReachWiden(avail: set<Cell>, expand: set<Cell>, avail': set<Cell>, expand': set<Cell>, s: Cell)
    requires avail <= avail' && expand <= expand'
    ensures Reach(avail, expand, s) <= Reach(avail', expand', s)
  {
    forall q | q in Reach(avail, expand, s)
      ensures q in Reach(avail', expand', s)
    {
      var w :| WalkBetween(avail, expand, w, s, q);
      WalkWiden(avail, expand, avail', expand', w);
      assert WalkBetween(avail', expand', w, s, q);
    }
  }

  /** When every available cell may be expanded, the rest of `expand` does
      not matter. */
  lemma ReachOwn(avail: set<Cell>, expand: set<Cell>, s: Cell)
    requires avail <= expand
    ensures Reach(avail, expand, s) == Reach(avail, avail, s)
  {
    ReachWiden(avail, avail, avail, expand, s);
    forall q | q in Reach(avail, expand, s)
      ensures q in Reach(avail, avail, s)
    {
      var w :| WalkBetween(avail, expand, w, s, q);
      forall k | 0 <= k < |w|
        ensures w[k] in avail
      {
        WalkAt(avail, expand, w, k);
      }
      WalkReframe(avail, expand, avail, avail, w);
      assert WalkBetween(avail, avail, w, s, q);
    }
  }

  /** The cells a traversal through `avail` reaches are reached again by a
      traversal through them alone. */
  lemma ReachWithin(avail: set<Cell>, s: Cell)
    ensures Reach(avail, avail, s) <= Reach(Reach(avail, avail, s), Reach(avail, avail, s), s)
  {
    var R := Reach(avail, avail, s);
    forall q | q in R
      ensures q in Reach(R, R, s)
    {
      var w :| WalkBetween(avail, avail, w, s, q);
      forall k | 0 <= k < |w|
        ensures w[k] in R
      {
        WalkReached(avail, avail, w, k);
      }
      WalkReframe(avail, avail, R, R, w);
      assert WalkBetween(R, R, w, s, q);
    }
  }

  /** `U` is closed: from no expanded cell of `U` can a walk step outside `U`. */
  ghost predicate Closed(avail: set<Cell>, expand: set<Cell>, U: set<Cell>) {
    forall q, q' {:trigger Adjacent(q, q')} :: q in U && q in expand && q' in avail && Adjacent(q, q') ==> q' in U
  }

  lemma {:induction false} ClosedWalk(avail: set<Cell>, expand: set<Cell>, U: set<Cell>, w: seq<Cell>, k: nat)
    requires Closed(avail, expand, U) && IsWalk(avail, expand, w) && w[0] in U && k < |w|
    ensures w[k] in U
  {
    if k > 0 {
      ClosedWalk(avail, expand, U, w, k - 1);
      WalkAt(avail, expand, w, k - 1);
      WalkAt(avail, expand, w, k);
    }
  }

  /** Reach is the least closed set holding the seed. */
  lemma ClosedContainsReach(avail: set<Cell>, expand: set<Cell>, s: Cell, U: set<Cell>)
    requires Closed(avail, expand, U) && s in U
    ensures Reach(avail, expand, s) <= U
  {
    forall q | q in Reach(avail, expand, s)
      ensures q in U
    {
      var w :| WalkBetween(avail, expand, w, s, q);
      ClosedWalk(avail, expand, U, w, |w| - 1);
    }
  }

  /** The state of a traversal from `s` after the seed and some of its
      neighbours are done: `U` is what has been reached so far, and the only
      steps out of `U` still to be taken are those from `s` to the pending
      neighbours `P`. */
  ghost predicate Partial(avail: set<Cell>, expand: set<Cell>, s: Cell, U: set<Cell>, P: set<Cell>) {
    && s in U && s in expand
    && U <= Reach(avail, expand, s)
    && P <= Neighbours(s)
    && forall q, q' {:trigger Adjacent(q, q')} :: q in U && q in expand && q' in avail && Adjacent(q, q') ==>
         q' in U || (q == s && q' in P)
  }

  lemma PartialStart(avail: set<Cell>, expand: set<Cell>, s: Cell)
    requires s in avail && s in expand
    ensures Partial(avail, expand, s, {s}, Neighbours(s))
  {
    ReachSelf(avail, expand, s);
  }

  /** Running the traversal from the pending neighbour `n` over what is still
      available reaches a set disjoint from `U`, and adding it to `U` keeps the
      invariant with `n` no longer pending. */
  lemma PartialStep(avail: set<Cell>, expand: set<Cell>, s: Cell, U: set<Cell>, P: set<Cell>, n: Cell)
    requires Partial(avail, expand, s, U, P) && n in P
    ensures U !! Reach(avail - U, expand, n)
    ensures Partial(avail, expand, s, U + Reach(avail - U, expand, n), P - {n})
  {
    var R := Reach(avail - U, expand, n);
    var U' := U + R;
    assert s in avail;
    forall q | q in R
      ensures q in Reach(avail, expand, s)
    {
      var w :| WalkBetween(avail - U, expand, w, n, q);
      var w' := [s] + w;
      WalkWiden(avail - U, expand, avail, expand, w);
      WalkPrepend(avail, expand, s, w);
      assert WalkBetween(avail, expand, w', s, q);
    }
    forall q, q' | q in U' && q in expand && q' in avail && Adjacent(q, q')
      ensures q' in U' || (q == s && q' in P - {n})
    {
      if q' !in U {
        if q in U {
          if q' == n {
            ReachSelf(avail - U, expand, n);
          }
        } else {
          ReachStep(avail - U, expand, n, q, q');
        }
      }
    }
  }

  /** With nothing pending, the traversal has reached exactly Reach. */
  lemma PartialDone(avail: set<Cell>, expand: set<Cell>, s: Cell, U: set<Cell>)
    requires Partial(avail, expand, s, U, {})
    ensures U == Reach(avail, expand, s)
  {
    ClosedContainsReach(avail, expand, s, U);
  }

  /** The neighbours of `s` in the order both traversals visit them: down, up,
      right, left. */
  function NeighbourAt(s: Cell, k: nat): Cell
    requires k < 4
  {
    if k == 0 then (s.0 + 1, s.1)
    else if k == 1 then (s.0 - 1, s.1)
    else if k == 2 then (s.0, s.1 + 1)
    else (s.0, s.1 - 1)
  }

  /** The neighbours still to be visited after the first `k`. */
  ghost function PendingFrom(s: Cell, k: nat): (P: set<Cell>)
    requires k <= 4
    ensures P <= Neighbours(s)
  {
    set m | k <= m < 4 :: NeighbourAt(s, m)
  }

  lemma PendingStart(s: Cell)
    ensures PendingFrom(s, 0) == Neighbours(s)
  {
    assert NeighbourAt(s, 0) in PendingFrom(s, 0);
    assert NeighbourAt(s, 1) in PendingFrom(s, 0);
    assert NeighbourAt(s, 2) in PendingFrom(s, 0);
    assert NeighbourAt(s, 3) in PendingFrom(s, 0);
  }

  lemma PendingNext(s: Cell, k: nat)
    requires k < 4
    ensures NeighbourAt(s, k) in PendingFrom(s, k)
    ensures PendingFrom(s, k) - {NeighbourAt(s, k)} == PendingFrom(s, k + 1)
  {
    assert NeighbourAt(s, k) in PendingFrom(s, k);
  }

  lemma NothingPending(s: Cell)
    ensures PendingFrom(s, 4) == {}
  {
  }

  /** The `k`-th of the four recursive calls of a traversal from `s`: it
      runs from the `k`-th neighbour over what is still available, and the
      invariant carries over to the union with what it reaches. */
  lemma PartialNext(avail: set<Cell>, expand: set<Cell>, s: Cell, U: set<Cell>, k: nat, n: Cell)
    returns (U': set<Cell>)
    requires k < 4 && n == NeighbourAt(s, k)
    requires Partial(avail, expand, s, U, PendingFrom(s, k))
    ensures avail - U < avail
    ensures U !! Reach(avail - U, expand, n)
    ensures U' == U + Reach(avail - U, expand, n)
    ensures |U'| == |U| + |Reach(avail - U, expand, n)|
    ensures Partial(avail, expand, s, U', PendingFrom(s, k + 1))
  {
    assert s in avail && s !in avail - U;
    PendingNext(s, k);
    PartialStep(avail, expand, s, U, PendingFrom(s, k), n);
    U' := U + Reach(avail - U, expand, n);
  }
}
