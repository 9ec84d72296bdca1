/** Exactly which orders a list can reach, and what that says about the health verdict. */
module Reachable {
  import opened Order
  import opened Replies
  import opened Machine
  import opened Solo
  import opened Report

  /** `t` is `order` after swaps at the positions `ps`, one after the other. */
  ghost predicate SwapsTo<T(!new)>(order: seq<T>, ps: seq<nat>, t: seq<T>)
    decreases |ps|
  {
    if ps == [] then t == order
    else 0 < ps[0] < |order| && SwapsTo(SwapUp(order, ps[0]), ps[1..], t)
  }

  /** The failover calls that have not returned. */
  function Unreturned<R>(s: State<R>): set<nat> {
    set d: nat | d < |s.calls| && s.calls[d].kind.Failover? && !s.calls[d].phase.Done?
  }

  lemma UnreturnedStep<R>(s: State<R>, e: Event<R>)
    requires Enabled(s, e) && (e.Unlock? ==> s.calls[e.c].kind.Failover?)
    ensures |Unreturned(Apply(s, e))| <= |Unreturned(s)|
    ensures Swaps(s, e) ==> |Unreturned(Apply(s, e))| < |Unreturned(s)|
  {
    if Swaps(s, e) {
      SubsetIsSmaller(Unreturned(Apply(s, e)), Unreturned(s) - {e.c});
    } else {
      SubsetIsSmaller(Unreturned(Apply(s, e)), Unreturned(s));
    }
  }

  /** Every failover call swaps at most once. */
  lemma {:induction false} RunIsSwaps<R>(s: State<R>, es: seq<Event<R>>) returns (ps: seq<nat>)
    requires Inv(s) && Valid(s, es)
    ensures |ps| <= |Unreturned(s)| && SwapsTo(s.order, ps, Exec(s, es).order)
    decreases |es|
  {
    if es == [] {
      ps := [];
    } else {
      var e, t := es[0], Apply(s, es[0]);
      assert CallInv(s.order, s.calls[e.c]);
      StepInv(s, e);
      OrderStep(s, e);
      UnreturnedStep(s, e);
      var rest := RunIsSwaps(t, es[1..]);
      if Swaps(s, e) {
        ps := [SwapPosition(s, e)] + rest;
        assert ps[1..] == rest;
      } else {
        ps := rest;
      }
    }
  }

  /** Every call has returned or has not begun. */
  ghost predicate Resting<R>(s: State<R>) {
    forall d :: 0 <= d < |s.calls| ==> Fresh(s.calls[d]) || s.calls[d].phase.Done?
  }

  lemma NextRests<R>(s: State<R>, t: State<R>, c: nat)
    requires Resting(s) && c in Unreturned(s) && |t.calls| == |s.calls| && t.calls[c].phase.Done?
    requires forall d :: 0 <= d < |s.calls| && d != c ==> t.calls[d] == s.calls[d]
    ensures Resting(t) && |Unreturned(t)| + 1 == |Unreturned(s)|
  {
    assert Unreturned(t) == Unreturned(s) - {c};
  }

  /** One call after another, each alone, makes any swaps that are wanted. */
  lemma {:induction false} SwapsAreRuns<R>(s: State<R>, ps: seq<nat>, order: seq<Item>, value: R)
    returns (es: seq<Event<R>>)
    requires DistinctIds(s.order) && Resting(s) && |ps| <= |Unreturned(s)| && SwapsTo(s.order, ps, order)
    ensures Valid(s, es) && Exec(s, es).order == order
    decreases |ps|
  {
    if ps == [] {
      es := [];
    } else {
      var c :| c in Unreturned(s);
      var first := SoloSwap(s, c, ps[0], value);
      var t := Exec(s, first);
      NextRests(s, t, c);
      SwapKeepsIds(s.order, ps[0]);
      var rest := SwapsAreRuns(t, ps[1..], order, value);
      ExecConcat(s, first, rest);
      es := first + rest;
    }
  }

  lemma SwapKeepsIds(order: seq<Item>, p: nat)
    requires DistinctIds(order) && 0 < p < |order|
    ensures DistinctIds(SwapUp(order, p))
  {
    PromotePermutes(order, p, order[p].id);
  }

  /** Some run leaves the list in this order. */
  ghost predicate Reaches<R(!new)>(s: State<R>, order: seq<Item>) {
    exists es :: Valid(s, es) && Exec(s, es).order == order
  }

  ghost predicate WithinSwaps(s: seq<Item>, order: seq<Item>, m: nat) {
    exists ps: seq<nat> :: |ps| <= m && SwapsTo(s, ps, order)
  }

  /** With m failover calls the orders that some run leaves behind are exactly those at most m swaps of neighbours
      away. */
  lemma ReachesIff<R(!new)>(s: State<R>, order: seq<Item>, value: R)
    requires Init(s)
    ensures Reaches(s, order) <==> WithinSwaps(s.order, order, |Unreturned(s)|)
  {
    if Reaches(s, order) {
      var es :| Valid(s, es) && Exec(s, es).order == order;
      var ps := RunIsSwaps(s, es);
    }
    if WithinSwaps(s.order, order, |Unreturned(s)|) {
      var ps: seq<nat> :| |ps| <= |Unreturned(s)| && SwapsTo(s.order, ps, order);
      var es := SwapsAreRuns(s, ps, order, value);
    }
  }

  // ---------------------------------------------------------------- who can become neighbours

  /** Where the item at `i` was before the swap at `p`. */
  function Before(p: nat, i: nat): nat
    requires p > 0
  {
    if i == p then p - 1 else if i == p - 1 then p else i
  }

  /** A swap changes the distance of two items by at most one, so m swaps bring together only items that were at most
      m + 1 places apart. */
  lemma {:induction false} WereNear<T(!new)>(order: seq<T>, ps: seq<nat>, t: seq<T>, i: nat, j: nat)
    returns (a: nat, b: nat)
    requires SwapsTo(order, ps, t) && i < |t| && j < |t| && i != j
    ensures a < |order| && b < |order| && a != b && t[i] == order[a] && t[j] == order[b]
    ensures -|ps| <= (if a < b then b - a else a - b) - (if i < j then j - i else i - j) <= |ps|
    decreases |ps|
  {
    if ps == [] {
      a, b := i, j;
    } else {
      var p := ps[0];
      var u, v := WereNear(SwapUp(order, p), ps[1..], t, i, j);
      a, b := Before(p, u), Before(p, v);
    }
  }

  /** The positions that bring the item at `j` down to `i`. */
  function Steps(j: nat, i: nat): (ps: seq<nat>)
    requires i <= j
    ensures |ps| == j - i
  {
    if i == j then [] else [j] + Steps(j - 1, i)
  }

  /** The item at `j` can be brought next to the one at `i < j` by j - i - 1 swaps. */
  lemma {:induction false} BringNear<T(!new)>(order: seq<T>, i: nat, j: nat) returns (t: seq<T>)
    requires i < j < |order|
    ensures SwapsTo(order, Steps(j, i + 1), t) && |t| == |order| && t[i] == order[i] && t[i + 1] == order[j]
    decreases j - i
  {
    if j == i + 1 {
      t := order;
    } else {
      t := BringNear(SwapUp(order, j), i, j - 1);
      assert Steps(j, i + 1)[1..] == Steps(j - 1, i + 1);
    }
  }

  // ---------------------------------------------------------------- the verdict in every reachable order

  /** A poll of the nodes reports nothing, whatever order the calls have left them in. */
  ghost predicate HealthyWhereverReached<R(!new)>(s: State<R>, heightOf: Item -> Reply<uint64>) {
    forall order :: Reaches(s, order) ==> SegmentsTo(Poll(order, heightOf), |order|) == []
  }

  /** All nodes answer, and those at most `d` places apart are within the limit. */
  ghost predicate CloseUpTo(order: seq<Item>, heightOf: Item -> Reply<uint64>, d: nat) {
    && AllAnswer(Poll(order, heightOf))
    && forall i, j :: 0 <= i < j < |order| && j - i <= d ==>
         AbsDiff(heightOf(order[i]).value, heightOf(order[j]).value) <= BLOCK_DIFF
  }

  lemma HealthyAfterSwaps(order: seq<Item>, ps: seq<nat>, t: seq<Item>, heightOf: Item -> Reply<uint64>)
    requires SwapsTo(order, ps, t) && |t| == |order| && multiset(t) == multiset(order)
    requires CloseUpTo(order, heightOf, |ps| + 1)
    ensures SegmentsTo(Poll(t, heightOf), |t|) == []
  {
    var replies := Poll(t, heightOf);
    forall i | 0 <= i < |t|
      ensures replies[i].Ok()
    {
      var a := PlaceOf(order, t, t[i]);
      assert Poll(order, heightOf)[a].Ok();
    }
    forall i | 0 < i < |t|
      ensures AbsDiff(Values(replies)[i], Values(replies)[i - 1]) <= BLOCK_DIFF
    {
      var a, b := WereNear(order, ps, t, i, i - 1);
      assert if a < b then b - a <= |ps| + 1 else a - b <= |ps| + 1;
    }
    SucceedsIff(replies);
  }

  lemma NearPairIsClose<R(!new)>(s: State<R>, heightOf: Item -> Reply<uint64>, value: R, i: nat, j: nat)
    requires Init(s) && HealthyWhereverReached(s, heightOf)
    requires i < j < |s.order| && j - i <= |Unreturned(s)| + 1
    ensures AbsDiff(heightOf(s.order[i]).value, heightOf(s.order[j]).value) <= BLOCK_DIFF
  {
    var t := BringNear(s.order, i, j);
    assert WithinSwaps(s.order, t, |Unreturned(s)|);
    ReachesIff(s, t, value);
    var replies := Poll(t, heightOf);
    SucceedsIff(replies);
    assert Values(replies)[i + 1] == heightOf(s.order[j]).value && Values(replies)[i] == heightOf(s.order[i]).value;
  }

  /** With m failover calls the verdict is healthy in every reachable order if and only if all nodes answer and those
      at most m + 1 places apart are within the limit: m = 0 is `SucceedsIff`, and from m = n - 2 on these are all
      pairs. */
  lemma HealthyWhereverReachedIff<R(!new)>(s: State<R>, heightOf: Item -> Reply<uint64>, value: R)
    requires Init(s)
    ensures HealthyWhereverReached(s, heightOf) <==> CloseUpTo(s.order, heightOf, |Unreturned(s)| + 1)
  {
    if HealthyWhereverReached(s, heightOf) {
      forall i, j | 0 <= i < j < |s.order| && j - i <= |Unreturned(s)| + 1
        ensures AbsDiff(heightOf(s.order[i]).value, heightOf(s.order[j]).value) <= BLOCK_DIFF
      {
        NearPairIsClose(s, heightOf, value, i, j);
      }
      assert Valid(s, []) && Exec(s, []).order == s.order;
      SucceedsIff(Poll(s.order, heightOf));
    }
    if CloseUpTo(s.order, heightOf, |Unreturned(s)| + 1) {
      forall order | Reaches(s, order)
        ensures SegmentsTo(Poll(order, heightOf), |order|) == []
      {
        var es :| Valid(s, es) && Exec(s, es).order == order;
        RunInv(s, es);
        var ps := RunIsSwaps(s, es);
        HealthyAfterSwaps(s.order, ps, order, heightOf);
      }
    }
  }
}
