/** The failover loop as a function of the list and of how each node answers the request, and the closed form of
    many such calls in a row. */
module Failover {
  import opened Order
  import opened Replies

  /** The index of the first node that answers, or the length of the list. */
  function FirstAnswering<R>(order: seq<Item>, ask: Item -> Reply<R>): (k: nat)
    ensures k <= |order|
    ensures forall i :: 0 <= i < k ==> !ask(order[i]).Ok()
    ensures k < |order| ==> ask(order[k]).Ok()
  {
    if order == [] || ask(order[0]).Ok() then 0 else 1 + FirstAnswering(order[1..], ask)
  }

  /** What a failover call returns: the first answer, or else whatever the last node said. */
  function ReplyOf<R>(order: seq<Item>, ask: Item -> Reply<R>): Reply<R>
    requires |order| > 0
  {
    var k := FirstAnswering(order, ask);
    ask(order[if k < |order| then k else |order| - 1])
  }

  /** The nodes a failover call queries, in order. */
  function Queried<R>(order: seq<Item>, ask: Item -> Reply<R>): seq<Item> {
    var k := FirstAnswering(order, ask);
    if k < |order| then order[..k + 1] else order
  }

  /** The list a failover call leaves behind. */
  function Reordered<R>(order: seq<Item>, ask: Item -> Reply<R>): (r: seq<Item>)
    ensures |r| == |order|
  {
    var k := FirstAnswering(order, ask);
    if 0 < k < |order| then SwapUp(order, k) else order
  }

  lemma FirstAnsweringIs<R>(order: seq<Item>, ask: Item -> Reply<R>, k: nat)
    requires k < |order| && ask(order[k]).Ok() && forall i :: 0 <= i < k ==> !ask(order[i]).Ok()
    ensures FirstAnswering(order, ask) == k
  {
  }

  /** A call fails exactly when every node fails, and otherwise returns what an answering node of the list said. */
  lemma FailsOnlyWhenAllFail<R>(order: seq<Item>, ask: Item -> Reply<R>)
    requires |order| > 0
    ensures ReplyOf(order, ask).Ok() <==> exists i :: 0 <= i < |order| && ask(order[i]).Ok()
    ensures exists i :: 0 <= i < |order| && ReplyOf(order, ask) == ask(order[i])
  {
    var k := FirstAnswering(order, ask);
    assert ReplyOf(order, ask) == ask(order[if k < |order| then k else |order| - 1]);
  }

  // ---------------------------------------------------------------- many calls in a row

  /** The list after the calls of `asks`, one after the other. */
  function AfterCalls<R>(order: seq<Item>, asks: seq<Item -> Reply<R>>): (r: seq<Item>)
    ensures |r| == |order|
    decreases |asks|
  {
    if asks == [] then order else AfterCalls(Reordered(order, asks[0]), asks[1..])
  }

  /** How many of their queries fail. */
  function FailedQueries<R>(order: seq<Item>, asks: seq<Item -> Reply<R>>): nat
    decreases |asks|
  {
    if asks == [] then 0
    else FirstAnswering(order, asks[0]) + FailedQueries(Reordered(order, asks[0]), asks[1..])
  }

  /** Among the nodes of the list exactly those of `good` answer the request. */
  ghost predicate HealthIs<R>(ask: Item -> Reply<R>, good: set<Item>, order: seq<Item>) {
    forall i {:trigger ask(order[i])} :: 0 <= i < |order| ==> (ask(order[i]).Ok() <==> order[i] in good)
  }

  ghost predicate SameHealth<R>(asks: seq<Item -> Reply<R>>, good: set<Item>, order: seq<Item>) {
    forall a :: 0 <= a < |asks| ==> HealthIs(asks[a], good, order)
  }

  /** `order` with the item at `k` moved `j` places forward. */
  function Forward(order: seq<Item>, k: nat, j: nat): (r: seq<Item>)
    requires j <= k < |order|
    ensures |r| == |order|
  {
    order[..k - j] + [order[k]] + order[k - j..k] + order[k + 1..]
  }

  function Least(a: nat, b: nat): nat { if a < b then a else b }

  lemma SwapIsForward(order: seq<Item>, k: nat)
    requires k < |order|
    ensures Forward(order, k, 0) == order
    ensures k > 0 ==> SwapUp(order, k) == Forward(order, k, 1)
  {
    if k > 0 {
      assert order[k - 1..k] == [order[k - 1]];
    }
  }

  /** One call moves the first answering node one place forward, where it is still the first. */
  lemma OneCall<R>(order: seq<Item>, ask: Item -> Reply<R>, good: set<Item>, k: nat)
    requires FirstGood(order, good, k) && HealthIs(ask, good, order)
    ensures FirstAnswering(order, ask) == k
    ensures Reordered(order, ask) == Forward(order, k, Least(1, k))
    ensures FirstGood(Reordered(order, ask), good, if k == 0 then 0 else k - 1)
  {
    FirstIs(order, ask, good, k);
    SwapIsForward(order, k);
  }

  lemma FirstIs<R>(order: seq<Item>, ask: Item -> Reply<R>, good: set<Item>, k: nat)
    requires FirstGood(order, good, k) && HealthIs(ask, good, order)
    ensures FirstAnswering(order, ask) == k
  {
    assert forall i :: 0 <= i < k ==> !ask(order[i]).Ok();
    FirstAnsweringIs(order, ask, k);
  }

  lemma ForwardAgain(order: seq<Item>, k: nat, j: nat)
    requires 0 < k < |order| && j <= k - 1
    ensures Forward(Forward(order, k, 1), k - 1, j) == Forward(order, k, j + 1)
  {
    var r, p := Forward(order, k, 1), k - 1 - j;
    assert r[..k - 1] == order[..k - 1] && r[k - 1] == order[k] && r[k] == order[k - 1];
    assert r[k + 1..] == order[k + 1..] && r[k..] == [r[k]] + r[k + 1..];
    assert r[..p] == r[..k - 1][..p] && order[..p] == order[..k - 1][..p];
    assert r[p..k - 1] == r[..k - 1][p..] && order[p..k - 1] == order[..k - 1][p..];
    assert order[p..k] == order[p..k - 1] + [order[k - 1]];
  }

  /** Closed form: with the first answering node at index k, j calls in a row move that node j places forward, no
      further than the front, and touch nothing else; calls beyond the k-th change nothing. */
  lemma {:induction false} ClosedForm<R>(order: seq<Item>, asks: seq<Item -> Reply<R>>, good: set<Item>, k: nat)
    requires SameHealth(asks, good, order)
    requires FirstGood(order, good, k)
    ensures AfterCalls(order, asks) == Forward(order, k, Least(|asks|, k))
    decreases |asks|
  {
    if asks == [] {
      SwapIsForward(order, k);
    } else {
      var next, left := FirstOfMany(order, asks, good, k);
      ClosedForm(next, asks[1..], good, left);
      ForwardStep(order, k, |asks|, next, left);
    }
  }

  /** What is left to do after the first of several calls. */
  lemma FirstOfMany<R>(order: seq<Item>, asks: seq<Item -> Reply<R>>, good: set<Item>, k: nat)
    returns (next: seq<Item>, left: nat)
    requires SameHealth(asks, good, order) && FirstGood(order, good, k) && asks != []
    ensures left == (if k == 0 then 0 else k - 1) && FirstGood(next, good, left)
    ensures next == Forward(order, k, Least(1, k))
    ensures SameHealth(asks[1..], good, next)
    ensures AfterCalls(order, asks) == AfterCalls(next, asks[1..])
    ensures FailedQueries(order, asks) == k + FailedQueries(next, asks[1..])
  {
    left := if k == 0 then 0 else k - 1;
    SameHealthTail(order, asks, good);
    OneCall(order, asks[0], good, k);
    next := Reordered(order, asks[0]);
    forall a | 0 <= a < |asks| - 1
      ensures HealthIs(asks[1..][a], good, next)
    {
      HealthOfSwapped(order, asks[1..][a], good, k);
    }
  }

  lemma HealthOfSwapped<R>(order: seq<Item>, ask: Item -> Reply<R>, good: set<Item>, k: nat)
    requires k < |order| && HealthIs(ask, good, order)
    ensures k > 0 ==> HealthIs(ask, good, SwapUp(order, k))
  {
    if k > 0 {
      var next := SwapUp(order, k);
      assert next[k] == order[k - 1] && next[k - 1] == order[k];
      assert forall i :: 0 <= i < |order| && i != k && i != k - 1 ==> next[i] == order[i];
    }
  }

  lemma ForwardStep(order: seq<Item>, k: nat, n: nat, next: seq<Item>, left: nat)
    requires k < |order| && n > 0 && left == if k == 0 then 0 else k - 1
    requires next == Forward(order, k, Least(1, k))
    ensures Forward(next, left, Least(n - 1, left)) == Forward(order, k, Least(n, k))
  {
    if k == 0 {
      SwapIsForward(order, 0);
    } else {
      ForwardAgain(order, k, Least(n - 1, k - 1));
    }
  }

  lemma SameHealthTail<R>(order: seq<Item>, asks: seq<Item -> Reply<R>>, good: set<Item>)
    requires SameHealth(asks, good, order) && asks != []
    ensures HealthIs(asks[0], good, order) && SameHealth(asks[1..], good, order)
  {
  }

  lemma ForwardToFront(order: seq<Item>, k: nat)
    requires k < |order|
    ensures Forward(order, k, k) == [order[k]] + order[..k] + order[k + 1..]
  {
    assert order[..0] == [] && order[0..k] == order[..k];
  }

  /** Enough calls bring the first answering node to the front and keep the rest in order: move-to-front. */
  lemma IteratedSwapsMoveToFront<R>(order: seq<Item>, asks: seq<Item -> Reply<R>>, good: set<Item>, k: nat)
    requires SameHealth(asks, good, order) && |asks| >= k && FirstGood(order, good, k)
    ensures AfterCalls(order, asks) == [order[k]] + order[..k] + order[k + 1..]
  {
    ClosedForm(order, asks, good, k);
    ForwardToFront(order, k);
  }

  /** k + (k - 1) + (k - 2) + ..., j terms. */
  function Countdown(j: nat, k: nat): nat
    requires j <= k
  {
    if j == 0 then 0 else k + Countdown(j - 1, k - 1)
  }

  lemma {:induction false} CountdownClosed(j: nat, k: nat)
    requires j <= k
    ensures 2 * Countdown(j, k) == j * (2 * k - j + 1)
  {
    if j > 0 {
      CountdownClosed(j - 1, k - 1);
      assert (j - 1) * (2 * k - j) == j * (2 * k - j) - (2 * k - j);
    }
  }

  lemma {:induction false} CountdownGrows(j: nat, k: nat)
    requires j <= k
    ensures Countdown(j, k) <= Countdown(k, k)
  {
    if j > 0 {
      CountdownGrows(j - 1, k - 1);
    }
  }

  /** The exact price: the first call makes k failed queries, the next k - 1, and so on down to none ... */
  lemma {:induction false} FailedQueriesExactly<R>(order: seq<Item>, asks: seq<Item -> Reply<R>>, good: set<Item>,
                                                  k: nat)
    requires SameHealth(asks, good, order)
    requires FirstGood(order, good, k)
    ensures FailedQueries(order, asks) == Countdown(Least(|asks|, k), k)
    decreases |asks|
  {
    if asks != [] {
      var next, left := FirstOfMany(order, asks, good, k);
      FailedQueriesExactly(next, asks[1..], good, left);
      assert FailedQueries(order, asks) == k + Countdown(Least(|asks| - 1, left), left);
      CountdownStep(|asks|, k, left);
    }
  }

  lemma CountdownStep(n: nat, k: nat, left: nat)
    requires n > 0 && left == if k == 0 then 0 else k - 1
    ensures Countdown(Least(n, k), k) == k + Countdown(Least(n - 1, left), left)
  {
  }

  /** ... so no number of calls makes more than k(k + 1)/2, and k calls make that many. */
  lemma FailedQueriesBound<R>(order: seq<Item>, asks: seq<Item -> Reply<R>>, good: set<Item>, k: nat)
    requires SameHealth(asks, good, order)
    requires FirstGood(order, good, k)
    ensures 2 * FailedQueries(order, asks) <= k * (k + 1)
    ensures |asks| >= k ==> 2 * FailedQueries(order, asks) == k * (k + 1)
  {
    FailedQueriesExactly(order, asks, good, k);
    CountdownGrows(Least(|asks|, k), k);
    CountdownClosed(k, k);
  }
}
