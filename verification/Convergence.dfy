/** What the order does in every interleaving when the same nodes answer every failover query. */
module Convergence {
  import opened Order
  import opened Machine
  import opened Failover
  import opened Solo
  import opened Reachable

  /** A failover query succeeds exactly at the nodes of `good`. */
  function FixedHealth<R>(good: set<Item>): (State<R>, Event<R>) -> bool {
    (s: State<R>, e: Event<R>) =>
      e.Answer? && Enabled(s, e) && s.calls[e.c].kind.Failover?
      ==> (e.reply.Ok() <==> s.calls[e.c].phase.item in good)
  }

  /** A swap moves an answering node over a dead one. */
  function OverDead<R>(good: set<Item>): (State<R>, Event<R>) -> bool {
    (s: State<R>, e: Event<R>) => Swaps(s, e) && s.order[SwapPosition(s, e) - 1] !in good
  }

  ghost predicate LogsAgree<R>(s: State<R>, good: set<Item>) {
    forall c, k :: 0 <= c < |s.calls| && 0 <= k < |s.calls[c].log| && s.calls[c].kind.Failover? ==>
      (s.calls[c].log[k].reply.Ok() <==> s.calls[c].log[k].item in good)
  }

  lemma AgreeStep<R>(s: State<R>, e: Event<R>, good: set<Item>)
    requires Inv(s) && Enabled(s, e) && LogsAgree(s, good) && FixedHealth(good)(s, e)
    ensures LogsAgree(Apply(s, e), good)
    ensures Swaps(s, e) ==> s.order[SwapPosition(s, e)] in good
  {
    SwapMovesTheWinner(s, e);
    assert CallInv(s.order, s.calls[e.c]);
  }

  ghost predicate Better(s: seq<Item>, t: seq<Item>, good: set<Item>) {
    |s| == |t| && forall p :: 0 <= p <= |s| ==> CountTo(s, p, good) <= CountTo(t, p, good)
  }

  lemma ConvergeStep<R>(s: State<R>, e: Event<R>, good: set<Item>)
    requires Inv(s) && Enabled(s, e) && LogsAgree(s, good) && FixedHealth(good)(s, e)
    ensures Better(s.order, OrderAfter(s, e), good)
    ensures Inversions(OrderAfter(s, e), |s.order|, good) + (if OverDead<R>(good)(s, e) then 1 else 0)
         == Inversions(s.order, |s.order|, good)
    ensures OutsideTo(OrderAfter(s, e), |s.order|, good) == OutsideTo(s.order, |s.order|, good)
  {
    OrderStep(s, e);
    AgreeStep(s, e, good);
    if Swaps(s, e) {
      var q := SwapPosition(s, e);
      forall p | 0 <= p <= |s.order|
        ensures CountTo(s.order, p, good) <= CountTo(OrderAfter(s, e), p, good)
      {
        CountAfterSwap(s.order, q, p, good);
      }
      InversionsAfterSwap(s.order, q, |s.order|, good);
      OutsideAfterSwap(s.order, q, |s.order|, good);
    }
  }

  lemma {:induction false} ConvergeRun<R>(s: State<R>, es: seq<Event<R>>, good: set<Item>)
    requires Inv(s) && LogsAgree(s, good) && Valid(s, es) && Throughout(s, es, FixedHealth(good))
    ensures Inv(Exec(s, es)) && LogsAgree(Exec(s, es), good)
    ensures Better(s.order, Exec(s, es).order, good)
    ensures Inversions(Exec(s, es).order, |Exec(s, es).order|, good) + CountWhere(s, es, OverDead(good))
         == Inversions(s.order, |s.order|, good)
    ensures OutsideTo(Exec(s, es).order, |Exec(s, es).order|, good) == OutsideTo(s.order, |s.order|, good)
    decreases |es|
  {
    if es != [] {
      StepInv(s, es[0]);
      AgreeStep(s, es[0], good);
      ConvergeStep(s, es[0], good);
      ConvergeRun(Apply(s, es[0]), es[1..], good);
    }
  }

  /** Convergence in every interleaving with fixed health, with H answering nodes among n: the j-th answering
      node is never further back than it was; each swap over a dead node removes one inverted pair and nothing
      adds one, so there are at most (n - H) * H such swaps in the whole run; dead nodes keep their order. */
  lemma ConvergesInEveryInterleaving<R>(s: State<R>, es: seq<Event<R>>, good: set<Item>)
    requires Init(s) && Valid(s, es) && Throughout(s, es, FixedHealth(good))
    ensures forall j, i, k :: IsNth(s.order, good, j, i) && IsNth(Exec(s, es).order, good, j, k) ==> k <= i
    ensures Inversions(Exec(s, es).order, |Exec(s, es).order|, good) + CountWhere(s, es, OverDead(good))
         == Inversions(s.order, |s.order|, good)
    ensures var h := CountTo(s.order, |s.order|, good);
            CountWhere(s, es, OverDead(good)) <= (|s.order| - h) * h
    ensures OutsideTo(Exec(s, es).order, |Exec(s, es).order|, good) == OutsideTo(s.order, |s.order|, good)
  {
    ConvergeRun(s, es, good);
    InversionsBound(s.order, |s.order|, good);
    forall j, i, k | IsNth(s.order, good, j, i) && IsNth(Exec(s, es).order, good, j, k)
      ensures k <= i
    {
      NthNotBehind(s.order, Exec(s, es).order, good, j, i, k);
    }
  }

  // ---------------------------------------------------------------- an answering node at the front

  /** A failover call that has asked nobody yet, or has been answered by the first node it asked. */
  ghost predicate FirstTry<R>(call: Call<R>) {
    && call.kind.Failover?
    && |call.log| <= 1
    && call.cursor == 0
    && (call.log != [] ==> call.log[0].reply.Ok())
  }

  /** An answering node at the front is only ever replaced by another. */
  lemma FrontStep<R>(s: State<R>, e: Event<R>, good: set<Item>)
    requires Inv(s) && Enabled(s, e) && LogsAgree(s, good) && FixedHealth(good)(s, e) && s.order[0] in good
    ensures |OrderAfter(s, e)| == |s.order| && OrderAfter(s, e)[0] in good
  {
    OrderStep(s, e);
    AgreeStep(s, e, good);
  }

  /** Once an answering node is at the front the state is absorbing: whatever the interleaving, the front node
      always answers, and the first query of every later failover call is its only one and succeeds. */
  lemma {:induction false} FrontNodeServesAll<R>(s: State<R>, es: seq<Event<R>>, good: set<Item>, c: nat)
    requires Inv(s) && LogsAgree(s, good) && Valid(s, es) && Throughout(s, es, FixedHealth(good))
    requires s.order[0] in good && c < |s.calls| && FirstTry(s.calls[c])
    ensures |Exec(s, es).order| > 0 && Exec(s, es).order[0] in good
    ensures FirstTry(Exec(s, es).calls[c])
    ensures Exec(s, es).calls[c].phase.Done? ==>
              |Exec(s, es).calls[c].log| == 1 && Returned(Exec(s, es).calls[c]).Ok()
    decreases |es|
  {
    assert CallInv(s.order, s.calls[c]);
    if es != [] {
      StepInv(s, es[0]);
      AgreeStep(s, es[0], good);
      FrontStep(s, es[0], good);
      FrontNodeServesAll(Apply(s, es[0]), es[1..], good, c);
    }
  }

  // ---------------------------------------------------------------- reaching the front

  /** A failover call that got past position `k`: it read a dead node there before an answering one moved in. */
  predicate Stray<R>(call: Call<R>, k: nat) {
    && call.kind.Failover?
    && match call.phase
       case WantRead => call.cursor > k
       case Reading(_) => call.cursor > k
       case PromotePending(position, _) => position > k
       case WantWrite(position, _) => position > k
       case Writing(position, _) => position > k
       case Done => false
       case Panicked => false
  }

  function Strays<R>(s: State<R>, k: nat): set<nat> {
    set d: nat | d < |s.calls| && Stray(s.calls[d], k)
  }

  /** The failover calls that have begun and not returned. */
  ghost function UnderWay<R>(s: State<R>): set<nat> {
    set d: nat | d < |s.calls| && s.calls[d].kind.Failover? && !s.calls[d].phase.Done? && !Fresh(s.calls[d])
  }

  lemma StraysAreUnderWay<R>(s: State<R>, k: nat)
    ensures |Strays(s, k)| <= |UnderWay(s)|
  {
    SubsetIsSmaller(Strays(s, k), UnderWay(s));
  }

  /** A failover call that has not passed the first answering node, or wants to promote it. */
  ghost predicate OnTrack<R>(call: Call<R>, order: seq<Item>, k: nat)
    requires k < |order|
  {
    && call.kind.Failover?
    && match call.phase
       case WantRead => call.cursor <= k
       case Reading(_) => call.cursor <= k
       case PromotePending(position, id) => position == k && id == order[k].id
       case WantWrite(position, id) => position == k && id == order[k].id
       case Writing(position, id) => position == k && id == order[k].id
       case Done => false
       case Panicked => false
  }

  /** A swap at the first answering node brings it forward; any other swap is made by a stray, and ends it. */
  lemma SwapStep<R>(s: State<R>, e: Event<R>, good: set<Item>, k: nat)
    requires Inv(s) && Swaps(s, e) && LogsAgree(s, good) && 0 < k && FirstGood(s.order, good, k)
    ensures k <= SwapPosition(s, e)
    ensures SwapPosition(s, e) == k ==> FirstGood(OrderAfter(s, e), good, k - 1)
    ensures SwapPosition(s, e) > k ==> FirstGood(OrderAfter(s, e), good, k)
    ensures SwapPosition(s, e) > k ==> e.c in Strays(s, k) && Strays(Apply(s, e), k) <= Strays(s, k) - {e.c}
  {
    OrderStep(s, e);
    AgreeStep(s, e, good);
    assert CallInv(s.order, s.calls[e.c]);
  }

  /** No call gets past the first answering node, and one on track stays on track. */
  lemma OtherStep<R>(s: State<R>, e: Event<R>, good: set<Item>, k: nat)
    requires Inv(s) && Enabled(s, e) && !Swaps(s, e) && LogsAgree(s, good) && FixedHealth(good)(s, e)
    requires 0 < k && FirstGood(s.order, good, k)
    ensures OrderAfter(s, e) == s.order && Strays(Apply(s, e), k) <= Strays(s, k)
    ensures OnTrack(s.calls[e.c], s.order, k) ==> OnTrack(CallAfter(s, e), s.order, k)
  {
    OrderStep(s, e);
    assert CallInv(s.order, s.calls[e.c]);
  }

  /** The first answering node never moves back, and while it stays no call becomes a stray. */
  lemma {:induction false} StraysShrink<R>(s: State<R>, es: seq<Event<R>>, good: set<Item>, k: nat) returns (m: nat)
    requires Inv(s) && LogsAgree(s, good) && FirstGood(s.order, good, k)
    requires Valid(s, es) && Throughout(s, es, FixedHealth(good))
    ensures FirstGood(Exec(s, es).order, good, m) && m <= k
    ensures m == k && k > 0 ==> Strays(Exec(s, es), k) <= Strays(s, k)
    decreases |es|
  {
    if es == [] {
      m := k;
    } else if k > 0 && !(Swaps(s, es[0]) && SwapPosition(s, es[0]) == k) {
      StepInv(s, es[0]);
      AgreeStep(s, es[0], good);
      if Swaps(s, es[0]) {
        SwapStep(s, es[0], good, k);
      } else {
        OtherStep(s, es[0], good, k);
      }
      m := StraysShrink(Apply(s, es[0]), es[1..], good, k);
    } else {
      m := FirstAfterSwap(s, es, good, k);
    }
  }

  lemma FirstAfterSwap<R>(s: State<R>, es: seq<Event<R>>, good: set<Item>, k: nat) returns (m: nat)
    requires Inv(s) && LogsAgree(s, good) && FirstGood(s.order, good, k)
    requires Valid(s, es) && Throughout(s, es, FixedHealth(good)) && es != []
    requires k > 0 ==> Swaps(s, es[0]) && SwapPosition(s, es[0]) == k
    ensures FirstGood(Exec(s, es).order, good, m) && (if k == 0 then m == 0 else m < k)
  {
    var t := Apply(s, es[0]);
    StepInv(s, es[0]);
    AgreeStep(s, es[0], good);
    var p := if k == 0 then 1 else k;
    if k == 0 {
      FrontStep(s, es[0], good);
    } else {
      SwapStep(s, es[0], good, k);
    }
    assert CountTo(t.order, p, good) > 0 by {
      assert t.order[p - 1] in good;
    }
    ConvergeRun(t, es[1..], good);
    m := FirstGoodWithin(Exec(t, es[1..]).order, good, p);
  }

  /** When a call on track returns, the first answering node has moved forward, or a stray has returned meanwhile. */
  lemma {:induction false} TrackEnds<R>(s: State<R>, es: seq<Event<R>>, good: set<Item>, k: nat, c: nat)
    returns (m: nat)
    requires Inv(s) && LogsAgree(s, good) && 0 < k && FirstGood(s.order, good, k)
    requires Valid(s, es) && Throughout(s, es, FixedHealth(good))
    requires c < |s.calls| && OnTrack(s.calls[c], s.order, k) && Exec(s, es).calls[c].phase.Done?
    ensures FirstGood(Exec(s, es).order, good, m) && m <= k
    ensures m == k ==> |Strays(Exec(s, es), k)| < |Strays(s, k)|
    decreases |es|
  {
    var e, t := es[0], Apply(s, es[0]);
    StepInv(s, e);
    AgreeStep(s, e, good);
    if !Swaps(s, e) {
      OtherStep(s, e, good, k);
      m := TrackEnds(t, es[1..], good, k, c);
      SubsetIsSmaller(Strays(t, k), Strays(s, k));
    } else {
      SwapStep(s, e, good, k);
      if SwapPosition(s, e) == k {
        m := FirstAfterSwap(s, es, good, k);
      } else {
        m := StraysShrink(t, es[1..], good, k);
        if m == k {
          SubsetIsSmaller(Strays(Exec(t, es[1..]), k), Strays(s, k) - {e.c});
        }
      }
    }
  }

  /** Some failover call began and returned between `s` and `t`. */
  ghost predicate SomeReturned<R>(s: State<R>, t: State<R>)
    requires |s.calls| == |t.calls|
  {
    exists c :: 0 <= c < |s.calls| && s.calls[c].kind.Failover? && Fresh(s.calls[c]) && t.calls[c].phase.Done?
  }

  /** One window, starting anywhere: a call that begins and returns in it brings the first answering node forward, or
      sees a stray return. */
  lemma OneWindow<R>(s: State<R>, es: seq<Event<R>>, good: set<Item>, k: nat) returns (m: nat)
    requires Inv(s) && LogsAgree(s, good) && FirstGood(s.order, good, k)
    requires Valid(s, es) && Throughout(s, es, FixedHealth(good)) && SomeReturned(s, Exec(s, es))
    ensures FirstGood(Exec(s, es).order, good, m) && m <= k
    ensures m == k && k > 0 ==> |Strays(Exec(s, es), k)| < |Strays(s, k)|
  {
    if k == 0 {
      m := StraysShrink(s, es, good, k);
    } else {
      var c :| 0 <= c < |s.calls| && s.calls[c].kind.Failover? && Fresh(s.calls[c]) && Exec(s, es).calls[c].phase.Done?;
      m := TrackEnds(s, es, good, k, c);
    }
  }

  // ---------------------------------------------------------------- many windows

  /** A run cut into windows, with fixed health and a failover call that begins and returns in each; at every cut at
      most `w` failover calls are under way. */
  ghost predicate Windows<R>(s: State<R>, windows: seq<seq<Event<R>>>, good: set<Item>, w: nat)
    decreases |windows|
  {
    && |UnderWay(s)| <= w
    && (windows == [] ||
        (&& Valid(s, windows[0])
         && Throughout(s, windows[0], FixedHealth(good))
         && SomeReturned(s, Exec(s, windows[0]))
         && Windows(Exec(s, windows[0]), windows[1..], good, w)))
  }

  ghost function AfterWindows<R>(s: State<R>, windows: seq<seq<Event<R>>>, good: set<Item>, w: nat): (t: State<R>)
    requires Windows(s, windows, good, w)
    ensures |t.calls| == |s.calls|
    decreases |windows|
  {
    if windows == [] then s else AfterWindows(Exec(s, windows[0]), windows[1..], good, w)
  }

  /** The windows that bring the first answering node from index `k` to the front. */
  function WindowsNeeded(k: nat, w: nat): nat {
    if k == 0 then 0 else (k - 1) * (w + 1) + 1
  }

  /** How many windows can still pass before an answering node is in front. */
  function WindowsLeft<R>(s: State<R>, k: nat, w: nat): (n: nat)
    ensures k > 0 ==> n > 0
  {
    if k == 0 then 0 else WindowsNeeded(k, w) + |Strays(s, k)|
  }

  lemma LeftAtTheStart<R>(s: State<R>, k: nat, w: nat)
    requires Init(s)
    ensures WindowsLeft(s, k, w) == WindowsNeeded(k, w)
  {
    assert Strays(s, k) == {};
  }

  lemma WindowUsesUp<R>(s: State<R>, t: State<R>, k: nat, m: nat, w: nat)
    requires m <= k && 0 < k && |UnderWay(t)| <= w
    requires m == k ==> |Strays(t, k)| < |Strays(s, k)|
    ensures WindowsLeft(t, m, w) < WindowsLeft(s, k, w)
  {
    StraysAreUnderWay(t, m);
    if 0 < m < k {
      LevelDrop(k, m, w);
    }
  }

  lemma LevelDrop(k: nat, m: nat, w: nat)
    requires 0 < m < k
    ensures WindowsNeeded(m, w) + w < WindowsNeeded(k, w)
  {
    ProductDrop(k - 1, m - 1, w);
  }

  lemma ProductDrop(a: nat, b: nat, w: nat)
    requires b < a
    ensures b * (w + 1) + w < a * (w + 1)
  {
    assert a * (w + 1) == b * (w + 1) + (a - b) * (w + 1);
    assert (a - b) * (w + 1) == (a - b - 1) * (w + 1) + (w + 1);
  }

  lemma {:induction false} WindowsAdvance<R>(s: State<R>, windows: seq<seq<Event<R>>>, good: set<Item>, w: nat, k: nat)
    returns (m: nat)
    requires Inv(s) && LogsAgree(s, good) && FirstGood(s.order, good, k) && Windows(s, windows, good, w)
    ensures var t := AfterWindows(s, windows, good, w);
            && Inv(t) && LogsAgree(t, good) && FirstGood(t.order, good, m)
            && (m == 0 || WindowsLeft(t, m, w) + |windows| <= WindowsLeft(s, k, w))
    decreases |windows|
  {
    if windows == [] {
      m := k;
    } else {
      var t := Exec(s, windows[0]);
      ConvergeRun(s, windows[0], good);
      var l := OneWindow(s, windows[0], good, k);
      if k > 0 {
        WindowUsesUp(s, t, k, l, w);
      }
      m := WindowsAdvance(t, windows[1..], good, w, l);
    }
  }

  lemma {:induction false} EnoughWindowsBringToFront<R>(s: State<R>, windows: seq<seq<Event<R>>>, good: set<Item>,
                                                        w: nat, k: nat)
    requires Init(s) && FirstGood(s.order, good, k)
    requires Windows(s, windows, good, w) && |windows| >= WindowsNeeded(k, w)
    ensures var t := AfterWindows(s, windows, good, w);
            Inv(t) && LogsAgree(t, good) && FirstGood(t.order, good, 0)
  {
    LeftAtTheStart(s, k, w);
    var m := WindowsAdvance(s, windows, good, w, k);
  }

  /** Convergence of concurrent calls: with the first answering node at index k and at most w failover calls under way
      at every cut, (k - 1)(w + 1) + 1 windows bring an answering node to the front (k windows if nothing is under way
      at the cuts), and from then on, in every interleaving, a call that has not begun succeeds on its first query. */
  lemma {:induction false} EnoughWindowsServeAll<R>(s: State<R>, windows: seq<seq<Event<R>>>, es: seq<Event<R>>,
                                                    good: set<Item>, w: nat, k: nat, c: nat)
    requires Init(s) && FirstGood(s.order, good, k)
    requires Windows(s, windows, good, w) && |windows| >= WindowsNeeded(k, w)
    requires Valid(AfterWindows(s, windows, good, w), es)
    requires Throughout(AfterWindows(s, windows, good, w), es, FixedHealth(good))
    requires c < |s.calls| && AfterWindows(s, windows, good, w).calls[c].kind.Failover?
    requires Fresh(AfterWindows(s, windows, good, w).calls[c])
    ensures var t := AfterWindows(s, windows, good, w);
            && |t.order| > 0 && t.order[0] in good
            && |Exec(t, es).order| > 0 && Exec(t, es).order[0] in good
            && (Exec(t, es).calls[c].phase.Done? ==>
                  |Exec(t, es).calls[c].log| == 1 && Returned(Exec(t, es).calls[c]).Ok())
  {
    var t := AfterWindows(s, windows, good, w);
    EnoughWindowsBringToFront(s, windows, good, w, k);
    FrontNodeServesAll(t, es, good, c);
  }

  // ---------------------------------------------------------------- no fewer

  lemma {:induction false} ByItselfIsFixedHealth<R>(s: State<R>, es: seq<Event<R>>, c: nat, good: set<Item>, value: R)
    requires Valid(s, es) && Throughout(s, es, OnlyCall(c, AnswersIn(good, value)))
    ensures Throughout(s, es, FixedHealth(good))
    decreases |es|
  {
    if es != [] {
      ByItselfIsFixedHealth(Apply(s, es[0]), es[1..], c, good, value);
    }
  }

  /** A window of one call that nobody disturbs moves the first answering node forward by one. */
  lemma {:induction false} OneQuietWindow<R>(s: State<R>, c: nat, good: set<Item>, k: nat, value: R)
    returns (es: seq<Event<R>>)
    requires DistinctIds(s.order) && FirstGood(s.order, good, k) && k > 0
    requires Resting(s) && c in Unreturned(s)
    ensures Valid(s, es) && Throughout(s, es, FixedHealth(good)) && SomeReturned(s, Exec(s, es))
    ensures Exec(s, es).order == SwapUp(s.order, k) && FirstGood(SwapUp(s.order, k), good, k - 1)
    ensures Resting(Exec(s, es)) && |Unreturned(Exec(s, es))| + 1 == |Unreturned(s)|
  {
    var ask := AnswersIn(good, value);
    assert s.calls[c].log == LogOf(s.order[..0], ask);
    FirstAnsweringIs(s.order, ask, k);
    es := SoloRunIsSequential(s, c, ask);
    ByItselfIsFixedHealth(s, es, c, good, value);
    NextRests(s, Exec(s, es), c);
  }

  lemma NobodyUnderWay<R>(s: State<R>)
    requires Resting(s)
    ensures UnderWay(s) == {}
  {
  }

  /** With nothing under way at the cuts, k windows are necessary too: from every start state with k - 1 failover
      calls, k - 1 windows may leave a dead node in front. */
  lemma {:induction false} FewerWindowsMayNotDo<R>(s: State<R>, good: set<Item>, k: nat, value: R)
    returns (windows: seq<seq<Event<R>>>)
    requires DistinctIds(s.order) && FirstGood(s.order, good, k) && k > 0
    requires Resting(s) && |Unreturned(s)| >= k - 1
    ensures |windows| == k - 1 && Windows(s, windows, good, 0)
    ensures AfterWindows(s, windows, good, 0).order != [] && AfterWindows(s, windows, good, 0).order[0] !in good
    decreases k
  {
    NobodyUnderWay(s);
    if k == 1 {
      windows := [];
    } else {
      var c :| c in Unreturned(s);
      var first := OneQuietWindow(s, c, good, k, value);
      SwapKeepsIds(s.order, k);
      var rest := FewerWindowsMayNotDo(Exec(s, first), good, k - 1, value);
      windows := [first] + rest;
      assert windows[1..] == rest;
    }
  }
}
