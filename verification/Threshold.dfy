/** Exactly when a failover call can come back with an error although nodes answer. The overtaking bound is attained
    from every start state that has a dead node in front and enough other calls: all of them walk the list in step,
    and each answering node they meet is swapped behind the cursors by one of them. */
module Threshold {
  import opened Order
  import opened Replies
  import opened Machine
  import opened Interleavings
  import opened Convergence
  import opened Solo

  // ---------------------------------------------------------------- pieces of runs

  function Unlocks<R>(es: seq<Event<R>>): nat {
    if es == [] then 0 else (if es[0].Unlock? then 1 else 0) + Unlocks(es[1..])
  }

  lemma {:induction false} UnlocksConcat<R>(xs: seq<Event<R>>, ys: seq<Event<R>>)
    ensures Unlocks(xs + ys) == Unlocks(xs) + Unlocks(ys)
  {
    if xs == [] {
      assert xs + ys == ys;
    } else {
      UnlocksConcat(xs[1..], ys);
      assert (xs + ys)[1..] == xs[1..] + ys;
    }
  }

  lemma {:induction false} OvertakesAreUnlocks<R>(s: State<R>, es: seq<Event<R>>, c: nat, good: set<Item>)
    requires Valid(s, es)
    ensures CountWhere(s, es, Overtaking(c, good)) <= Unlocks(es)
    decreases |es|
  {
    if es != [] {
      OvertakesAreUnlocks(Apply(s, es[0]), es[1..], c, good);
    }
  }

  /** The events lead from `s` to `t` with the given health and number of write locks. */
  ghost predicate Leads<R>(s: State<R>, es: seq<Event<R>>, t: State<R>, good: set<Item>, unlocks: nat) {
    Valid(s, es) && Exec(s, es) == t && Throughout(s, es, FixedHealth(good)) && Unlocks(es) == unlocks
  }

  lemma LeadsOn<R>(s: State<R>, xs: seq<Event<R>>, t: State<R>, ys: seq<Event<R>>, u: State<R>,
                   good: set<Item>, m: nat, n: nat)
    requires Leads(s, xs, t, good, m) && Leads(t, ys, u, good, n)
    ensures Leads(s, xs + ys, u, good, m + n)
  {
    ExecConcat(s, xs, ys);
    ThroughoutConcat(s, xs, ys, FixedHealth(good));
    UnlocksConcat(xs, ys);
  }

  lemma LeadsNowhere<R>(s: State<R>, good: set<Item>)
    ensures Leads(s, [], s, good, 0)
  {
  }

  lemma LeadsKeepsInv<R>(s: State<R>, es: seq<Event<R>>, t: State<R>, good: set<Item>, unlocks: nat)
    requires Inv(s) && Leads(s, es, t, good, unlocks)
    ensures Inv(t) && |t.order| == |s.order|
  {
    RunInv(s, es);
  }

  /** One call reads one position. */
  lemma ReadLeads<R>(s: State<R>, c: nat, reply: Reply<R>, good: set<Item>)
    requires NoWriter(s) && c < |s.calls| && s.calls[c].kind.Failover? && s.calls[c].phase.WantRead?
    requires s.calls[c].cursor < |s.order|
    requires reply.Ok() <==> s.order[s.calls[c].cursor] in good
    ensures Leads(s, [RLock(c), Answer(c, reply)],
                  State(s.order, s.calls[c := AfterAnswer(InFlight(s, c), reply, |s.order|)]), good, 0)
  {
    ReadAndAnswer(s, c, reply);
    var es := [RLock(c), Answer(c, reply)];
    var u := Apply(s, es[0]);
    assert es[1..] == [es[1]] && es[1..][1..] == [];
    assert Throughout(Apply(u, es[1]), [], FixedHealth(good));
    assert Throughout(u, es[1..], FixedHealth(good));
    assert Unlocks(es[1..]) == 0;
  }

  /** One call promotes the node it found. */
  lemma PromoteLeads<R>(s: State<R>, c: nat, good: set<Item>)
    requires Quiet(s, c) && c < |s.calls| && s.calls[c].phase.PromotePending?
    requires 0 < s.calls[c].phase.position < |s.order|
    ensures var phase := s.calls[c].phase;
            Leads(s, PromoteEvents(c, phase.position),
                  State(Promote(s.order, phase.position, phase.id), s.calls[c := s.calls[c].(phase := Done)]), good, 1)
  {
    PromoteRuns(s, c);
    var es := PromoteEvents<R>(c, s.calls[c].phase.position);
    assert es == [Ask(c), Lock(c), Unlock(c)];
    assert es[1..] == [Lock(c), Unlock(c)] && es[1..][1..] == [Unlock(c)] && es[1..][1..][1..] == [];
    var u := Apply(s, es[0]);
    var v := Apply(u, es[1]);
    assert Throughout(Apply(v, es[2]), [], FixedHealth(good));
    assert Throughout(v, es[1..][1..], FixedHealth(good));
    assert Throughout(u, es[1..], FixedHealth(good));
    assert Unlocks(es[1..][1..]) == 1;
    assert Unlocks(es[1..]) == 1;
  }

  // ---------------------------------------------------------------- calls walking in step

  /** The failover calls `who` all stand before position `i`, unanswered, or past the end of the list. */
  ghost predicate Walking<R>(s: State<R>, who: set<nat>, i: nat) {
    forall d :: d in who ==> d < |s.calls| && Walks(s.calls[d], i, |s.order|)
  }

  ghost predicate Walks<R>(call: Call<R>, i: nat, length: nat) {
    && call.kind.Failover?
    && call.cursor == i
    && Unanswered(call)
    && call.phase == if i < length then WantRead else Done
  }

  ghost predicate NobodyLocks<R>(s: State<R>) {
    NoReader(s) && NoWriter(s)
  }

  /** Only the calls of `who` differ. */
  ghost predicate OthersKept<R>(s: State<R>, t: State<R>, who: set<nat>) {
    |t.calls| == |s.calls| && forall d :: 0 <= d < |s.calls| && d !in who ==> t.calls[d] == s.calls[d]
  }

  lemma OneMiss<R>(s: State<R>, d: nat, i: nat, no: Reply<R>, good: set<Item>)
    returns (es: seq<Event<R>>, t: State<R>)
    requires Inv(s) && NobodyLocks(s) && i < |s.order| && d < |s.calls| && Walks(s.calls[d], i, |s.order|)
    requires s.order[i] !in good && !no.Ok()
    ensures Leads(s, es, t, good, 0) && t.order == s.order && Inv(t) && NobodyLocks(t)
    ensures OthersKept(s, t, {d}) && Walks(t.calls[d], i + 1, |s.order|)
  {
    ReadLeads(s, d, no, good);
    es := [RLock(d), Answer(d, no)];
    t := State(s.order, s.calls[d := AfterAnswer(InFlight(s, d), no, |s.order|)]);
    LeadsKeepsInv(s, es, t, good, 0);
  }

  lemma StillWalking<R>(s: State<R>, t: State<R>, who: set<nat>, left: set<nat>, d: nat, i: nat)
    requires Walking(s, who, i) && OthersKept(s, t, {d}) && |t.order| == |s.order|
    requires left <= who && d !in left
    ensures Walking(t, left, i)
  {
  }

  /** All of `who` read a dead node. */
  lemma {:induction false} AllMiss<R>(s: State<R>, who: set<nat>, i: nat, no: Reply<R>, good: set<Item>)
    returns (es: seq<Event<R>>, t: State<R>)
    requires Inv(s) && NobodyLocks(s) && i < |s.order| && Walking(s, who, i)
    requires s.order[i] !in good && !no.Ok()
    ensures Leads(s, es, t, good, 0) && t.order == s.order && Inv(t) && NobodyLocks(t)
    ensures OthersKept(s, t, who) && Walking(t, who, i + 1)
    decreases |who|
  {
    if who == {} {
      es, t := [], s;
      LeadsNowhere(s, good);
    } else {
      var d :| d in who;
      var left := who - {d};
      var first, u := OneMiss(s, d, i, no, good);
      StillWalking(s, u, who, left, d, i);
      var rest, v := AllMiss(u, left, i, no, good);
      LeadsOn(s, first, u, rest, v, good, 0, 0);
      assert v.calls[d] == u.calls[d];
      es, t := first + rest, v;
    }
  }

  /** One call finds an answering node behind a dead one and swaps them. */
  lemma OneHit<R>(s: State<R>, d: nat, i: nat, yes: Reply<R>, good: set<Item>)
    returns (es: seq<Event<R>>, t: State<R>)
    requires Inv(s) && NobodyLocks(s) && 0 < i < |s.order| && d < |s.calls| && Walks(s.calls[d], i, |s.order|)
    requires s.order[i] in good && yes.Ok()
    ensures Leads(s, es, t, good, 1) && t.order == SwapUp(s.order, i) && Inv(t) && NobodyLocks(t)
    ensures OthersKept(s, t, {d})
  {
    ReadLeads(s, d, yes, good);
    var read := [RLock(d), Answer(d, yes)];
    var u := State(s.order, s.calls[d := AfterAnswer(InFlight(s, d), yes, |s.order|)]);
    assert u.calls[d].phase == PromotePending(i, s.order[i].id);
    PromoteLeads(u, d, good);
    t := State(SwapUp(s.order, i), u.calls[d := u.calls[d].(phase := Done)]);
    LeadsOn(s, read, u, PromoteEvents(d, i), t, good, 0, 1);
    es := read + PromoteEvents(d, i);
    LeadsKeepsInv(s, es, t, good, 1);
  }

  /** How many answering nodes are at `i` or behind. */
  function GoodFrom(order: seq<Item>, i: nat, good: set<Item>): nat
    requires i <= |order|
  {
    CountMonotone(order, i, |order|, good);
    CountTo(order, |order|, good) - CountTo(order, i, good)
  }

  lemma GoodFromStep(order: seq<Item>, i: nat, good: set<Item>)
    requires i < |order|
    ensures GoodFrom(order, i, good) == GoodFrom(order, i + 1, good) + (if order[i] in good then 1 else 0)
  {
  }

  lemma GoodFromSwapped(order: seq<Item>, i: nat, good: set<Item>)
    requires 0 < i < |order|
    ensures GoodFrom(SwapUp(order, i), i + 1, good) == GoodFrom(order, i + 1, good)
  {
    CountAfterSwap(order, i, |order|, good);
    CountAfterSwap(order, i, i + 1, good);
  }

  /** One call swaps the answering node at `i` behind the cursors of the others ... */
  lemma SwappedBehind<R>(s: State<R>, c: nat, who: set<nat>, i: nat, yes: Reply<R>, good: set<Item>)
    returns (es: seq<Event<R>>, t: State<R>, left: set<nat>)
    requires Inv(s) && NobodyLocks(s) && 0 < i < |s.order| && c !in who && Walking(s, who + {c}, i)
    requires yes.Ok() && |who| > 0 && s.order[i - 1] !in good && s.order[i] in good
    ensures Leads(s, es, t, good, 1) && Inv(t) && NobodyLocks(t) && |t.order| == |s.order|
    ensures t.order[i] !in good && GoodFrom(t.order, i + 1, good) == GoodFrom(s.order, i + 1, good)
    ensures |left| == |who| - 1 && c !in left && |t.calls| == |s.calls| && Walking(t, left + {c}, i)
  {
    var d :| d in who;
    left := who - {d};
    es, t := OneHit(s, d, i, yes, good);
    StillWalking(s, t, who + {c}, left + {c}, d, i);
    GoodFromSwapped(s.order, i, good);
  }

  /** ... which read the dead one again. */
  lemma Sidestep<R>(s: State<R>, c: nat, who: set<nat>, i: nat, yes: Reply<R>, no: Reply<R>, good: set<Item>)
    returns (es: seq<Event<R>>, t: State<R>, left: set<nat>)
    requires Inv(s) && NobodyLocks(s) && 0 < i < |s.order| && c !in who && Walking(s, who + {c}, i)
    requires yes.Ok() && !no.Ok() && |who| > 0
    requires s.order[i - 1] !in good && s.order[i] in good
    ensures Leads(s, es, t, good, 1) && Inv(t) && NobodyLocks(t) && |t.order| == |s.order|
    ensures t.order[i] !in good && GoodFrom(t.order, i + 1, good) == GoodFrom(s.order, i + 1, good)
    ensures |left| == |who| - 1 && c !in left && |t.calls| == |s.calls| && Walking(t, left + {c}, i + 1)
  {
    var swap, u, rest := SwappedBehind(s, c, who, i, yes, good);
    var miss, v := AllMiss(u, rest + {c}, i, no, good);
    LeadsOn(s, swap, u, miss, v, good, 1, 0);
    es, t, left := swap + miss, v, rest;
  }

  /** All walking calls pass position `i`, with a swap if an answering node is there. */
  lemma OnePosition<R>(s: State<R>, c: nat, who: set<nat>, i: nat, yes: Reply<R>, no: Reply<R>, good: set<Item>)
    returns (es: seq<Event<R>>, t: State<R>, left: set<nat>)
    requires Inv(s) && NobodyLocks(s) && i < |s.order| && c !in who && Walking(s, who + {c}, i)
    requires yes.Ok() && !no.Ok()
    requires s.order[if i == 0 then 0 else i - 1] !in good
    requires s.order[i] in good ==> |who| > 0
    ensures |t.order| == |s.order| && t.order[i] !in good
    ensures |left| <= |who| && |who| - |left| == GoodFrom(s.order, i, good) - GoodFrom(t.order, i + 1, good)
    ensures Leads(s, es, t, good, |who| - |left|)
    ensures Inv(t) && NobodyLocks(t) && |t.calls| == |s.calls| && c !in left && Walking(t, left + {c}, i + 1)
  {
    GoodFromStep(s.order, i, good);
    if s.order[i] in good {
      es, t, left := Sidestep(s, c, who, i, yes, no, good);
    } else {
      es, t := AllMiss(s, who + {c}, i, no, good);
      left := who;
    }
  }

  lemma NextIsThere(order: seq<Item>, i: nat, good: set<Item>, n: nat)
    requires i < |order| && GoodFrom(order, i, good) <= n
    ensures order[i] in good ==> n > 0
  {
    GoodFromStep(order, i, good);
  }

  /** From position `i` on, a dead node always right behind the cursors, `c` is led past every answering node. */
  lemma {:induction false} LedPast<R>(s: State<R>, c: nat, who: set<nat>, i: nat, yes: Reply<R>, no: Reply<R>,
                                      good: set<Item>)
    returns (es: seq<Event<R>>, t: State<R>)
    requires Inv(s) && NobodyLocks(s) && i <= |s.order| && c !in who && Walking(s, who + {c}, i)
    requires yes.Ok() && !no.Ok()
    requires s.order[if i == 0 then 0 else i - 1] !in good
    requires GoodFrom(s.order, i, good) <= |who|
    ensures Leads(s, es, t, good, GoodFrom(s.order, i, good))
    ensures |t.calls| == |s.calls| && t.calls[c].phase.Done? && Unanswered(t.calls[c])
    decreases |s.order| - i
  {
    if i == |s.order| {
      es, t := [], s;
      LeadsNowhere(s, good);
      assert Walks(s.calls[c], i, |s.order|);
    } else {
      NextIsThere(s.order, i, good, |who|);
      var first, u, left := OnePosition(s, c, who, i, yes, no, good);
      assert |who| - |left| + GoodFrom(u.order, i + 1, good) == GoodFrom(s.order, i, good);
      var rest, v := LedPast(u, c, left, i + 1, yes, no, good);
      LeadsOn(s, first, u, rest, v, good, |who| - |left|, GoodFrom(u.order, i + 1, good));
      es, t := first + rest, v;
    }
  }

  // ---------------------------------------------------------------- the threshold

  lemma {:induction false} HealthyCallsAreAnswered<R>(s: State<R>, es: seq<Event<R>>, c: nat, good: set<Item>)
    requires Valid(s, es) && c < |s.calls| && s.calls[c].kind.Failover? && Throughout(s, es, FixedHealth(good))
    ensures Throughout(s, es, AnswersCall(c, good))
    decreases |es|
  {
    if es != [] {
      HealthyCallsAreAnswered(Apply(s, es[0]), es[1..], c, good);
    }
  }

  /** The overtaking bound is attained from every start state with a dead node in front and at least as many other
      failover calls as answering nodes: some run with fixed health overtakes the call exactly that often, and it
      returns an error. */
  lemma OvertakingBoundIsTight<R>(s: State<R>, c: nat, good: set<Item>, value: R) returns (es: seq<Event<R>>)
    requires Init(s) && c < |s.calls| && s.calls[c].kind.Failover?
    requires s.order[0] !in good && CountTo(s.order, |s.order|, good) <= |UnfinishedOthers(s, c)|
    ensures Valid(s, es) && Throughout(s, es, FixedHealth(good))
    ensures ReturnsError(Exec(s, es).calls[c])
    ensures CountWhere(s, es, Overtaking(c, good)) == CountTo(s.order, |s.order|, good)
  {
    var t;
    es, t := LedPast(s, c, UnfinishedOthers(s, c), 0, Reply(value, None), Reply(value, Some("down")), good);
    RunInv(s, es);
    KindKept(s, es, c);
    FullScan(t.order, t.calls[c]);
    OvertakesAreUnlocks(s, es, c, good);
    HealthyCallsAreAnswered(s, es, c, good);
    FailoverCompleteness(s, es, c, good);
  }

  /** No interleaving with fixed health makes call `c` return an error. */
  ghost predicate NeverReturnsError<R(!new)>(s: State<R>, c: nat, good: set<Item>)
    requires c < |s.calls|
  {
    forall es :: Valid(s, es) && Throughout(s, es, FixedHealth(good)) ==> !ReturnsError(Exec(s, es).calls[c])
  }

  /** Exactly when failover is safe, from the start state: with fixed health, no interleaving makes the call return an
      error if and only if an answering node is in front or the run has fewer other failover calls than nodes that
      answer. */
  lemma NeverReturnsErrorIff<R(!new)>(s: State<R>, c: nat, good: set<Item>, value: R)
    requires Init(s) && c < |s.calls| && s.calls[c].kind.Failover?
    ensures NeverReturnsError(s, c, good)
       <==> s.order[0] in good || |UnfinishedOthers(s, c)| < CountTo(s.order, |s.order|, good)
  {
    if s.order[0] in good || |UnfinishedOthers(s, c)| < CountTo(s.order, |s.order|, good) {
      forall es | Valid(s, es) && Throughout(s, es, FixedHealth(good))
        ensures !ReturnsError(Exec(s, es).calls[c])
      {
        if s.order[0] in good {
          FrontNodeServesAll(s, es, good, c);
        } else {
          HealthyCallsAreAnswered(s, es, c, good);
          FewOthersMeansSuccess(s, es, c, good);
        }
      }
    } else {
      var es := OvertakingBoundIsTight(s, c, good, value);
      assert Valid(s, es) && Throughout(s, es, FixedHealth(good)) && ReturnsError(Exec(s, es).calls[c]);
    }
  }

  // ---------------------------------------------------------------- asking every node before giving up

  /** Whenever call `c` returns an error it has asked every node exactly once. */
  ghost predicate ErrorMeansAllAsked<R(!new)>(s: State<R>, c: nat)
    requires c < |s.calls|
  {
    forall es :: Valid(s, es) && ReturnsError(Exec(s, es).calls[c]) ==>
      multiset(Asked(Exec(s, es).calls[c].log)) == multiset(s.order)
  }

  lemma ErrorIsUnanswered<R>(order: seq<Item>, call: Call<R>)
    requires CallInv(order, call) && ReturnsError(call)
    ensures Unanswered(call)
  {
  }

  /** With another failover call around, some run makes `c` return an error without ever asking the second node. */
  lemma GivesUpTooEarly<R>(s: State<R>, c: nat, d: nat, value: R) returns (es: seq<Event<R>>)
    requires Init(s) && |s.order| >= 2 && c < |s.calls| && d < |s.calls| && c != d
    requires s.calls[c].kind.Failover? && s.calls[d].kind.Failover?
    ensures Valid(s, es) && ReturnsError(Exec(s, es).calls[c])
    ensures s.order[1] !in Asked(Exec(s, es).calls[c].log)
  {
    var good := {s.order[1]};
    assert s.order[0] != s.order[1];
    OnlyOneGood(s.order, |s.order|);
    assert d in UnfinishedOthers(s, c);
    SubsetIsSmaller({d}, UnfinishedOthers(s, c));
    es := OvertakingBoundIsTight(s, c, good, value);
    var t := Exec(s, es);
    RunInv(s, es);
    KindKept(s, es, c);
    ConvergeRun(s, es, good);
    ErrorIsUnanswered(t.order, t.calls[c]);
    forall k | 0 <= k < |t.calls[c].log|
      ensures t.calls[c].log[k].item != s.order[1]
    {
      assert !t.calls[c].log[k].reply.Ok();
    }
  }

  lemma {:induction false} OnlyOneGood(order: seq<Item>, p: nat)
    requires |order| >= 2 && p <= |order| && DistinctIds(order)
    ensures CountTo(order, p, {order[1]}) == if p >= 2 then 1 else 0
  {
    if p > 0 {
      OnlyOneGood(order, p - 1);
    }
  }

  /** A failover call is sure to have asked every node before it returns an error if and only if there is one node or
      all the other calls are probes. */
  lemma ErrorMeansAllAskedIff<R(!new)>(s: State<R>, c: nat, value: R)
    requires Init(s) && c < |s.calls| && s.calls[c].kind.Failover?
    ensures ErrorMeansAllAsked(s, c) <==> OnlyProbesBeside(s, c)
  {
    if OnlyProbesBeside(s, c) {
      forall es | Valid(s, es) && ReturnsError(Exec(s, es).calls[c])
        ensures multiset(Asked(Exec(s, es).calls[c].log)) == multiset(s.order)
      {
        RunInv(s, es);
        ErrorIsUnanswered(Exec(s, es).order, Exec(s, es).calls[c]);
        NothingCarried(s, es, c);
        FullScanAsksEveryNodeOnce(s, es, c);
      }
    } else {
      var d :| 0 <= d < |s.calls| && d != c && !s.calls[d].kind.Probe?;
      var es := GivesUpTooEarly(s, c, d, value);
      assert s.order[1] in multiset(s.order);
      assert s.order[1] !in multiset(Asked(Exec(s, es).calls[c].log));
    }
  }
}
