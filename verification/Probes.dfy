/** BlockNumber calls among other calls: what their verdict says when the list is being reordered meanwhile, and
    exactly when a probe is sure to read every node. */
module Probes {
  import opened Order
  import opened Replies
  import opened Machine
  import opened Interleavings
  import opened Solo
  import opened Report
  import opened Findings

  /** The replies a call has collected, in the order of its reads. */
  function Collected(log: seq<Query<uint64>>): (replies: seq<Reply<uint64>>)
    ensures |replies| == |log|
    ensures forall k :: 0 <= k < |log| ==> replies[k] == log[k].reply
  {
    seq(|log|, k requires 0 <= k < |log| => log[k].reply)
  }

  ghost predicate Healthy(log: seq<Query<uint64>>) {
    SegmentsTo(Collected(log), |log|) == []
  }

  /** Every query of call `c` is answered by `heightOf`. */
  function AnswersBy(c: nat, heightOf: Item -> Reply<uint64>): (State<uint64>, Event<uint64>) -> bool {
    (s: State<uint64>, e: Event<uint64>) =>
      e.Answer? && e.c == c && Enabled(s, e) ==> e.reply == heightOf(s.calls[c].phase.item)
  }

  ghost predicate LogBy(log: seq<Query<uint64>>, heightOf: Item -> Reply<uint64>) {
    forall k :: 0 <= k < |log| ==> log[k].reply == heightOf(log[k].item)
  }

  lemma {:induction false} LogStaysBy(s: State<uint64>, es: seq<Event<uint64>>, c: nat, heightOf: Item -> Reply<uint64>)
    requires Valid(s, es) && c < |s.calls| && LogBy(s.calls[c].log, heightOf)
    requires Throughout(s, es, AnswersBy(c, heightOf))
    ensures LogBy(Exec(s, es).calls[c].log, heightOf)
    decreases |es|
  {
    if es != [] {
      LogStaysBy(Apply(s, es[0]), es[1..], c, heightOf);
    }
  }

  lemma CollectedIsPoll(log: seq<Query<uint64>>, heightOf: Item -> Reply<uint64>)
    requires LogBy(log, heightOf)
    ensures Collected(log) == Poll(Asked(log), heightOf)
  {
  }

  /** A finished probe has made one read per position, at least one, so it has a verdict: the height read first if it
      is healthy, and otherwise zero and a text that tells all about the replies. */
  lemma FinishedProbeHasAHeight(s: State<uint64>, es: seq<Event<uint64>>, c: nat)
    requires Init(s) && Valid(s, es) && c < |s.calls| && s.calls[c].kind.Probe?
    requires Exec(s, es).calls[c].phase.Done?
    ensures var log := Exec(s, es).calls[c].log;
            && |log| == |s.order| > 0
            && (Healthy(log) ==> HeightsTo(Collected(log), |log|) != []
                                 && Verdict(Collected(log)) == Reply(log[0].reply.value, None))
            && (!Healthy(log) ==> Verdict(Collected(log)).value == 0
                                  && Verdict(Collected(log)).err.Some?
                                  && IsReport(Verdict(Collected(log)).err.value, Collected(log)))
  {
    RunInv(s, es);
    KindKept(s, es, c);
    FullScan(Exec(s, es).order, Exec(s, es).calls[c]);
    ReportIff(Collected(Exec(s, es).calls[c].log));
    VerdictMeans(Collected(Exec(s, es).calls[c].log));
  }

  /** In every interleaving: if all nodes answer and all heights lie within the limit of each other, the probe is
      healthy, even if it reads one node twice and misses another. */
  lemma CloseMeansHealthyInEveryInterleaving(s: State<uint64>, es: seq<Event<uint64>>, c: nat,
                                             heightOf: Item -> Reply<uint64>)
    requires Init(s) && Valid(s, es) && c < |s.calls|
    requires Throughout(s, es, AnswersBy(c, heightOf))
    requires AllAnswer(Poll(s.order, heightOf)) && AllWithinLimit(Poll(s.order, heightOf))
    ensures Healthy(Exec(s, es).calls[c].log)
  {
    var t := Exec(s, es);
    var log := t.calls[c].log;
    var replies, known := Collected(log), Poll(s.order, heightOf);
    RunInv(s, es);
    LogStaysBy(s, es, c, heightOf);
    forall i, j | 0 <= i < |replies| && 0 <= j < |replies|
      ensures replies[i].Ok() && AbsDiff(replies[i].value, replies[j].value) <= BLOCK_DIFF
    {
      var k := PlaceOf(s.order, t.order, log[i].item);
      var l := PlaceOf(s.order, t.order, log[j].item);
      assert replies[i] == known[k] && replies[j] == known[l];
    }
    CloseMeansHealthy(replies);
  }

  /** A probe whose crossings cancel out reports what a sequential BlockNumber reports on some permutation of the
      list; so a healthy verdict bounds the drift of all nodes by 3(n - 1). */
  lemma BalancedProbeIsSequential(s: State<uint64>, es: seq<Event<uint64>>, c: nat, heightOf: Item -> Reply<uint64>)
    requires Init(s) && Valid(s, es) && c < |s.calls| && s.calls[c].kind.Probe?
    requires Throughout(s, es, AnswersBy(c, heightOf))
    requires Exec(s, es).calls[c].phase.Done?
    requires Skipped(s, es, c) == Repeated(s, es, c)
    ensures var log := Exec(s, es).calls[c].log;
            multiset(Asked(log)) == multiset(s.order) && Collected(log) == Poll(Asked(log), heightOf)
    ensures Healthy(Exec(s, es).calls[c].log) ==>
              forall i, j :: 0 <= i < |s.order| && 0 <= j < |s.order| ==>
                && heightOf(s.order[i]).Ok() && heightOf(s.order[j]).Ok()
                && AbsDiff(heightOf(s.order[i]).value, heightOf(s.order[j]).value) <= 3 * (|s.order| - 1)
  {
    var log := Exec(s, es).calls[c].log;
    KindKept(s, es, c);
    FullScanAsksEveryNodeOnce(s, es, c);
    LogStaysBy(s, es, c, heightOf);
    CollectedIsPoll(log, heightOf);
    if Healthy(log) {
      forall i, j | 0 <= i < |s.order| && 0 <= j < |s.order|
        ensures heightOf(s.order[i]).Ok() && heightOf(s.order[j]).Ok()
        ensures AbsDiff(heightOf(s.order[i]).value, heightOf(s.order[j]).value) <= 3 * (|s.order| - 1)
      {
        var k := PlaceOf(Asked(log), s.order, s.order[i]);
        var l := PlaceOf(Asked(log), s.order, s.order[j]);
        SucceedsIff(Collected(log));
        SpreadBound(Collected(log), k, l);
      }
    }
  }

  // ---------------------------------------------------------------- a probe that misses a node

  /** Call `c` reads on to the end of the list, nobody else acting. */
  lemma {:induction false} ReadsOn(s: State<uint64>, c: nat, heightOf: Item -> Reply<uint64>)
    returns (es: seq<Event<uint64>>)
    requires c < |s.calls| && s.calls[c].kind.Probe? && s.calls[c].phase.WantRead? && s.calls[c].cursor < |s.order|
    requires NoWriter(s)
    ensures Valid(s, es) && Exec(s, es).order == s.order && Exec(s, es).calls[c].phase.Done?
    ensures Exec(s, es).calls[c].log == s.calls[c].log + LogOf(s.order[s.calls[c].cursor..], heightOf)
    decreases |s.order| - s.calls[c].cursor
  {
    var i := s.calls[c].cursor;
    var x, query := s.order[i], Query(s.order[i], heightOf(s.order[i]));
    var first := [RLock(c), Answer(c, heightOf(x))];
    ReadAndAnswer(s, c, heightOf(x));
    var t := Exec(s, first);
    assert t.calls[c].log == s.calls[c].log + [query];
    assert s.order[i..] == [x] + s.order[i + 1..];
    LogOfCons(x, s.order[i + 1..], heightOf);
    if i + 1 < |s.order| {
      var rest := ReadsOn(t, c, heightOf);
      es := first + rest;
      ExecConcat(s, first, rest);
      Regroup(s.calls[c].log, query, LogOf(s.order[i + 1..], heightOf));
    } else {
      es := first;
      assert s.order[i + 1..] == [];
    }
  }

  lemma Regroup(log: seq<Query<uint64>>, query: Query<uint64>, rest: seq<Query<uint64>>)
    ensures log + [query] + rest == log + ([query] + rest)
  {
  }

  /** The probe `c` reads the first node and then the failover call `d` swaps the first two. */
  lemma ReadThenSwapped(s: State<uint64>, c: nat, d: nat, reply: Reply<uint64>)
    returns (es: seq<Event<uint64>>, t: State<uint64>)
    requires Init(s) && |s.order| >= 2 && c < |s.calls| && d < |s.calls|
    requires s.calls[c].kind.Probe? && s.calls[d].kind.Failover?
    ensures Valid(s, es) && Exec(s, es) == t && t.order == SwapUp(s.order, 1) && NoWriter(t)
    ensures t.calls[c] == Call(Probe, 1, WantRead, [Query(s.order[0], reply)])
  {
    var read := [RLock(c), Answer(c, reply)];
    ReadAndAnswer(s, c, reply);
    var u := Exec(s, read);
    assert u.calls[d] == s.calls[d];
    var swap := SoloSwap(u, d, 1, 0);
    ExecConcat(s, read, swap);
    es, t := read + swap, Exec(u, swap);
  }

  lemma FirstReadTwice(order: seq<Item>, heightOf: Item -> Reply<uint64>)
    requires |order| >= 2
    ensures [Query(order[0], heightOf(order[0]))] + LogOf(SwapUp(order, 1)[1..], heightOf)
         == LogOf([order[0], order[0]] + order[2..], heightOf)
  {
    assert SwapUp(order, 1)[1..] == [order[0]] + order[2..];
    assert [order[0], order[0]] + order[2..] == [order[0]] + SwapUp(order, 1)[1..];
    LogOfCons(order[0], SwapUp(order, 1)[1..], heightOf);
  }

  /** From every start state with two nodes and a failover call: that call can make the probe read the first node
      twice and never the second. */
  lemma ProbeCanMissANode(s: State<uint64>, c: nat, d: nat, heightOf: Item -> Reply<uint64>)
    returns (es: seq<Event<uint64>>)
    requires Init(s) && |s.order| >= 2 && c < |s.calls| && d < |s.calls|
    requires s.calls[c].kind.Probe? && s.calls[d].kind.Failover?
    ensures Valid(s, es) && Exec(s, es).calls[c].phase.Done?
    ensures Exec(s, es).calls[c].log == LogOf([s.order[0], s.order[0]] + s.order[2..], heightOf)
  {
    var before, t := ReadThenSwapped(s, c, d, heightOf(s.order[0]));
    var after := ReadsOn(t, c, heightOf);
    ExecConcat(s, before, after);
    es := before + after;
    FirstReadTwice(s.order, heightOf);
  }

  function Heights(far: Item, height: uint64): Item -> Reply<uint64> {
    (item: Item) => Reply(if item == far then height else 0, None)
  }

  /** So, whatever the gap, a probe can be healthy while the first two nodes are that far apart. */
  lemma HealthyProbeBoundsNothing(s: State<uint64>, c: nat, d: nat, height: uint64) returns (es: seq<Event<uint64>>)
    requires Init(s) && |s.order| >= 2 && c < |s.calls| && d < |s.calls|
    requires s.calls[c].kind.Probe? && s.calls[d].kind.Failover?
    ensures Valid(s, es) && Exec(s, es).calls[c].phase.Done? && Healthy(Exec(s, es).calls[c].log)
    ensures LogBy(Exec(s, es).calls[c].log, Heights(s.order[1], height))
    ensures Heights(s.order[1], height)(s.order[0]) == Reply(0, None)
    ensures Heights(s.order[1], height)(s.order[1]) == Reply(height, None)
  {
    es := ProbeCanMissANode(s, c, d, Heights(s.order[1], height));
    assert s.order[0] != s.order[1];
    AllZero([s.order[0], s.order[0]] + s.order[2..], s.order[1], height);
  }

  lemma AllZero(items: seq<Item>, far: Item, height: uint64)
    requires far !in items
    ensures Healthy(LogOf(items, Heights(far, height)))
  {
    var replies := Collected(LogOf(items, Heights(far, height)));
    assert forall i :: 0 <= i < |replies| ==> replies[i] == Reply(0, None);
    CloseMeansHealthy(replies);
  }

  lemma TwiceIsNotOnce(items: seq<Item>, order: seq<Item>)
    requires |order| >= 2 && DistinctIds(order) && items == [order[0], order[0]] + order[2..]
    ensures multiset(items) != multiset(order)
  {
    assert order == [order[0], order[1]] + order[2..];
    assert order[1] !in items;
    assert order[1] in multiset(order);
  }

  /** In every run in which the probe finishes it has asked every node exactly once. */
  ghost predicate AlwaysAsksAll(s: State<uint64>, c: nat)
    requires c < |s.calls|
  {
    forall es :: Valid(s, es) && Exec(s, es).calls[c].phase.Done? ==>
      multiset(Asked(Exec(s, es).calls[c].log)) == multiset(s.order)
  }

  /** Exactly when a probe is sure to read every node, in terms of what is known before the call: the list has one
      node, or no failover call is around. */
  lemma AlwaysAsksAllIff(s: State<uint64>, c: nat)
    requires Init(s) && c < |s.calls| && s.calls[c].kind.Probe?
    ensures AlwaysAsksAll(s, c) <==> NothingToSwap(s)
  {
    if NothingToSwap(s) {
      forall es | Valid(s, es) && Exec(s, es).calls[c].phase.Done?
        ensures multiset(Asked(Exec(s, es).calls[c].log)) == multiset(s.order)
      {
        KindKept(s, es, c);
        NothingCarried(s, es, c);
        FullScanAsksEveryNodeOnce(s, es, c);
      }
    } else {
      var d :| 0 <= d < |s.calls| && !s.calls[d].kind.Probe?;
      var heightOf := Heights(s.order[0], 0);
      var es := ProbeCanMissANode(s, c, d, heightOf);
      var items := [s.order[0], s.order[0]] + s.order[2..];
      assert Asked(LogOf(items, heightOf)) == items;
      TwiceIsNotOnce(items, s.order);
    }
  }

  /** Where nothing can be swapped, a healthy verdict bounds the drift of all nodes by 3(n - 1) in every run. */
  lemma UndisturbedProbeBoundsDrift(s: State<uint64>, es: seq<Event<uint64>>, c: nat, heightOf: Item -> Reply<uint64>,
                                    i: nat, j: nat)
    requires Init(s) && NothingToSwap(s) && Valid(s, es) && c < |s.calls| && s.calls[c].kind.Probe?
    requires Throughout(s, es, AnswersBy(c, heightOf)) && Exec(s, es).calls[c].phase.Done?
    requires Healthy(Exec(s, es).calls[c].log) && i < |s.order| && j < |s.order|
    ensures heightOf(s.order[i]).Ok() && heightOf(s.order[j]).Ok()
    ensures AbsDiff(heightOf(s.order[i]).value, heightOf(s.order[j]).value) <= 3 * (|s.order| - 1)
  {
    NothingCarried(s, es, c);
    BalancedProbeIsSequential(s, es, c, heightOf);
  }

  // ---------------------------------------------------------------- the promise of the comment, for the nodes

  /** What the comment on BlockNumber promises: whatever heights the nodes have and however the run goes, if probe `c`
      finishes healthy then no two nodes are further apart than the limit. */
  ghost predicate PromiseKept(s: State<uint64>, c: nat)
    requires c < |s.calls|
  {
    forall es, heightOf: Item -> Reply<uint64> ::
      (&& Valid(s, es) && Throughout(s, es, AnswersBy(c, heightOf))
       && Exec(s, es).calls[c].phase.Done? && Healthy(Exec(s, es).calls[c].log))
      ==> AllWithinLimit(Poll(s.order, heightOf))
  }

  lemma {:induction false} LogGrows(s: State<uint64>, es: seq<Event<uint64>>, c: nat)
    requires Valid(s, es) && c < |s.calls|
    ensures s.calls[c].log <= Exec(s, es).calls[c].log
    decreases |es|
  {
    if es != [] {
      LogGrows(Apply(s, es[0]), es[1..], c);
    }
  }

  /** The log keeps every answer, so it shows how the whole run answered the call. */
  lemma {:induction false} LogByMeansAnswersBy(s: State<uint64>, es: seq<Event<uint64>>, c: nat,
                                               heightOf: Item -> Reply<uint64>)
    requires Valid(s, es) && c < |s.calls| && LogBy(Exec(s, es).calls[c].log, heightOf)
    ensures Throughout(s, es, AnswersBy(c, heightOf))
    decreases |es|
  {
    if es != [] {
      var e, t := es[0], Apply(s, es[0]);
      LogByMeansAnswersBy(t, es[1..], c, heightOf);
      LogGrows(t, es[1..], c);
      if e.Answer? && e.c == c {
        var k := |s.calls[c].log|;
        assert t.calls[c].log[k] == Query(s.calls[c].phase.item, e.reply);
        assert Exec(t, es[1..]).calls[c].log[k] == t.calls[c].log[k];
      }
    }
  }

  /** Heights 0, 3, 6, 6, ... when `first` and `second` are the first two of the list. */
  function Stairs(first: Item, second: Item): Item -> Reply<uint64> {
    (item: Item) => Reply(if item == first then 0 else if item == second then 3 else 6, None)
  }

  lemma {:induction false} StairsAreHealthy(order: seq<Item>)
    requires |order| >= 3 && DistinctIds(order)
    ensures SegmentsTo(Poll(order, Stairs(order[0], order[1])), |order|) == []
    ensures !AllWithinLimit(Poll(order, Stairs(order[0], order[1])))
  {
    var replies := Poll(order, Stairs(order[0], order[1]));
    StairsHeights(order, replies);
    SucceedsIff(replies);
    assert AbsDiff(replies[0].value, replies[2].value) == 6;
  }

  lemma {:induction false} StairsHeights(order: seq<Item>, replies: seq<Reply<uint64>>)
    requires |order| >= 3 && DistinctIds(order) && replies == Poll(order, Stairs(order[0], order[1]))
    ensures replies[0] == Reply(0, None) && replies[1] == Reply(3, None)
    ensures forall k :: 2 <= k < |order| ==> replies[k] == Reply(6, None)
  {
    forall k | 2 <= k < |order|
      ensures replies[k] == Reply(6, None)
    {
      assert order[k].id != order[0].id && order[k].id != order[1].id;
    }
    assert order[1].id != order[0].id;
  }

  lemma {:induction false} StairsFoolTheProbe(order: seq<Item>, heightOf: Item -> Reply<uint64>)
    requires |order| >= 3 && DistinctIds(order) && heightOf == Stairs(order[0], order[1])
    ensures LogBy(LogOf(order, heightOf), heightOf) && Healthy(LogOf(order, heightOf))
    ensures !AllWithinLimit(Poll(order, heightOf))
  {
    StairsAreHealthy(order);
    CollectedIsPoll(LogOf(order, heightOf), heightOf);
    assert Asked(LogOf(order, heightOf)) == order;
  }

  /** Three nodes break the promise without any help from other calls. */
  lemma {:induction false} ThreeNodesBreakIt(s: State<uint64>, c: nat, heightOf: Item -> Reply<uint64>)
    returns (es: seq<Event<uint64>>)
    requires Init(s) && |s.order| >= 3 && c < |s.calls| && s.calls[c].kind.Probe?
    requires heightOf == Stairs(s.order[0], s.order[1])
    ensures Valid(s, es) && Throughout(s, es, AnswersBy(c, heightOf)) && Exec(s, es).calls[c].phase.Done?
    ensures Healthy(Exec(s, es).calls[c].log) && !AllWithinLimit(Poll(s.order, heightOf))
  {
    StairsFoolTheProbe(s.order, heightOf);
    es := ReadsOn(s, c, heightOf);
    assert s.order[0..] == s.order;
    assert [] + LogOf(s.order, heightOf) == LogOf(s.order, heightOf);
    LogByMeansAnswersBy(s, es, c, heightOf);
  }

  /** Two nodes break it when a failover call swaps them between the probe's reads. */
  lemma TwoNodesBreakIt(s: State<uint64>, c: nat, d: nat) returns (es: seq<Event<uint64>>)
    requires Init(s) && |s.order| == 2 && c < |s.calls| && d < |s.calls|
    requires s.calls[c].kind.Probe? && s.calls[d].kind.Failover?
    ensures Valid(s, es) && Throughout(s, es, AnswersBy(c, Heights(s.order[1], 4))) && Exec(s, es).calls[c].phase.Done?
    ensures Healthy(Exec(s, es).calls[c].log) && !AllWithinLimit(Poll(s.order, Heights(s.order[1], 4)))
  {
    es := HealthyProbeBoundsNothing(s, c, d, 4);
    LogByMeansAnswersBy(s, es, c, Heights(s.order[1], 4));
    var replies := Poll(s.order, Heights(s.order[1], 4));
    assert AbsDiff(replies[0].value, replies[1].value) == 4;
  }

  /** The promise is kept in every run if and only if there is one node, or there are two and no failover call is
      around to swap them. */
  lemma PromiseKeptIff(s: State<uint64>, c: nat)
    requires Init(s) && c < |s.calls| && s.calls[c].kind.Probe?
    ensures PromiseKept(s, c) <==> |s.order| == 1 || (|s.order| == 2 && NothingToSwap(s))
  {
    if |s.order| == 1 || (|s.order| == 2 && NothingToSwap(s)) {
      forall es, heightOf: Item -> Reply<uint64> |
        Valid(s, es) && Throughout(s, es, AnswersBy(c, heightOf)) && Exec(s, es).calls[c].phase.Done?
        && Healthy(Exec(s, es).calls[c].log)
        ensures AllWithinLimit(Poll(s.order, heightOf))
      {
        forall i, j | 0 <= i < |s.order| && 0 <= j < |s.order|
          ensures AbsDiff(heightOf(s.order[i]).value, heightOf(s.order[j]).value) <= BLOCK_DIFF
        {
          UndisturbedProbeBoundsDrift(s, es, c, heightOf, i, j);
        }
      }
    } else if |s.order| >= 3 {
      var es := ThreeNodesBreakIt(s, c, Stairs(s.order[0], s.order[1]));
    } else {
      var d :| 0 <= d < |s.calls| && !s.calls[d].kind.Probe?;
      var es := TwoNodesBreakIt(s, c, d);
    }
  }
}
