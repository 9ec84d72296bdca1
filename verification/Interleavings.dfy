/** Safety over whole runs: failover completeness, conservation of reads, positions and acceptances. */
module Interleavings {
  import opened Order
  import opened Machine

  // ---------------------------------------------------------------- failover completeness

  /** `e` swaps two nodes across the cursor of call `c`, between two of its reads. */
  predicate Crosses<R>(s: State<R>, e: Event<R>, c: nat) {
    && Swaps(s, e)
    && c < |s.calls|
    && s.calls[c].phase.WantRead?
    && s.calls[c].cursor == SwapPosition(s, e)
  }

  lemma NotBoth<R>(log: seq<Query<R>>)
    ensures !(AllFailed(log) && AnsweredLast(log))
  {
    if |log| > 0 {
      assert AllFailed(log) ==> !log[|log| - 1].reply.Ok();
    }
  }

  /** Only a call between two reads can have a swap happen at its cursor. */
  lemma SwapAtCursorCrosses<R>(s: State<R>, e: Event<R>, c: nat)
    requires Inv(s) && Swaps(s, e) && c < |s.calls| && Unanswered(s.calls[c])
    ensures s.calls[c].cursor <= |s.order|
    ensures Crosses(s, e, c) <==> s.calls[c].cursor == SwapPosition(s, e)
  {
    var call := s.calls[c];
    assert CallInv(s.order, call);
    NotBoth(call.log);
  }

  /** Between two reads of call `c`, another call's swap at exactly `c`'s cursor moves a node of `good`
      ahead of one that is not: `c` will not see it at this position any more. */
  function Overtaking<R>(c: nat, good: set<Item>): (State<R>, Event<R>) -> bool {
    (s: State<R>, e: Event<R>) =>
      && Crosses(s, e, c)
      && s.order[SwapPosition(s, e)] in good
      && s.order[SwapPosition(s, e) - 1] !in good
  }

  /** The nodes of `good` answer whenever call `c` asks them; all other replies are arbitrary. */
  function AnswersCall<R>(c: nat, good: set<Item>): (State<R>, Event<R>) -> bool {
    (s: State<R>, e: Event<R>) =>
      e.Answer? && e.c == c && c < |s.calls| && s.calls[c].phase.Reading? && s.calls[c].phase.item in good
      ==> e.reply.Ok()
  }

  lemma AnsweredStaysAnswered<R>(s: State<R>, e: Event<R>, c: nat)
    requires Inv(s) && Enabled(s, e) && c < |s.calls| && Unanswered(Apply(s, e).calls[c])
    ensures Unanswered(s.calls[c])
  {
    assert CallInv(s.order, s.calls[c]);
    var log := s.calls[c].log;
    assert log == Apply(s, e).calls[c].log[..|log|];
  }

  lemma {:induction false} UnansweredEarlier<R>(s: State<R>, es: seq<Event<R>>, c: nat)
    requires Inv(s) && Valid(s, es) && c < |s.calls|
    requires Unanswered(Exec(s, es).calls[c])
    ensures Unanswered(s.calls[c])
    decreases |es|
  {
    if es != [] {
      StepInv(s, es[0]);
      RunInv(s, es);
      UnansweredEarlier(Apply(s, es[0]), es[1..], c);
      AnsweredStaysAnswered(s, es[0], c);
    }
  }

  lemma OvertakeStepOfSwap<R>(s: State<R>, e: Event<R>, c: nat, good: set<Item>)
    requires Inv(s) && Swaps(s, e) && c < |s.calls| && Unanswered(s.calls[c])
    ensures s.calls[c].cursor <= |s.order| == |OrderAfter(s, e)|
    ensures CountTo(OrderAfter(s, e), s.calls[c].cursor, good)
         <= CountTo(s.order, s.calls[c].cursor, good) + (if Overtaking(c, good)(s, e) then 1 else 0)
  {
    OrderStep(s, e);
    SwapAtCursorCrosses(s, e, c);
    CountAfterSwap(s.order, SwapPosition(s, e), s.calls[c].cursor, good);
  }

  lemma OvertakeStepOfAnswer<R>(s: State<R>, e: Event<R>, good: set<Item>)
    requires Inv(s) && Enabled(s, e) && e.Answer? && s.calls[e.c].kind.Failover? && Unanswered(CallAfter(s, e))
    requires AnswersCall(e.c, good)(s, e)
    ensures s.calls[e.c].cursor < |s.order| && CallAfter(s, e).cursor == s.calls[e.c].cursor + 1
    ensures CountTo(s.order, CallAfter(s, e).cursor, good) == CountTo(s.order, s.calls[e.c].cursor, good)
  {
    assert CallInv(s.order, s.calls[e.c]);
    assert CallAfter(s, e).log[|s.calls[e.c].log|].reply == e.reply;
  }

  lemma OvertakeStep<R>(s: State<R>, e: Event<R>, c: nat, good: set<Item>)
    requires Inv(s) && Enabled(s, e) && c < |s.calls| && s.calls[c].kind.Failover?
    requires AnswersCall(c, good)(s, e) && Unanswered(Apply(s, e).calls[c])
    ensures s.calls[c].cursor <= |s.order| && Apply(s, e).calls[c].cursor <= |Apply(s, e).order|
    ensures CountTo(Apply(s, e).order, Apply(s, e).calls[c].cursor, good)
         <= CountTo(s.order, s.calls[c].cursor, good) + (if Overtaking(c, good)(s, e) then 1 else 0)
  {
    OrderStep(s, e);
    AnsweredStaysAnswered(s, e, c);
    assert CallInv(s.order, s.calls[c]);
    if Swaps(s, e) {
      OvertakeStepOfSwap(s, e, c, good);
    } else if e.c == c && e.Answer? {
      OvertakeStepOfAnswer(s, e, good);
    }
  }

  /** The good nodes behind the cursor never outnumber the overtakes. */
  lemma {:induction false} PassedOverOnlyByOvertaking<R>(s: State<R>, es: seq<Event<R>>, c: nat, good: set<Item>)
    requires Inv(s) && Valid(s, es) && c < |s.calls| && s.calls[c].kind.Failover?
    requires Throughout(s, es, AnswersCall(c, good))
    requires Unanswered(Exec(s, es).calls[c])
    ensures s.calls[c].cursor <= |s.order|
    ensures var t := Exec(s, es);
            && t.calls[c].cursor <= |t.order|
            && CountTo(t.order, t.calls[c].cursor, good)
               <= CountTo(s.order, s.calls[c].cursor, good) + CountWhere(s, es, Overtaking(c, good))
    decreases |es|
  {
    assert CallInv(s.order, s.calls[c]);
    if es != [] {
      RunInv(s, es);
      StepInv(s, es[0]);
      UnansweredEarlier(Apply(s, es[0]), es[1..], c);
      OvertakeStep(s, es[0], c, good);
      PassedOverOnlyByOvertaking(Apply(s, es[0]), es[1..], c, good);
    }
  }

  lemma {:induction false} CountPermuted<R>(s: State<R>, es: seq<Event<R>>, good: set<Item>)
    requires Inv(s) && Valid(s, es)
    ensures CountTo(Exec(s, es).order, |Exec(s, es).order|, good) == CountTo(s.order, |s.order|, good)
    decreases |es|
  {
    if es != [] {
      StepInv(s, es[0]);
      OrderStep(s, es[0]);
      if Swaps(s, es[0]) {
        CountAfterSwap(s.order, SwapPosition(s, es[0]), |s.order|, good);
      }
      CountPermuted(Apply(s, es[0]), es[1..], good);
    }
  }

  /** Failover completeness in every interleaving: if all the nodes of `good` answer the call, it can only
      return an error after being overtaken at least once for each of them. */
  lemma FailoverCompleteness<R>(s: State<R>, es: seq<Event<R>>, c: nat, good: set<Item>)
    requires Inv(s) && Valid(s, es) && c < |s.calls| && s.calls[c].kind.Failover? && Fresh(s.calls[c])
    requires Throughout(s, es, AnswersCall(c, good))
    ensures var t := Exec(s, es);
            && (t.calls[c].phase.Done? ==>
                  && t.calls[c].log != []
                  && (CountWhere(s, es, Overtaking(c, good)) < CountTo(s.order, |s.order|, good)
                      ==> Returned(t.calls[c]).Ok()))
  {
    RunInv(s, es);
    var t := Exec(s, es);
    assert CallInv(t.order, t.calls[c]);
    KindKept(s, es, c);
    if t.calls[c].phase.Done? && !Returned(t.calls[c]).Ok() {
      PassedOverOnlyByOvertaking(s, es, c, good);
      CountPermuted(s, es, good);
    }
  }

  // ---------------------------------------------------------------- how many calls it takes to overtake

  /** The failover calls other than `c` that have not returned. */
  function UnfinishedOthers<R>(s: State<R>, c: nat): set<nat> {
    set d: nat | d < |s.calls| && d != c && s.calls[d].kind.Failover? && !s.calls[d].phase.Done?
  }

  /** A swap ends the call that makes it, so every other call overtakes at most once. */
  lemma OvertakerLeaves<R>(s: State<R>, e: Event<R>, c: nat, good: set<Item>)
    requires Inv(s) && Enabled(s, e)
    ensures UnfinishedOthers(Apply(s, e), c) <= UnfinishedOthers(s, c)
    ensures Overtaking(c, good)(s, e) ==>
              e.c in UnfinishedOthers(s, c) && e.c !in UnfinishedOthers(Apply(s, e), c)
  {
    assert CallInv(s.order, s.calls[e.c]);
  }

  /** The other failover calls that take a step in the run before `c` has returned. */
  function Meeting<R>(s: State<R>, es: seq<Event<R>>, c: nat): set<nat>
    requires Valid(s, es) && c < |s.calls|
    decreases |es|
  {
    if es == [] || s.calls[c].phase.Done? then {}
    else
      (if es[0].c != c && s.calls[es[0].c].kind.Failover? then {es[0].c} else {}) + Meeting(Apply(s, es[0]), es[1..], c)
  }

  lemma {:induction false} DoneIsNotOvertaken<R>(s: State<R>, es: seq<Event<R>>, c: nat, good: set<Item>)
    requires Valid(s, es) && c < |s.calls| && s.calls[c].phase.Done?
    ensures CountWhere(s, es, Overtaking(c, good)) == 0
    decreases |es|
  {
    if es != [] {
      DoneIsNotOvertaken(Apply(s, es[0]), es[1..], c, good);
    }
  }

  /** An overtaking call is one of those met, and had not returned before. */
  lemma {:induction false} OvertakesNeedMeetings<R>(s: State<R>, es: seq<Event<R>>, c: nat, good: set<Item>)
    requires Inv(s) && Valid(s, es) && c < |s.calls|
    ensures CountWhere(s, es, Overtaking(c, good)) <= |Meeting(s, es, c) * UnfinishedOthers(s, c)|
    decreases |es|
  {
    if s.calls[c].phase.Done? {
      DoneIsNotOvertaken(s, es, c, good);
    } else if es != [] {
      var e, t := es[0], Apply(s, es[0]);
      StepInv(s, e);
      OvertakesNeedMeetings(t, es[1..], c, good);
      OvertakerLeaves(s, e, c, good);
      var met, later := Meeting(s, es, c) * UnfinishedOthers(s, c), Meeting(t, es[1..], c) * UnfinishedOthers(t, c);
      if Overtaking(c, good)(s, e) {
        SubsetIsSmaller(later, met - {e.c});
      } else {
        SubsetIsSmaller(later, met);
      }
    }
  }

  /** A call that meets fewer other failover calls before it returns than there are nodes that answer it returns no
      error, in any interleaving. Calls that come later, or never act while it runs, do not count. */
  lemma FewMeetingsMeanSuccess<R>(s: State<R>, es: seq<Event<R>>, c: nat, good: set<Item>)
    requires Inv(s) && Valid(s, es) && c < |s.calls| && s.calls[c].kind.Failover? && Fresh(s.calls[c])
    requires Throughout(s, es, AnswersCall(c, good))
    requires |Meeting(s, es, c)| < CountTo(s.order, |s.order|, good)
    ensures !ReturnsError(Exec(s, es).calls[c])
  {
    OvertakesNeedMeetings(s, es, c, good);
    SubsetIsSmaller(Meeting(s, es, c) * UnfinishedOthers(s, c), Meeting(s, es, c));
    FailoverCompleteness(s, es, c, good);
  }

  /** The same from the start state alone: the other failover calls of the run that have not returned, whether or not
      they have begun. */
  lemma FewOthersMeansSuccess<R>(s: State<R>, es: seq<Event<R>>, c: nat, good: set<Item>)
    requires Inv(s) && Valid(s, es) && c < |s.calls| && s.calls[c].kind.Failover? && Fresh(s.calls[c])
    requires Throughout(s, es, AnswersCall(c, good))
    requires |UnfinishedOthers(s, c)| < CountTo(s.order, |s.order|, good)
    ensures !ReturnsError(Exec(s, es).calls[c])
  {
    OvertakesNeedMeetings(s, es, c, good);
    SubsetIsSmaller(Meeting(s, es, c) * UnfinishedOthers(s, c), UnfinishedOthers(s, c));
    FailoverCompleteness(s, es, c, good);
  }

  // ---------------------------------------------------------------- conservation of reads

  function Asked<R>(log: seq<Query<R>>): (items: seq<Item>)
    ensures |items| == |log|
    ensures forall k :: 0 <= k < |log| ==> items[k] == log[k].item
  {
    seq(|log|, k requires 0 <= k < |log| => log[k].item)
  }

  /** The node `e` carries across the cursor of `c` from ahead of it to behind it, if any. */
  ghost function CarriedOver<R>(s: State<R>, e: Event<R>, c: nat): multiset<Item> {
    if Crosses(s, e, c) then multiset{s.order[SwapPosition(s, e)]} else multiset{}
  }

  /** The node `e` carries across the cursor of `c` from behind it to ahead of it, if any. */
  ghost function CarriedBack<R>(s: State<R>, e: Event<R>, c: nat): multiset<Item> {
    if Crosses(s, e, c) then multiset{s.order[SwapPosition(s, e) - 1]} else multiset{}
  }

  /** All the nodes a run carries over the cursor of `c`. */
  ghost function Skipped<R>(s: State<R>, es: seq<Event<R>>, c: nat): multiset<Item>
    requires Valid(s, es)
    decreases |es|
  {
    if es == [] then multiset{} else CarriedOver(s, es[0], c) + Skipped(Apply(s, es[0]), es[1..], c)
  }

  /** All the nodes a run carries back over the cursor of `c`. */
  ghost function Repeated<R>(s: State<R>, es: seq<Event<R>>, c: nat): multiset<Item>
    requires Valid(s, es)
    decreases |es|
  {
    if es == [] then multiset{} else CarriedBack(s, es[0], c) + Repeated(Apply(s, es[0]), es[1..], c)
  }

  ghost function Behind<R>(s: State<R>, c: nat): multiset<Item>
    requires c < |s.calls| && s.calls[c].cursor <= |s.order|
  {
    multiset(s.order[..s.calls[c].cursor])
  }

  lemma PrefixAfterSwap(s: seq<Item>, q: nat, p: nat)
    requires 0 < q < |s| && p <= |s|
    ensures p != q ==> multiset(SwapUp(s, q)[..p]) == multiset(s[..p])
    ensures p == q ==> multiset(SwapUp(s, q)[..p]) + multiset{s[q - 1]} == multiset(s[..p]) + multiset{s[q]}
  {
    var r := SwapUp(s, q);
    if p < q {
      assert r[..p] == s[..p];
    } else if p == q {
      assert s[..q] == s[..q - 1] + [s[q - 1]];
      assert r[..q] == s[..q - 1] + [s[q]];
    } else {
      assert r[..p] == SwapUp(s[..p], q);
      SwapUpPermutes(s[..p], q);
    }
  }

  lemma ReadStepOfSwap<R>(s: State<R>, e: Event<R>, c: nat)
    requires Inv(s) && Swaps(s, e) && c < |s.calls| && Unanswered(s.calls[c])
    ensures s.calls[c].cursor <= |s.order| == |OrderAfter(s, e)|
    ensures Behind(s, c) + CarriedOver(s, e, c)
         == multiset(OrderAfter(s, e)[..s.calls[c].cursor]) + CarriedBack(s, e, c)
  {
    OrderStep(s, e);
    SwapAtCursorCrosses(s, e, c);
    PrefixAfterSwap(s.order, SwapPosition(s, e), s.calls[c].cursor);
  }

  lemma ReadStepOfAnswer<R>(s: State<R>, e: Event<R>)
    requires Inv(s) && Enabled(s, e) && e.Answer? && Unanswered(CallAfter(s, e))
    ensures s.calls[e.c].cursor < |s.order| && CallAfter(s, e).cursor == s.calls[e.c].cursor + 1
    ensures multiset(Asked(CallAfter(s, e).log)) + Behind(s, e.c)
         == multiset(Asked(s.calls[e.c].log)) + Behind(Apply(s, e), e.c)
  {
    var call, after := s.calls[e.c], CallAfter(s, e);
    assert CallInv(s.order, call);
    assert after.log[|call.log|].reply == e.reply;
    var i := call.cursor;
    assert s.order[..i + 1] == s.order[..i] + [s.order[i]];
    assert Asked(after.log) == Asked(call.log) + [s.order[i]];
  }

  lemma ReadStep<R>(s: State<R>, e: Event<R>, c: nat)
    requires Inv(s) && Enabled(s, e) && c < |s.calls| && Unanswered(Apply(s, e).calls[c])
    ensures s.calls[c].cursor <= |s.order| && Apply(s, e).calls[c].cursor <= |Apply(s, e).order|
    ensures multiset(Asked(Apply(s, e).calls[c].log)) + (Behind(s, c) + CarriedOver(s, e, c))
         == multiset(Asked(s.calls[c].log)) + (Behind(Apply(s, e), c) + CarriedBack(s, e, c))
  {
    OrderStep(s, e);
    AnsweredStaysAnswered(s, e, c);
    assert CallInv(s.order, s.calls[c]);
    var t := Apply(s, e);
    if Swaps(s, e) {
      ReadStepOfSwap(s, e, c);
      assert t.calls[c].log == s.calls[c].log && t.calls[c].cursor == s.calls[c].cursor;
    } else {
      assert Behind(s, c) + CarriedOver(s, e, c) == Behind(s, c);
      assert Behind(t, c) + CarriedBack(s, e, c) == Behind(t, c);
      if e.c == c && e.Answer? {
        ReadStepOfAnswer(s, e);
      } else {
        assert t.calls[c].log == s.calls[c].log && t.calls[c].cursor == s.calls[c].cursor;
      }
    }
  }

  /** Every node behind the cursor was asked, except those carried over it, and every node asked is behind the
      cursor, except those carried back: an exact balance at every point of every run. */
  lemma {:induction false} ReadBalance<R>(s: State<R>, es: seq<Event<R>>, c: nat)
    requires Inv(s) && Valid(s, es) && c < |s.calls|
    requires Unanswered(Exec(s, es).calls[c])
    ensures var t := Exec(s, es);
            && s.calls[c].cursor <= |s.order| && t.calls[c].cursor <= |t.order|
            && multiset(Asked(t.calls[c].log)) + Behind(s, c) + Skipped(s, es, c)
            == multiset(Asked(s.calls[c].log)) + Behind(t, c) + Repeated(s, es, c)
    decreases |es|
  {
    assert CallInv(s.order, s.calls[c]);
    if es != [] {
      var u, t := Apply(s, es[0]), Exec(s, es);
      RunInv(s, es);
      StepInv(s, es[0]);
      UnansweredEarlier(u, es[1..], c);
      ReadStep(s, es[0], c);
      ReadBalance(u, es[1..], c);
      Telescope(multiset(Asked(t.calls[c].log)), Behind(t, c), multiset(Asked(u.calls[c].log)), Behind(u, c),
                multiset(Asked(s.calls[c].log)), Behind(s, c),
                CarriedOver(s, es[0], c), Skipped(u, es[1..], c), CarriedBack(s, es[0], c), Repeated(u, es[1..], c));
    }
  }

  lemma Telescope(askedT: multiset<Item>, behindT: multiset<Item>, askedU: multiset<Item>, behindU: multiset<Item>,
                  askedS: multiset<Item>, behindS: multiset<Item>,
                  out: multiset<Item>, outs: multiset<Item>, back: multiset<Item>, backs: multiset<Item>)
    requires askedU + (behindS + out) == askedS + (behindU + back)
    requires askedT + behindU + outs == askedU + behindT + backs
    ensures askedT + behindS + (out + outs) == askedS + behindT + (back + backs)
  {
    forall x
      ensures (askedT + behindS + (out + outs))[x] == (askedS + behindT + (back + backs))[x]
    {
      assert (askedU + (behindS + out))[x] == (askedS + (behindU + back))[x];
      assert (askedT + behindU + outs)[x] == (askedU + behindT + backs)[x];
    }
  }

  lemma FullScan<R>(order: seq<Item>, call: Call<R>)
    requires CallInv(order, call) && call.phase.Done? && Unanswered(call)
    ensures call.cursor == |order| == |call.log|
    ensures order[..call.cursor] == order
  {
    NotBoth(call.log);
  }

  /** A call that walked the whole list without an answer (or a finished BlockNumber call) has asked every node
      exactly once if and only if the nodes carried across its cursor one way are those carried back. */
  lemma FullScanAsksEveryNodeOnce<R>(s: State<R>, es: seq<Event<R>>, c: nat)
    requires Init(s) && Valid(s, es) && c < |s.calls|
    requires Exec(s, es).calls[c].phase.Done? && Unanswered(Exec(s, es).calls[c])
    ensures |Exec(s, es).calls[c].log| == |s.order|
    ensures multiset(Asked(Exec(s, es).calls[c].log)) + Skipped(s, es, c) == multiset(s.order) + Repeated(s, es, c)
    ensures multiset(Asked(Exec(s, es).calls[c].log)) == multiset(s.order)
       <==> Skipped(s, es, c) == Repeated(s, es, c)
  {
    var t := Exec(s, es);
    RunInv(s, es);
    ReadBalance(s, es, c);
    FullScan(t.order, t.calls[c]);
    assert multiset(Asked(s.calls[c].log)) == multiset{} by { assert Asked(s.calls[c].log) == []; }
    assert Behind(s, c) == multiset{} by { assert s.order[..0] == []; }
    assert Behind(t, c) == multiset(s.order);
    assert multiset(Asked(t.calls[c].log)) + Skipped(s, es, c) == multiset(s.order) + Repeated(s, es, c) by {
      assert forall a: multiset<Item> :: a + multiset{} == a && multiset{} + a == a;
    }
    Cancel(multiset(Asked(t.calls[c].log)), Skipped(s, es, c), multiset(s.order), Repeated(s, es, c));
  }

  /** Without failover calls, or with one node, nothing is ever swapped. */
  ghost predicate NothingToSwap<R>(s: State<R>) {
    |s.order| == 1 || forall d :: 0 <= d < |s.calls| ==> s.calls[d].kind.Probe?
  }

  /** Every other call is a probe, so nobody can swap while `c` is between two reads. */
  ghost predicate OnlyProbesBeside<R>(s: State<R>, c: nat) {
    |s.order| == 1 || forall d :: 0 <= d < |s.calls| && d != c ==> s.calls[d].kind.Probe?
  }

  lemma NothingCrosses<R>(s: State<R>, e: Event<R>, c: nat)
    requires Inv(s) && Enabled(s, e) && OnlyProbesBeside(s, c)
    ensures !Crosses(s, e, c) && OnlyProbesBeside(Apply(s, e), c)
  {
    OrderStep(s, e);
    assert CallInv(s.order, s.calls[e.c]);
  }

  lemma {:induction false} NothingCarried<R>(s: State<R>, es: seq<Event<R>>, c: nat)
    requires Inv(s) && Valid(s, es) && OnlyProbesBeside(s, c)
    ensures Skipped(s, es, c) == multiset{} && Repeated(s, es, c) == multiset{}
    decreases |es|
  {
    if es != [] {
      NothingCrosses(s, es[0], c);
      StepInv(s, es[0]);
      NothingCarried(Apply(s, es[0]), es[1..], c);
    }
  }

  lemma Cancel(a: multiset<Item>, b: multiset<Item>, x: multiset<Item>, y: multiset<Item>)
    requires a + b == x + y
    ensures a == x <==> b == y
  {
    assert a == (a + b) - b && x == (x + y) - y;
    assert b == (a + b) - a && y == (x + y) - x;
  }

  // ---------------------------------------------------------------- positions

  /** Where `x` stands in the list. */
  ghost function Index(order: seq<Item>, x: Item): (i: nat)
    requires x in order
    ensures i < |order| && order[i] == x
  {
    var i :| 0 <= i < |order| && order[i] == x;
    i
  }

  lemma IndexUnique(order: seq<Item>, x: Item, i: nat)
    requires DistinctIds(order) && i < |order| && order[i] == x
    ensures x in order && Index(order, x) == i
  {
    IdAtMostOnce(order, i, Index(order, x));
  }

  /** A swap moves `x` from `p` forward to `p - 1`. */
  function Promotes<R>(x: Item, p: nat): (State<R>, Event<R>) -> bool {
    (s: State<R>, e: Event<R>) => Swaps(s, e) && SwapPosition(s, e) == p && s.order[SwapPosition(s, e)] == x
  }

  /** A swap moves `x` from `p - 1` back to `p`. */
  function Demotes<R>(x: Item, p: nat): (State<R>, Event<R>) -> bool {
    (s: State<R>, e: Event<R>) => Swaps(s, e) && SwapPosition(s, e) == p && s.order[SwapPosition(s, e) - 1] == x
  }

  function PromotesAnywhere<R>(x: Item): (State<R>, Event<R>) -> bool {
    (s: State<R>, e: Event<R>) => Swaps(s, e) && s.order[SwapPosition(s, e)] == x
  }

  function DemotesAnywhere<R>(x: Item): (State<R>, Event<R>) -> bool {
    (s: State<R>, e: Event<R>) => Swaps(s, e) && s.order[SwapPosition(s, e) - 1] == x
  }

  lemma IndexStep<R>(s: State<R>, e: Event<R>, x: Item)
    requires Inv(s) && Enabled(s, e) && x in s.order
    ensures Inv(Apply(s, e)) && x in Apply(s, e).order
    ensures Index(Apply(s, e).order, x) ==
            Index(s.order, x)
            - (if PromotesAnywhere<R>(x)(s, e) then 1 else 0)
            + (if DemotesAnywhere<R>(x)(s, e) then 1 else 0)
    ensures PromotesAnywhere<R>(x)(s, e) ==> SwapPosition(s, e) == Index(s.order, x)
    ensures DemotesAnywhere<R>(x)(s, e) ==> SwapPosition(s, e) == Index(s.order, x) + 1
  {
    StepInv(s, e);
    OrderStep(s, e);
    var i := Index(s.order, x);
    if Swaps(s, e) {
      var q := SwapPosition(s, e);
      if s.order[q] == x {
        IndexUnique(s.order, x, q);
        assert s.order[q - 1].id != s.order[q].id;
        IndexUnique(Apply(s, e).order, x, q - 1);
      } else if s.order[q - 1] == x {
        IndexUnique(s.order, x, q - 1);
        IndexUnique(Apply(s, e).order, x, q);
      } else {
        IndexUnique(Apply(s, e).order, x, i);
      }
    }
  }

  /** Position conservation: final index == initial index - promotions + demotions, for every node in every run. */
  lemma {:induction false} PositionConservation<R>(s: State<R>, es: seq<Event<R>>, x: Item)
    requires Inv(s) && Valid(s, es) && x in s.order
    ensures x in Exec(s, es).order
    ensures Index(Exec(s, es).order, x) + CountWhere(s, es, PromotesAnywhere(x))
         == Index(s.order, x) + CountWhere(s, es, DemotesAnywhere(x))
    decreases |es|
  {
    if es != [] {
      IndexStep(s, es[0], x);
      PositionConservation(Apply(s, es[0]), es[1..], x);
    }
  }

  /** Flow across one boundary: over the edge between `p - 1` and `p`, the promotions of `x` exceed its
      demotions by one, nothing or minus one, according to the side it starts and ends on. */
  lemma {:induction false} FlowAcrossEdge<R>(s: State<R>, es: seq<Event<R>>, x: Item, p: nat)
    requires Inv(s) && Valid(s, es) && x in s.order
    ensures x in Exec(s, es).order
    ensures CountWhere(s, es, Promotes(x, p)) + (if Index(Exec(s, es).order, x) >= p then 1 else 0)
         == CountWhere(s, es, Demotes(x, p)) + (if Index(s.order, x) >= p then 1 else 0)
    decreases |es|
  {
    if es != [] {
      IndexStep(s, es[0], x);
      FlowAcrossEdge(Apply(s, es[0]), es[1..], x, p);
    }
  }

  /** Stale promotions collapse: however many calls saw `x` succeed at position `p`, at most one of them swaps
      unless `x` is demoted back to `p` in between. */
  lemma StalePromotionsCollapse<R>(s: State<R>, es: seq<Event<R>>, x: Item, p: nat)
    requires Inv(s) && Valid(s, es) && x in s.order
    ensures CountWhere(s, es, Promotes(x, p)) <= CountWhere(s, es, Demotes(x, p)) + 1
  {
    FlowAcrossEdge(s, es, x, p);
  }

  // ---------------------------------------------------------------- acceptances

  /** A node accepts a query made by one of the calls `who`. */
  function Accepts<R>(who: set<nat>): (State<R>, Event<R>) -> bool {
    (s: State<R>, e: Event<R>) => e.Answer? && e.c in who && e.reply.Ok()
  }

  /** How many of the first `k` calls are in `who` and have been answered. */
  ghost function AnsweredCalls<R>(calls: seq<Call<R>>, k: nat, who: set<nat>): nat
    requires k <= |calls|
  {
    if k == 0 then 0
    else AnsweredCalls(calls, k - 1, who) + (if k - 1 in who && AnsweredLast(calls[k - 1].log) then 1 else 0)
  }

  lemma {:induction false} AnsweredCallsUpdate<R>(calls: seq<Call<R>>, k: nat, who: set<nat>, c: nat, call: Call<R>)
    requires k <= |calls| && c < |calls|
    ensures AnsweredCalls(calls[c := call], k, who)
            + (if c < k && c in who && AnsweredLast(calls[c].log) then 1 else 0)
         == AnsweredCalls(calls, k, who) + (if c < k && c in who && AnsweredLast(call.log) then 1 else 0)
  {
    if k > 0 {
      AnsweredCallsUpdate(calls, k - 1, who, c, call);
    }
  }

  lemma AcceptStep<R>(s: State<R>, e: Event<R>, who: set<nat>)
    requires Inv(s) && Enabled(s, e)
    requires forall c :: c in who && c < |s.calls| ==> s.calls[c].kind.Failover?
    ensures AnsweredCalls(Apply(s, e).calls, |s.calls|, who)
         == AnsweredCalls(s.calls, |s.calls|, who) + (if Accepts<R>(who)(s, e) then 1 else 0)
  {
    var call, after := s.calls[e.c], CallAfter(s, e);
    assert CallInv(s.order, call);
    AnsweredCallsUpdate(s.calls, |s.calls|, who, e.c, after);
    if e.Answer? && call.kind.Failover? {
      assert after.log[..|call.log|] == call.log;
      if AnsweredLast(call.log) {
        assert call.log[|call.log| - 1].reply.Ok();
      }
    }
  }

  lemma {:induction false} AcceptancesCounted<R>(s: State<R>, es: seq<Event<R>>, who: set<nat>)
    requires Inv(s) && Valid(s, es)
    requires forall c :: c in who && c < |s.calls| ==> s.calls[c].kind.Failover?
    ensures AnsweredCalls(Exec(s, es).calls, |s.calls|, who)
         == AnsweredCalls(s.calls, |s.calls|, who) + CountWhere(s, es, Accepts(who))
    decreases |es|
  {
    if es != [] {
      StepInv(s, es[0]);
      AcceptStep(s, es[0], who);
      AcceptancesCounted(Apply(s, es[0]), es[1..], who);
    }
  }

  /** How many of the first `k` calls are in `who` and returned a nil error. */
  ghost function ReturnedNil<R>(calls: seq<Call<R>>, k: nat, who: set<nat>): nat
    requires k <= |calls|
  {
    if k == 0 then 0
    else ReturnedNil(calls, k - 1, who)
         + (if k - 1 in who && calls[k - 1].log != [] && Returned(calls[k - 1]).Ok() then 1 else 0)
  }

  /** How many queries of one call were accepted. */
  function Accepted<R>(log: seq<Query<R>>): nat {
    if log == [] then 0 else Accepted(log[..|log| - 1]) + (if log[|log| - 1].reply.Ok() then 1 else 0)
  }

  lemma {:induction false} NoneAccepted<R>(log: seq<Query<R>>)
    requires AllFailed(log)
    ensures Accepted(log) == 0
  {
    if log != [] {
      NoneAccepted(log[..|log| - 1]);
    }
  }

  lemma {:induction false} NilMeansAnswered<R>(order: seq<Item>, calls: seq<Call<R>>, k: nat, who: set<nat>)
    requires k <= |calls|
    requires forall c :: 0 <= c < k && c in who ==>
               CallInv(order, calls[c]) && calls[c].phase.Done? && calls[c].kind.Failover?
    ensures AnsweredCalls(calls, k, who) == ReturnedNil(calls, k, who)
  {
    if k > 0 {
      NilMeansAnswered(order, calls, k - 1, who);
      if k - 1 in who {
        assert CallInv(order, calls[k - 1]);
      }
    }
  }

  lemma AcceptedAtMostOnce<R>(order: seq<Item>, call: Call<R>)
    requires |order| > 0 && CallInv(order, call) && call.phase.Done? && call.kind.Failover?
    ensures call.log != [] && Accepted(call.log) == if Returned(call).Ok() then 1 else 0
  {
    if AllFailed(call.log) {
      NoneAccepted(call.log);
    } else {
      NoneAccepted(call.log[..|call.log| - 1]);
    }
  }

  /** Submission conservation: over any run in which the SendTransaction calls `who` have all returned, nodes
      accepted exactly as many submissions as calls returned nil; each call had at most one accepted, and
      exactly one if and only if it returned nil. */
  lemma SubmissionConservation<R>(s: State<R>, es: seq<Event<R>>, who: set<nat>)
    requires Init(s) && Valid(s, es)
    requires forall c :: c in who ==> c < |s.calls| && s.calls[c].kind.Failover?
    requires forall c :: c in who ==> Exec(s, es).calls[c].phase.Done?
    ensures CountWhere(s, es, Accepts(who)) == ReturnedNil(Exec(s, es).calls, |s.calls|, who)
    ensures forall c :: c in who ==>
              var call := Exec(s, es).calls[c];
              call.log != [] && Accepted(call.log) == if Returned(call).Ok() then 1 else 0
  {
    RunInv(s, es);
    var t := Exec(s, es);
    forall c | c in who
      ensures t.calls[c].kind.Failover? && CallInv(t.order, t.calls[c])
      ensures t.calls[c].log != []
      ensures Accepted(t.calls[c].log) == if Returned(t.calls[c]).Ok() then 1 else 0
    {
      KindKept(s, es, c);
      AcceptedAtMostOnce(t.order, t.calls[c]);
    }
    AcceptancesCounted(s, es, who);
    NothingAnsweredYet(s, |s.calls|, who);
    NilMeansAnswered(t.order, t.calls, |t.calls|, who);
  }

  lemma {:induction false} NothingAnsweredYet<R>(s: State<R>, k: nat, who: set<nat>)
    requires Init(s) && k <= |s.calls|
    ensures AnsweredCalls(s.calls, k, who) == 0
  {
    if k > 0 {
      NothingAnsweredYet(s, k - 1, who);
    }
  }
}
