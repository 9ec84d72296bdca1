/** Deadlock freedom and termination, under the policy in which a waiting writer keeps new readers out. */
module Liveness {
  import opened Replies
  import opened Machine

  ghost predicate AllDone<R>(s: State<R>) {
    forall c :: 0 <= c < |s.calls| ==> s.calls[c].phase.Done?
  }

  /** Some call can always move: the lock is never held or awaited in a circle. `reply` stands for whatever an
      outstanding query returns. */
  lemma SomeCallCanMove<R>(s: State<R>, reply: Reply<R>) returns (e: Event<R>)
    requires Inv(s) && !AllDone(s)
    ensures StrictlyEnabled(s, e)
  {
    var calls := s.calls;
    if d :| 0 <= d < |calls| && calls[d].phase.Writing? {
      e := Unlock(d);
    } else if d :| 0 <= d < |calls| && calls[d].phase.Reading? {
      e := Answer(d, reply);
    } else if d :| 0 <= d < |calls| && calls[d].phase.PromotePending? {
      e := Ask(d);
    } else if d :| 0 <= d < |calls| && calls[d].phase.WantWrite? {
      e := Lock(d);
    } else {
      var d :| 0 <= d < |calls| && !calls[d].phase.Done?;
      assert CallInv(s.order, calls[d]);
      e := RLock(d);
    }
  }

  /** How many more steps a call can take on a list of `length` nodes. */
  function Remaining<R>(call: Call<R>, length: nat): nat {
    var left := if call.cursor < length then length - call.cursor else 0;
    match call.phase
    case WantRead => 2 * left + 3
    case Reading(_) => 2 * left + 2
    case PromotePending(_, _) => 3
    case WantWrite(_, _) => 2
    case Writing(_, _) => 1
    case Done => 0
    case Panicked => 0
  }

  function TotalRemaining<R>(calls: seq<Call<R>>, k: nat, length: nat): nat
    requires k <= |calls|
  {
    if k == 0 then 0 else TotalRemaining(calls, k - 1, length) + Remaining(calls[k - 1], length)
  }

  lemma {:induction false} TotalUpdate<R>(calls: seq<Call<R>>, k: nat, length: nat, c: nat, call: Call<R>)
    requires k <= |calls| && c < |calls|
    ensures TotalRemaining(calls[c := call], k, length) + (if c < k then Remaining(calls[c], length) else 0)
         == TotalRemaining(calls, k, length) + (if c < k then Remaining(call, length) else 0)
  {
    if k > 0 {
      TotalUpdate(calls, k - 1, length, c, call);
    }
  }

  lemma CallUsesUp<R>(s: State<R>, e: Event<R>)
    requires Inv(s) && Enabled(s, e)
    ensures Remaining(CallAfter(s, e), |s.order|) < Remaining(s.calls[e.c], |s.order|)
  {
    assert CallInv(s.order, s.calls[e.c]);
  }

  lemma StepUsesUp<R>(s: State<R>, e: Event<R>)
    requires Inv(s) && Enabled(s, e)
    ensures TotalRemaining(Apply(s, e).calls, |s.calls|, |Apply(s, e).order|)
          < TotalRemaining(s.calls, |s.calls|, |s.order|)
  {
    StepInv(s, e);
    TotalUpdate(s.calls, |s.calls|, |s.order|, e.c, CallAfter(s, e));
    CallUsesUp(s, e);
  }

  lemma {:induction false} RunUsesUp<R>(s: State<R>, es: seq<Event<R>>)
    requires Inv(s) && Valid(s, es)
    ensures |es| + TotalRemaining(Exec(s, es).calls, |s.calls|, |Exec(s, es).order|)
         <= TotalRemaining(s.calls, |s.calls|, |s.order|)
    decreases |es|
  {
    if es != [] {
      StepInv(s, es[0]);
      StepUsesUp(s, es[0]);
      RunUsesUp(Apply(s, es[0]), es[1..]);
    }
  }

  lemma {:induction false} FreshTotal<R>(s: State<R>, k: nat)
    requires Init(s) && k <= |s.calls|
    ensures TotalRemaining(s.calls, k, |s.order|) == k * (2 * |s.order| + 3)
  {
    if k > 0 {
      FreshTotal(s, k - 1);
      assert s.calls[k - 1] == Call(s.calls[k - 1].kind, 0, WantRead, []);
      assert k * (2 * |s.order| + 3) == (k - 1) * (2 * |s.order| + 3) + (2 * |s.order| + 3);
    }
  }

  /** Every run is finite, with at most 2n + 3 steps a call, and a run that cannot be continued even with
      writers first has finished all its calls. */
  lemma EveryRunEndsWithAllCallsDone<R>(s: State<R>, es: seq<Event<R>>, reply: Reply<R>)
    requires Init(s) && Valid(s, es)
    ensures |es| <= |s.calls| * (2 * |s.order| + 3)
    ensures (forall e: Event<R> :: !StrictlyEnabled(Exec(s, es), e)) <==> AllDone(Exec(s, es))
  {
    RunInv(s, es);
    RunUsesUp(s, es);
    FreshTotal(s, |s.calls|);
    if !AllDone(Exec(s, es)) {
      var e := SomeCallCanMove(Exec(s, es), reply);
    }
  }

  /** A run in which every step is allowed with writers first. */
  predicate StrictRun<R>(s: State<R>, es: seq<Event<R>>)
    requires Valid(s, es)
    decreases |es|
  {
    es == [] || (StrictlyEnabled(s, es[0]) && StrictRun(Apply(s, es[0]), es[1..]))
  }

  /** From every reachable state all calls can still finish. */
  lemma {:induction false} AllCallsCanFinish<R>(s: State<R>, reply: Reply<R>) returns (es: seq<Event<R>>)
    requires Inv(s)
    ensures Valid(s, es) && StrictRun(s, es) && AllDone(Exec(s, es))
    decreases TotalRemaining(s.calls, |s.calls|, |s.order|)
  {
    if AllDone(s) {
      es := [];
    } else {
      var e := SomeCallCanMove(s, reply);
      StepInv(s, e);
      StepUsesUp(s, e);
      var rest := AllCallsCanFinish(Apply(s, e), reply);
      es := [e] + rest;
      assert es[1..] == rest;
    }
  }

  // ---------------------------------------------------------------- what writers first buys

  function Readers<R>(s: State<R>): set<nat> {
    set d: nat | d < |s.calls| && s.calls[d].phase.Reading?
  }

  function Answers<R>(): (State<R>, Event<R>) -> bool {
    (s: State<R>, e: Event<R>) => e.Answer?
  }

  /** How many more steps a call can take without taking the read lock again. */
  function StepsInside<R>(call: Call<R>): nat {
    match call.phase
    case Reading(_) => 4
    case PromotePending(_, _) => 3
    case WantWrite(_, _) => 2
    case Writing(_, _) => 1
    case _ => 0
  }

  /** The same for all of the first `k` calls but `c`. */
  function StepsAhead<R>(calls: seq<Call<R>>, k: nat, c: nat): (n: nat)
    requires k <= |calls|
    ensures n <= 4 * (if c < k then k - 1 else k)
  {
    if k == 0 then 0 else StepsAhead(calls, k - 1, c) + (if k - 1 == c then 0 else StepsInside(calls[k - 1]))
  }

  lemma {:induction false} StepsAheadUpdate<R>(calls: seq<Call<R>>, k: nat, c: nat, d: nat, call: Call<R>)
    requires k <= |calls| && d < |calls| && d != c && StepsInside(call) < StepsInside(calls[d])
    ensures StepsAhead(calls[d := call], k, c) + (if d < k then 1 else 0) <= StepsAhead(calls, k, c)
  {
    if k > 0 {
      StepsAheadUpdate(calls, k - 1, c, d, call);
    }
  }

  lemma ReadersStep<R>(s: State<R>, e: Event<R>)
    requires Enabled(s, e) && !e.RLock?
    ensures |Readers(Apply(s, e))| + (if e.Answer? then 1 else 0) == |Readers(s)|
  {
    if e.Answer? {
      assert Readers(Apply(s, e)) == Readers(s) - {e.c};
    } else {
      assert Readers(Apply(s, e)) == Readers(s);
    }
  }

  /** With writers first, while call `c` waits for the write lock no call starts a read: it waits for no queries but
      those in flight when it began to wait, and for at most four steps of every other call, however long the list
      is. */
  lemma {:induction false} WaitingWriterKeepsReadersOut<R>(s: State<R>, es: seq<Event<R>>, c: nat)
    requires Valid(s, es) && StrictRun(s, es)
    requires c < |s.calls| && s.calls[c].phase.WantWrite? && forall e :: e in es ==> e.c != c
    ensures forall e :: e in es ==> !e.RLock?
    ensures CountWhere(s, es, Answers()) + |Readers(Exec(s, es))| == |Readers(s)|
    ensures |es| <= StepsAhead(s.calls, |s.calls|, c) <= 4 * (|s.calls| - 1)
    decreases |es|
  {
    if es != [] {
      var e, t := es[0], Apply(s, es[0]);
      assert e in es && forall later :: later in es[1..] ==> later in es;
      ReadersStep(s, e);
      StepsAheadUpdate(s.calls, |s.calls|, c, e.c, CallAfter(s, e));
      WaitingWriterKeepsReadersOut(t, es[1..], c);
    }
  }
}
