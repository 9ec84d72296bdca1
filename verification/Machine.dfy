/** Any number of concurrent calls on one multi-node client, as a step relation.

    The list is shared; every call has its own cursor and phase. A call holds the read lock while
    it reads one position and queries that node, and takes the write lock only to promote.
    Readers are admitted whenever no call is writing, so a run here may use any admission policy;
    `StrictlyEnabled` is the policy in which a waiting writer keeps new readers out. */
module Machine {
  import opened Order
  import opened Replies

  /** The four failover operations are one algorithm; BlockNumber visits every position. */
  datatype Kind = Failover | Probe

  /** One query a call has made: the node it asked and what came back. */
  datatype Query<+R> = Query(item: Item, reply: Reply<R>)

  datatype Phase =
    | WantRead                                       // about to take the read lock for `cursor`
    | Reading(item: Item)                            // read lock held, query in flight
    | PromotePending(position: nat, id: string)      // read lock released, a node answered
    | WantWrite(position: nat, id: string)           // blocked on the write lock
    | Writing(position: nat, id: string)             // write lock held
    | Done
    | Panicked                                       // index out of range

  datatype Call<+R> = Call(kind: Kind, cursor: nat, phase: Phase, log: seq<Query<R>>)

  datatype State<+R> = State(order: seq<Item>, calls: seq<Call<R>>)

  /** The actions of call `c`. */
  datatype Event<+R> =
    | RLock(c: nat)
    | Answer(c: nat, reply: Reply<R>)                // the query returns and the read lock is released
    | Ask(c: nat)                                    // increaseNodePriority up to its call of Lock
    | Lock(c: nat)
    | Unlock(c: nat)                                 // guard, swap, release

  predicate NoWriter<R>(s: State<R>) {
    forall d :: 0 <= d < |s.calls| ==> !s.calls[d].phase.Writing?
  }

  predicate NoReader<R>(s: State<R>) {
    forall d :: 0 <= d < |s.calls| ==> !s.calls[d].phase.Reading?
  }

  predicate Enabled<R>(s: State<R>, e: Event<R>) {
    && e.c < |s.calls|
    && var phase := s.calls[e.c].phase;
    match e
    case RLock(_) => phase.WantRead? && NoWriter(s)
    case Answer(_, _) => phase.Reading?
    case Ask(_) => phase.PromotePending?
    case Lock(_) => phase.WantWrite? && NoWriter(s) && NoReader(s)
    case Unlock(_) => phase.Writing?
  }

  /** Enabled even when a call waiting for the write lock keeps new readers out. */
  predicate StrictlyEnabled<R>(s: State<R>, e: Event<R>) {
    && Enabled(s, e)
    && (e.RLock? ==> forall d :: 0 <= d < |s.calls| ==> !s.calls[d].phase.WantWrite?)
  }

  /** The call after its query returned: a failover call stops at the first success. */
  function AfterAnswer<R>(call: Call<R>, reply: Reply<R>, length: nat): Call<R>
    requires call.phase.Reading?
  {
    var log := call.log + [Query(call.phase.item, reply)];
    if call.kind.Failover? && reply.Ok() then
      call.(log := log, phase := PromotePending(call.cursor, call.phase.item.id))
    else
      call.(log := log, cursor := call.cursor + 1,
            phase := if call.cursor + 1 < length then WantRead else Done)
  }

  function CallAfter<R>(s: State<R>, e: Event<R>): Call<R>
    requires Enabled(s, e)
  {
    var call := s.calls[e.c];
    match e
    case RLock(_) =>
      call.(phase := if call.cursor < |s.order| then Reading(s.order[call.cursor]) else Panicked)
    case Answer(_, reply) =>
      AfterAnswer(call, reply, |s.order|)
    case Ask(_) =>
      call.(phase := if call.phase.position == 0 then Done else WantWrite(call.phase.position, call.phase.id))
    case Lock(_) =>
      call.(phase := Writing(call.phase.position, call.phase.id))
    case Unlock(_) =>
      call.(phase := if call.phase.position < |s.order| then Done else Panicked)
  }

  /** Whether `e` swaps two nodes: the guard of increaseNodePriority passes. */
  predicate Swaps<R>(s: State<R>, e: Event<R>) {
    && e.Unlock?
    && Enabled(s, e)
    && var phase := s.calls[e.c].phase;
    0 < phase.position < |s.order| && s.order[phase.position].id == phase.id
  }

  /** The position of a swapping event's winner before the swap. */
  function SwapPosition<R>(s: State<R>, e: Event<R>): (p: nat)
    requires Swaps(s, e)
    ensures 0 < p < |s.order|
  {
    s.calls[e.c].phase.position
  }

  function OrderAfter<R>(s: State<R>, e: Event<R>): seq<Item>
    requires Enabled(s, e)
  {
    if e.Unlock? && s.calls[e.c].phase.position < |s.order|
    then Promote(s.order, s.calls[e.c].phase.position, s.calls[e.c].phase.id)
    else s.order
  }

  function Apply<R>(s: State<R>, e: Event<R>): (t: State<R>)
    requires Enabled(s, e)
    ensures |t.calls| == |s.calls|
  {
    State(OrderAfter(s, e), s.calls[e.c := CallAfter(s, e)])
  }

  // ---------------------------------------------------------------- runs

  predicate Valid<R>(s: State<R>, es: seq<Event<R>>)
    decreases |es|
  {
    es == [] || (Enabled(s, es[0]) && Valid(Apply(s, es[0]), es[1..]))
  }

  function Exec<R>(s: State<R>, es: seq<Event<R>>): (t: State<R>)
    requires Valid(s, es)
    ensures |t.calls| == |s.calls|
    decreases |es|
  {
    if es == [] then s else Exec(Apply(s, es[0]), es[1..])
  }

  /** How many events of a run satisfy `hit` in the state they happen in. */
  function CountWhere<R>(s: State<R>, es: seq<Event<R>>, hit: (State<R>, Event<R>) -> bool): nat
    requires Valid(s, es)
    decreases |es|
  {
    if es == [] then 0
    else (if hit(s, es[0]) then 1 else 0) + CountWhere(Apply(s, es[0]), es[1..], hit)
  }

  /** Every event of a run satisfies `ok` in the state it happens in. */
  predicate Throughout<R>(s: State<R>, es: seq<Event<R>>, ok: (State<R>, Event<R>) -> bool)
    requires Valid(s, es)
    decreases |es|
  {
    es == [] || (ok(s, es[0]) && Throughout(Apply(s, es[0]), es[1..], ok))
  }

  /** A call that has not begun. */
  ghost predicate Fresh<R>(call: Call<R>) {
    call == Call(call.kind, 0, WantRead, [])
  }

  /** A client fresh from its constructor, and any number of calls about to start. */
  ghost predicate Init<R>(s: State<R>) {
    && |s.order| > 0
    && DistinctIds(s.order)
    && forall c :: 0 <= c < |s.calls| ==> Fresh(s.calls[c])
  }

  lemma {:induction false} ExecConcat<R>(s: State<R>, xs: seq<Event<R>>, ys: seq<Event<R>>)
    requires Valid(s, xs) && Valid(Exec(s, xs), ys)
    ensures Valid(s, xs + ys) && Exec(s, xs + ys) == Exec(Exec(s, xs), ys)
    decreases |xs|
  {
    if xs == [] {
      assert xs + ys == ys;
    } else {
      assert (xs + ys)[0] == xs[0] && (xs + ys)[1..] == xs[1..] + ys;
      var t := Apply(s, xs[0]);
      assert Exec(s, xs) == Exec(t, xs[1..]);
      ExecConcat(t, xs[1..], ys);
    }
  }

  lemma {:induction false} ThroughoutConcat<R>(s: State<R>, xs: seq<Event<R>>, ys: seq<Event<R>>,
                                               ok: (State<R>, Event<R>) -> bool)
    requires Valid(s, xs) && Valid(Exec(s, xs), ys) && Valid(s, xs + ys)
    requires Throughout(s, xs, ok) && Throughout(Exec(s, xs), ys, ok)
    ensures Throughout(s, xs + ys, ok)
    decreases |xs|
  {
    if xs == [] {
      assert xs + ys == ys;
    } else {
      assert (xs + ys)[0] == xs[0] && (xs + ys)[1..] == xs[1..] + ys;
      ThroughoutConcat(Apply(s, xs[0]), xs[1..], ys, ok);
    }
  }

  lemma {:induction false} KindKept<R>(s: State<R>, es: seq<Event<R>>, c: nat)
    requires Valid(s, es) && c < |s.calls|
    ensures Exec(s, es).calls[c].kind == s.calls[c].kind
    decreases |es|
  {
    if es != [] {
      KindKept(Apply(s, es[0]), es[1..], c);
    }
  }

  // ---------------------------------------------------------------- the invariant

  ghost predicate AllFailed<R>(log: seq<Query<R>>) {
    forall k :: 0 <= k < |log| ==> !log[k].reply.Ok()
  }

  /** A call that has not been answered: a failover call whose queries all failed so far. */
  ghost predicate Unanswered<R>(call: Call<R>) {
    call.kind.Probe? || AllFailed(call.log)
  }

  /** The last query, and only it, was answered. */
  ghost predicate AnsweredLast<R>(log: seq<Query<R>>) {
    |log| > 0 && log[|log| - 1].reply.Ok() && AllFailed(log[..|log| - 1])
  }

  ghost predicate PromotesLast<R>(call: Call<R>, position: nat, id: string) {
    && call.kind.Failover?
    && position == call.cursor
    && |call.log| == call.cursor + 1
    && AnsweredLast(call.log)
    && call.log[|call.log| - 1].item.id == id
  }

  ghost predicate CallInv<R>(order: seq<Item>, call: Call<R>) {
    match call.phase
    case WantRead => call.cursor < |order| && |call.log| == call.cursor && Unanswered(call)
    case Reading(item) =>
      call.cursor < |order| && |call.log| == call.cursor && Unanswered(call) && item == order[call.cursor]
    case PromotePending(position, id) => position < |order| && PromotesLast(call, position, id)
    case WantWrite(position, id) => 0 < position < |order| && PromotesLast(call, position, id)
    case Writing(position, id) => 0 < position < |order| && PromotesLast(call, position, id)
    case Done =>
      || (Unanswered(call) && call.cursor == |order| && |call.log| == |order|)
      || (call.kind.Failover? && call.cursor < |order| && |call.log| == call.cursor + 1 && AnsweredLast(call.log))
    case Panicked => false
  }

  /** A writer is alone: no other call holds either lock. */
  ghost predicate MutualExclusion<R>(s: State<R>) {
    forall a, b | 0 <= a < |s.calls| && 0 <= b < |s.calls| && a != b && s.calls[a].phase.Writing? ::
      !s.calls[b].phase.Writing? && !s.calls[b].phase.Reading?
  }

  ghost predicate LogsKnown<R>(s: State<R>) {
    forall c, k :: 0 <= c < |s.calls| && 0 <= k < |s.calls[c].log| ==> s.calls[c].log[k].item in s.order
  }

  ghost predicate Inv<R>(s: State<R>) {
    && |s.order| > 0
    && DistinctIds(s.order)
    && (forall c :: 0 <= c < |s.calls| ==> CallInv(s.order, s.calls[c]))
    && MutualExclusion(s)
    && LogsKnown(s)
  }

  lemma OrderStep<R>(s: State<R>, e: Event<R>)
    requires Inv(s) && Enabled(s, e)
    ensures multiset(OrderAfter(s, e)) == multiset(s.order) && |OrderAfter(s, e)| == |s.order|
    ensures DistinctIds(OrderAfter(s, e))
    ensures forall x :: x in s.order <==> x in OrderAfter(s, e)
    ensures OrderAfter(s, e) == if Swaps(s, e) then SwapUp(s.order, SwapPosition(s, e)) else s.order
  {
    if e.Unlock? {
      PromotePermutes(s.order, s.calls[e.c].phase.position, s.calls[e.c].phase.id);
    }
    assert forall x :: x in s.order <==> x in multiset(s.order);
    assert forall x :: x in OrderAfter(s, e) <==> x in multiset(OrderAfter(s, e));
  }

  lemma ActorStep<R>(s: State<R>, e: Event<R>)
    requires Inv(s) && Enabled(s, e)
    ensures CallInv(OrderAfter(s, e), CallAfter(s, e))
    ensures forall k :: 0 <= k < |CallAfter(s, e).log| ==> CallAfter(s, e).log[k].item in s.order
  {
    var call, after := s.calls[e.c], CallAfter(s, e);
    assert CallInv(s.order, call);
    OrderStep(s, e);
    if e.Answer? {
      assert after.log[..|after.log| - 1] == call.log;
    }
  }

  lemma BystanderStep<R>(s: State<R>, e: Event<R>, d: nat)
    requires Inv(s) && Enabled(s, e) && d < |s.calls| && d != e.c
    ensures CallInv(OrderAfter(s, e), s.calls[d])
  {
    assert CallInv(s.order, s.calls[d]);
    OrderStep(s, e);
  }

  lemma StepExclusion<R>(s: State<R>, e: Event<R>)
    requires MutualExclusion(s) && Enabled(s, e)
    ensures MutualExclusion(Apply(s, e))
  {
  }

  lemma StepCalls<R>(s: State<R>, e: Event<R>)
    requires Inv(s) && Enabled(s, e)
    ensures forall d :: 0 <= d < |s.calls| ==> CallInv(OrderAfter(s, e), Apply(s, e).calls[d])
  {
    forall d | 0 <= d < |s.calls|
      ensures CallInv(OrderAfter(s, e), Apply(s, e).calls[d])
    {
      if d == e.c {
        ActorStep(s, e);
      } else {
        BystanderStep(s, e, d);
      }
    }
  }

  lemma StepLogs<R>(s: State<R>, e: Event<R>)
    requires Inv(s) && Enabled(s, e)
    ensures LogsKnown(Apply(s, e))
  {
    OrderStep(s, e);
    ActorStep(s, e);
    var t := Apply(s, e);
    forall c, k | 0 <= c < |t.calls| && 0 <= k < |t.calls[c].log|
      ensures t.calls[c].log[k].item in t.order
    {
      assert t.calls[c].log[k].item in s.order;
    }
  }

  lemma StepInv<R>(s: State<R>, e: Event<R>)
    requires Inv(s) && Enabled(s, e)
    ensures Inv(Apply(s, e))
    ensures multiset(Apply(s, e).order) == multiset(s.order) && |Apply(s, e).order| == |s.order|
  {
    OrderStep(s, e);
    StepCalls(s, e);
    StepExclusion(s, e);
    StepLogs(s, e);
  }

  /** Every reachable order, in every interleaving, is a permutation of the constructed list with distinct
      ids; no index is ever out of range; and a writer is always alone. */
  lemma {:induction false} RunInv<R>(s: State<R>, es: seq<Event<R>>)
    requires Inv(s) && Valid(s, es)
    ensures Inv(Exec(s, es))
    ensures multiset(Exec(s, es).order) == multiset(s.order) && |Exec(s, es).order| == |s.order|
    decreases |es|
  {
    if es != [] {
      StepInv(s, es[0]);
      RunInv(Apply(s, es[0]), es[1..]);
    }
  }

  /** What a returned call hands back: its named results hold the last reply. */
  function Returned<R>(call: Call<R>): Reply<R>
    requires call.log != []
  {
    call.log[|call.log| - 1].reply
  }

  /** A call that came back with an error. */
  predicate ReturnsError<R>(call: Call<R>) {
    call.phase.Done? && call.log != [] && !Returned(call).Ok()
  }

  /** Every swap moves one place forward exactly the node whose success caused it. */
  lemma SwapMovesTheWinner<R>(s: State<R>, e: Event<R>)
    requires Inv(s) && Enabled(s, e)
    ensures Apply(s, e).order != s.order ==> Swaps(s, e)
    ensures Swaps(s, e) ==>
              var p, call := SwapPosition(s, e), s.calls[e.c];
              && call.log != []
              && Returned(call).Ok()
              && s.order[p] == call.log[|call.log| - 1].item
              && Apply(s, e).order == s.order[..p - 1] + [s.order[p], s.order[p - 1]] + s.order[p + 1..]
  {
    OrderStep(s, e);
    assert CallInv(s.order, s.calls[e.c]);
    if Swaps(s, e) {
      SwapUpSlices(s.order, SwapPosition(s, e));
      WinnerIsThere(s.order, s.calls[e.c], SwapPosition(s, e), s.calls[e.c].phase.id);
    }
  }

  lemma WinnerIsThere<R>(order: seq<Item>, call: Call<R>, p: nat, id: string)
    requires DistinctIds(order) && p < |order| && order[p].id == id && PromotesLast(call, p, id)
    requires forall k :: 0 <= k < |call.log| ==> call.log[k].item in order
    ensures Returned(call).Ok() && order[p] == call.log[|call.log| - 1].item
  {
    var k :| 0 <= k < |order| && order[k] == call.log[|call.log| - 1].item;
    IdAtMostOnce(order, k, p);
  }
}
