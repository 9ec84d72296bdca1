/** A call that nobody disturbs: the concurrent machine does exactly what the sequential loop computes. */
module Solo {
  import opened Order
  import opened Replies
  import opened Machine
  import opened Failover

  /** Nobody but possibly `c` holds a lock. */
  ghost predicate Quiet<R>(s: State<R>, c: nat) {
    forall d :: 0 <= d < |s.calls| && d != c ==> !s.calls[d].phase.Reading? && !s.calls[d].phase.Writing?
  }

  function LogOf<R>(items: seq<Item>, ask: Item -> Reply<R>): (log: seq<Query<R>>)
    ensures |log| == |items|
    ensures forall k :: 0 <= k < |log| ==> log[k] == Query(items[k], ask(items[k]))
  {
    seq(|items|, k requires 0 <= k < |items| => Query(items[k], ask(items[k])))
  }

  lemma LogOfCons<R>(x: Item, items: seq<Item>, ask: Item -> Reply<R>)
    ensures LogOf([x] + items, ask) == [Query(x, ask(x))] + LogOf(items, ask)
  {
  }

  /** Call `c` between two reads, every node before its cursor having failed. */
  ghost predicate MidScan<R>(s: State<R>, c: nat, ask: Item -> Reply<R>) {
    && c < |s.calls|
    && var call := s.calls[c];
    && call.kind.Failover?
    && call.phase.WantRead?
    && call.cursor < |s.order|
    && (forall i :: 0 <= i < call.cursor ==> !ask(s.order[i]).Ok())
    && call.log == LogOf(s.order[..call.cursor], ask)
  }

  /** Call `c` with its query of the node at its cursor in flight. */
  function InFlight<R>(s: State<R>, c: nat): Call<R>
    requires c < |s.calls| && s.calls[c].cursor < |s.order|
  {
    s.calls[c].(phase := Reading(s.order[s.calls[c].cursor]))
  }

  /** One position read by `c`. */
  lemma ReadAndAnswer<R>(s: State<R>, c: nat, reply: Reply<R>)
    requires c < |s.calls| && s.calls[c].phase.WantRead? && s.calls[c].cursor < |s.order| && NoWriter(s)
    ensures Valid(s, [RLock(c), Answer(c, reply)])
    ensures Exec(s, [RLock(c), Answer(c, reply)])
         == State(s.order, s.calls[c := AfterAnswer(InFlight(s, c), reply, |s.order|)])
  {
    var es := [RLock(c), Answer(c, reply)];
    assert Enabled(s, es[0]);
    var u := Apply(s, es[0]);
    assert es[1..] == [es[1]] && es[1..][1..] == [];
    assert Enabled(u, es[1]);
    var t := Apply(u, es[1]);
    assert Valid(t, []) && Exec(t, []) == t;
    assert Valid(u, es[1..]) && Exec(u, es[1..]) == t;
  }

  /** The promotion by `c` once a node answered. */
  function PromoteEvents<R>(c: nat, position: nat): seq<Event<R>> {
    if position == 0 then [Ask(c)] else [Ask(c), Lock(c), Unlock(c)]
  }

  lemma PromoteRuns<R>(s: State<R>, c: nat)
    requires Quiet(s, c) && c < |s.calls| && s.calls[c].phase.PromotePending?
    requires s.calls[c].phase.position < |s.order|
    ensures var phase := s.calls[c].phase;
            && Valid(s, PromoteEvents(c, phase.position))
            && Exec(s, PromoteEvents(c, phase.position))
               == State(Promote(s.order, phase.position, phase.id), s.calls[c := s.calls[c].(phase := Done)])
  {
    var p, id := s.calls[c].phase.position, s.calls[c].phase.id;
    var es := PromoteEvents<R>(c, p);
    assert Enabled(s, es[0]);
    var u := Apply(s, es[0]);
    if p == 0 {
      assert es[1..] == [];
    } else {
      assert es[1..] == [Lock(c), Unlock(c)] && es[1..][1..] == [Unlock(c)] && es[1..][1..][1..] == [];
      assert Enabled(u, es[1]);
      var v := Apply(u, es[1]);
      assert Enabled(v, es[2]);
      var t := Apply(v, es[2]);
      assert Valid(t, []) && Exec(t, []) == t;
      assert Valid(v, es[1..][1..]) && Exec(v, es[1..][1..]) == t;
      assert Valid(u, es[1..]) && Exec(u, es[1..]) == t;
      assert Valid(s, es) && Exec(s, es) == t;
      assert t.calls == s.calls[c := s.calls[c].(phase := Done)];
    }
  }

  /** Only call `c` acts, and its queries are answered by `ask`. */
  ghost function OnlyCall<R>(c: nat, ask: Item -> Reply<R>): (State<R>, Event<R>) -> bool {
    (s: State<R>, e: Event<R>) =>
      && e.c == c
      && (e.Answer? && c < |s.calls| && s.calls[c].phase.Reading? ==> e.reply == ask(s.calls[c].phase.item))
  }

  lemma {:induction false} ReadByItself<R>(s: State<R>, c: nat, ask: Item -> Reply<R>) returns (es: seq<Event<R>>)
    requires MidScan(s, c, ask) && NoWriter(s)
    ensures Valid(s, es) && Throughout(s, es, OnlyCall(c, ask))
    ensures Exec(s, es) == State(s.order, s.calls[c := AfterAnswer(InFlight(s, c), ask(s.order[s.calls[c].cursor]),
                                                                   |s.order|)])
    ensures Exec(s, es).calls[c].log == LogOf(s.order[..s.calls[c].cursor + 1], ask)
  {
    var i := s.calls[c].cursor;
    ReadAndAnswer(s, c, ask(s.order[i]));
    assert s.order[..i + 1] == s.order[..i] + [s.order[i]];
    es := [RLock(c), Answer(c, ask(s.order[i]))];
    var u := Apply(s, es[0]);
    assert es[1..] == [es[1]] && es[1..][1..] == [];
    assert Throughout(Apply(u, es[1]), [], OnlyCall(c, ask));
    assert Throughout(u, es[1..], OnlyCall(c, ask));
  }

  lemma {:induction false} NoAnswerByItself<R>(s: State<R>, es: seq<Event<R>>, c: nat, ask: Item -> Reply<R>)
    requires Valid(s, es) && forall e :: e in es ==> e.c == c && !e.Answer?
    ensures Throughout(s, es, OnlyCall(c, ask))
    decreases |es|
  {
    if es != [] {
      NoAnswerByItself(Apply(s, es[0]), es[1..], c, ask);
    }
  }

  lemma {:induction false} PromoteByItself<R>(s: State<R>, c: nat, ask: Item -> Reply<R>) returns (es: seq<Event<R>>)
    requires Quiet(s, c) && c < |s.calls| && s.calls[c].phase.PromotePending?
    requires s.calls[c].phase.position < |s.order|
    ensures Valid(s, es) && Throughout(s, es, OnlyCall(c, ask)) && Exec(s, es).calls[c].phase.Done?
  {
    PromoteRuns(s, c);
    es := PromoteEvents(c, s.calls[c].phase.position);
    NoAnswerByItself(s, es, c, ask);
  }

  /** A call left alone can run to its end. */
  lemma {:induction false} RunByItself<R>(s: State<R>, c: nat, ask: Item -> Reply<R>) returns (es: seq<Event<R>>)
    requires MidScan(s, c, ask) && Quiet(s, c)
    ensures Valid(s, es) && Throughout(s, es, OnlyCall(c, ask)) && Exec(s, es).calls[c].phase.Done?
    decreases |s.order| - s.calls[c].cursor
  {
    var i := s.calls[c].cursor;
    es := ReadByItself(s, c, ask);
    var t := Exec(s, es);
    if t.calls[c].phase != Done {
      var rest;
      if ask(s.order[i]).Ok() {
        rest := PromoteByItself(t, c, ask);
      } else {
        rest := RunByItself(t, c, ask);
      }
      ExecConcat(s, es, rest);
      ThroughoutConcat(s, es, rest, OnlyCall(c, ask));
      es := es + rest;
    }
  }

  // ---------------------------------------------------------------- every undisturbed run

  /** Where call `c` stands, having started on `order`. */
  ghost predicate OnItsOwn<R>(s: State<R>, c: nat, ask: Item -> Reply<R>, order: seq<Item>) {
    && c < |s.calls|
    && s.calls[c].kind.Failover?
    && var call := s.calls[c];
    match call.phase
    case WantRead => s.order == order && Scanned(call, order, ask)
    case Reading(item) => s.order == order && Scanned(call, order, ask) && item == order[call.cursor]
    case PromotePending(position, id) => s.order == order && Found(call, order, ask, position, id)
    case WantWrite(position, id) => s.order == order && Found(call, order, ask, position, id) && position > 0
    case Writing(position, id) => s.order == order && Found(call, order, ask, position, id) && position > 0
    case Done => s.order == Reordered(order, ask) && call.log == LogOf(Queried(order, ask), ask)
    case Panicked => false
  }

  ghost predicate Scanned<R>(call: Call<R>, order: seq<Item>, ask: Item -> Reply<R>) {
    && call.cursor < |order|
    && (forall i :: 0 <= i < call.cursor ==> !ask(order[i]).Ok())
    && call.log == LogOf(order[..call.cursor], ask)
  }

  ghost predicate Found<R>(call: Call<R>, order: seq<Item>, ask: Item -> Reply<R>, position: nat, id: string) {
    && position < |order|
    && position == FirstAnswering(order, ask)
    && id == order[position].id
    && call.log == LogOf(Queried(order, ask), ask)
  }

  lemma AnswerOnItsOwn<R>(s: State<R>, e: Event<R>, ask: Item -> Reply<R>, order: seq<Item>)
    requires OnItsOwn(s, e.c, ask, order) && Enabled(s, e) && e.Answer? && OnlyCall(e.c, ask)(s, e)
    ensures OnItsOwn(Apply(s, e), e.c, ask, order)
  {
    var i := s.calls[e.c].cursor;
    assert order[..i + 1] == order[..i] + [order[i]];
    assert LogOf(order[..i + 1], ask) == LogOf(order[..i], ask) + [Query(order[i], ask(order[i]))];
    if ask(order[i]).Ok() {
      FirstAnsweringIs(order, ask, i);
    } else if i + 1 == |order| {
      assert order[..i + 1] == order;
      assert FirstAnswering(order, ask) == |order|;
    }
  }

  lemma StepOnItsOwn<R>(s: State<R>, e: Event<R>, c: nat, ask: Item -> Reply<R>, order: seq<Item>)
    requires OnItsOwn(s, c, ask, order) && Enabled(s, e) && OnlyCall(c, ask)(s, e)
    ensures OnItsOwn(Apply(s, e), c, ask, order)
  {
    if e.Answer? {
      AnswerOnItsOwn(s, e, ask, order);
    }
  }

  lemma {:induction false} RunOnItsOwn<R>(s: State<R>, es: seq<Event<R>>, c: nat, ask: Item -> Reply<R>,
                                          order: seq<Item>)
    requires OnItsOwn(s, c, ask, order) && Valid(s, es) && Throughout(s, es, OnlyCall(c, ask))
    ensures OnItsOwn(Exec(s, es), c, ask, order)
    ensures forall d :: 0 <= d < |s.calls| && d != c ==> Exec(s, es).calls[d] == s.calls[d]
    decreases |es|
  {
    if es != [] {
      StepOnItsOwn(s, es[0], c, ask, order);
      RunOnItsOwn(Apply(s, es[0]), es[1..], c, ask, order);
    }
  }

  /** The last query of the sequential loop is the one whose reply it returns. */
  lemma LastReply<R>(call: Call<R>, order: seq<Item>, ask: Item -> Reply<R>)
    requires |order| > 0 && call.log == LogOf(Queried(order, ask), ask)
    ensures call.log != [] && Returned(call) == ReplyOf(order, ask)
  {
  }

  /** Every undisturbed run of a call that has returned asked exactly the nodes the sequential loop asks, returned
      what it returns and left the list it leaves. */
  lemma {:induction false} EveryUndisturbedRunIsSequential<R>(s: State<R>, es: seq<Event<R>>, c: nat,
                                                              ask: Item -> Reply<R>)
    requires MidScan(s, c, ask) && Valid(s, es) && Throughout(s, es, OnlyCall(c, ask))
    requires Exec(s, es).calls[c].phase.Done?
    ensures Exec(s, es).order == Reordered(s.order, ask)
    ensures Exec(s, es).calls[c].log == LogOf(Queried(s.order, ask), ask)
    ensures Exec(s, es).calls[c].log != [] && Returned(Exec(s, es).calls[c]) == ReplyOf(s.order, ask)
    ensures forall d :: 0 <= d < |s.calls| && d != c ==> Exec(s, es).calls[d] == s.calls[d]
  {
    RunOnItsOwn(s, es, c, ask, s.order);
    LastReply(Exec(s, es).calls[c], s.order, ask);
  }

  /** Such a run exists: uncontended, the machine's call asks exactly the nodes the sequential loop asks, returns what
      it returns and leaves the list it leaves. */
  lemma {:induction false} SoloRunIsSequential<R>(s: State<R>, c: nat, ask: Item -> Reply<R>)
    returns (es: seq<Event<R>>)
    requires MidScan(s, c, ask) && Quiet(s, c)
    ensures Valid(s, es) && Throughout(s, es, OnlyCall(c, ask))
    ensures Exec(s, es).order == Reordered(s.order, ask)
    ensures Exec(s, es).calls[c].phase.Done?
    ensures Exec(s, es).calls[c].log == LogOf(Queried(s.order, ask), ask)
    ensures Exec(s, es).calls[c].log != [] && Returned(Exec(s, es).calls[c]) == ReplyOf(s.order, ask)
    ensures forall d :: 0 <= d < |s.calls| && d != c ==> Exec(s, es).calls[d] == s.calls[d]
  {
    es := RunByItself(s, c, ask);
    EveryUndisturbedRunIsSequential(s, es, c, ask);
  }

  /** Exactly the nodes of `good` answer. */
  function AnswersIn<R>(good: set<Item>, value: R): Item -> Reply<R> {
    (item: Item) => Reply(value, if item in good then None else Some("down"))
  }

  /** A call that has not begun can, all by itself, swap the item at any `p` one place forward. */
  lemma SoloSwap<R>(s: State<R>, c: nat, p: nat, value: R) returns (es: seq<Event<R>>)
    requires Quiet(s, c) && c < |s.calls| && s.calls[c] == Call(Failover, 0, WantRead, [])
    requires 0 < p < |s.order| && DistinctIds(s.order)
    ensures Valid(s, es) && Throughout(s, es, OnlyCall(c, AnswersIn({s.order[p]}, value)))
    ensures Exec(s, es).order == SwapUp(s.order, p) && Exec(s, es).calls[c].phase.Done?
    ensures forall d :: 0 <= d < |s.calls| && d != c ==> Exec(s, es).calls[d] == s.calls[d]
  {
    var ask := AnswersIn({s.order[p]}, value);
    assert s.calls[c].log == LogOf(s.order[..0], ask);
    forall i | 0 <= i < p
      ensures !ask(s.order[i]).Ok()
    {
      assert s.order[i].id != s.order[p].id;
    }
    FirstAnsweringIs(s.order, ask, p);
    es := SoloRunIsSequential(s, c, ask);
  }
}
