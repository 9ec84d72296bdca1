/** The health verdict as a function of the replies BlockNumber collects, and what it says about the heights. */
module Report {
  import Order
  import opened Replies
  import opened Text

  const TWO_TO_THE_64: int := 0x1_0000_0000_0000_0000

  type uint64 = x: int | 0 <= x < TWO_TO_THE_64

  const BLOCK_DIFF := 3

  /** The unsigned distance; neither branch wraps around. */
  function AbsDiff(a: uint64, b: uint64): (d: uint64)
    ensures a + d == b || b + d == a
  {
    if a > b then a - b else b - a
  }

  /** The heights of the nodes that answered, among the first `p` replies. */
  function HeightsTo(replies: seq<Reply<uint64>>, p: nat): seq<uint64>
    requires p <= |replies|
  {
    if p == 0 then []
    else HeightsTo(replies, p - 1) + (if replies[p - 1].Ok() then [replies[p - 1].value] else [])
  }

  function NodeError(index: nat, text: string): string {
    "node " + Decimal(index) + " err: " + text
  }

  function DifferentTips(index: nat, f: uint64, s: uint64): string
    requires index > 0
  {
    "nodes " + Decimal(index) + " (height=" + Decimal(f) + ") and " + Decimal(index - 1) + " (height=" + Decimal(s)
    + ") are reporting different chain tips"
  }

  /** What position `i` adds to the report, without the terminator: at most one segment. */
  function SegmentsAt(replies: seq<Reply<uint64>>, i: nat): (segments: seq<string>)
    requires i < |replies|
  {
    var before := HeightsTo(replies, i);
    match replies[i].err
    case Some(text) => [NodeError(i, text)]
    case None =>
      if before != [] && AbsDiff(replies[i].value, before[|before| - 1]) > BLOCK_DIFF
      then HeightsBound(replies, i); [DifferentTips(i, replies[i].value, before[|before| - 1])]
      else []
  }

  function SegmentsTo(replies: seq<Reply<uint64>>, p: nat): seq<string>
    requires p <= |replies|
  {
    if p == 0 then [] else SegmentsTo(replies, p - 1) + SegmentsAt(replies, p - 1)
  }

  /** The error text: every segment ends in a bar. */
  function Terminated(segments: seq<string>): string {
    if segments == [] then "" else Terminated(segments[..|segments| - 1]) + segments[|segments| - 1] + "|"
  }

  lemma {:induction false} HeightsBound(replies: seq<Reply<uint64>>, p: nat)
    requires p <= |replies|
    ensures |HeightsTo(replies, p)| <= p
  {
    if p > 0 {
      HeightsBound(replies, p - 1);
    }
  }

  // ---------------------------------------------------------------- counting failures

  function FailedTo(replies: seq<Reply<uint64>>, p: nat): nat
    requires p <= |replies|
  {
    if p == 0 then 0 else FailedTo(replies, p - 1) + (if replies[p - 1].Ok() then 0 else 1)
  }

  /** Neighbours in a list of heights that are more than the limit apart. */
  function FarPairs(heights: seq<uint64>): nat {
    if |heights| < 2 then 0
    else FarPairs(heights[..|heights| - 1])
         + (if AbsDiff(heights[|heights| - 1], heights[|heights| - 2]) > BLOCK_DIFF then 1 else 0)
  }

  /** Segments = failing nodes + consecutive answered heights too far apart. */
  lemma {:induction false} CountLaw(replies: seq<Reply<uint64>>, p: nat)
    requires p <= |replies|
    ensures |SegmentsTo(replies, p)| == FailedTo(replies, p) + FarPairs(HeightsTo(replies, p))
  {
    if p > 0 {
      CountLaw(replies, p - 1);
      SegmentsGrow(replies, p);
      FarPairsStep(replies, p);
    }
  }

  ghost predicate FarFromPrevious(replies: seq<Reply<uint64>>, i: nat)
    requires i < |replies|
  {
    var before := HeightsTo(replies, i);
    replies[i].Ok() && before != [] && AbsDiff(replies[i].value, before[|before| - 1]) > BLOCK_DIFF
  }

  lemma SegmentsGrow(replies: seq<Reply<uint64>>, p: nat)
    requires 0 < p <= |replies|
    ensures |SegmentsTo(replies, p)| == |SegmentsTo(replies, p - 1)|
            + (if !replies[p - 1].Ok() || FarFromPrevious(replies, p - 1) then 1 else 0)
  {
  }

  lemma FarPairsStep(replies: seq<Reply<uint64>>, p: nat)
    requires 0 < p <= |replies|
    ensures FarPairs(HeightsTo(replies, p)) == FarPairs(HeightsTo(replies, p - 1))
            + (if FarFromPrevious(replies, p - 1) then 1 else 0)
  {
    if replies[p - 1].Ok() {
      FarPairsGrows(HeightsTo(replies, p - 1), replies[p - 1].value);
    } else {
      assert HeightsTo(replies, p) == HeightsTo(replies, p - 1);
    }
  }

  lemma FarPairsGrows(heights: seq<uint64>, h: uint64)
    ensures FarPairs(heights + [h])
         == FarPairs(heights) + (if heights != [] && AbsDiff(h, heights[|heights| - 1]) > BLOCK_DIFF then 1 else 0)
  {
    assert (heights + [h])[..|heights|] == heights;
  }

  lemma {:induction false} FailedAndAnswered(replies: seq<Reply<uint64>>, p: nat)
    requires p <= |replies|
    ensures FailedTo(replies, p) + |HeightsTo(replies, p)| == p
  {
    if p > 0 {
      FailedAndAnswered(replies, p - 1);
    }
  }

  lemma {:induction false} FarPairsBound(heights: seq<uint64>)
    ensures FarPairs(heights) <= if heights == [] then 0 else |heights| - 1
  {
    if |heights| >= 2 {
      FarPairsBound(heights[..|heights| - 1]);
    }
  }

  /** At most one segment per node, and one fewer as soon as any node answered. */
  lemma SegmentsBound(replies: seq<Reply<uint64>>)
    ensures |SegmentsTo(replies, |replies|)| <= |replies|
    ensures HeightsTo(replies, |replies|) != [] ==> |SegmentsTo(replies, |replies|)| <= |replies| - 1
  {
    CountLaw(replies, |replies|);
    FailedAndAnswered(replies, |replies|);
    FarPairsBound(HeightsTo(replies, |replies|));
  }

  // ---------------------------------------------------------------- the verdict

  ghost predicate SomeFailed(replies: seq<Reply<uint64>>) {
    exists i :: 0 <= i < |replies| && !replies[i].Ok()
  }

  ghost predicate SomeNeighboursApart(heights: seq<uint64>) {
    exists k :: 0 < k < |heights| && AbsDiff(heights[k], heights[k - 1]) > BLOCK_DIFF
  }

  lemma {:induction false} NoFailuresTo(replies: seq<Reply<uint64>>, p: nat)
    requires p <= |replies|
    ensures FailedTo(replies, p) == 0 <==> forall i :: 0 <= i < p ==> replies[i].Ok()
  {
    if p > 0 {
      NoFailuresTo(replies, p - 1);
    }
  }

  lemma {:induction false} NoFarPairs(heights: seq<uint64>)
    ensures FarPairs(heights) == 0 <==> !SomeNeighboursApart(heights)
  {
    if |heights| >= 2 {
      var shorter := heights[..|heights| - 1];
      NoFarPairs(shorter);
      assert forall k :: 0 < k < |shorter| ==>
        AbsDiff(shorter[k], shorter[k - 1]) == AbsDiff(heights[k], heights[k - 1]);
      if FarPairs(heights) == 0 {
        assert !SomeNeighboursApart(shorter);
        assert AbsDiff(heights[|heights| - 1], heights[|heights| - 2]) <= BLOCK_DIFF;
      } else if FarPairs(shorter) != 0 {
        var k :| 0 < k < |shorter| && AbsDiff(shorter[k], shorter[k - 1]) > BLOCK_DIFF;
        assert AbsDiff(heights[k], heights[k - 1]) > BLOCK_DIFF;
      }
    }
  }

  /** There is something to report exactly when a node failed or two consecutive answers are too far apart. */
  lemma ReportIff(replies: seq<Reply<uint64>>)
    ensures SegmentsTo(replies, |replies|) != []
       <==> SomeFailed(replies) || SomeNeighboursApart(HeightsTo(replies, |replies|))
    ensures |replies| > 0 && SegmentsTo(replies, |replies|) == [] ==> HeightsTo(replies, |replies|) != []
  {
    CountLaw(replies, |replies|);
    NoFailuresTo(replies, |replies|);
    NoFarPairs(HeightsTo(replies, |replies|));
    FailedAndAnswered(replies, |replies|);
  }

  // ---------------------------------------------------------------- drift

  ghost predicate AllAnswer(replies: seq<Reply<uint64>>) {
    forall i :: 0 <= i < |replies| ==> replies[i].Ok()
  }

  lemma {:induction false} HeightsWhenAllAnswer(replies: seq<Reply<uint64>>, p: nat)
    requires p <= |replies| && AllAnswer(replies)
    ensures |HeightsTo(replies, p)| == p
    ensures forall i :: 0 <= i < p ==> HeightsTo(replies, p)[i] == replies[i].value
  {
    if p > 0 {
      HeightsWhenAllAnswer(replies, p - 1);
    }
  }

  /** BlockNumber succeeds exactly when every node answers and every two neighbours are within the limit. */
  lemma SucceedsIff(replies: seq<Reply<uint64>>)
    ensures SegmentsTo(replies, |replies|) == [] <==>
              && AllAnswer(replies)
              && !SomeNeighboursApart(Values(replies))
  {
    ReportIff(replies);
    if AllAnswer(replies) {
      HeightsWhenAllAnswer(replies, |replies|);
      assert HeightsTo(replies, |replies|) == Values(replies);
    }
  }

  function Values(replies: seq<Reply<uint64>>): (values: seq<uint64>)
    ensures |values| == |replies| && forall i :: 0 <= i < |values| ==> values[i] == replies[i].value
  {
    seq(|replies|, i requires 0 <= i < |replies| => replies[i].value)
  }

  /** Drift under a healthy verdict: positions i and j differ by at most 3 * |i - j|. */
  lemma {:induction false} DriftBound(replies: seq<Reply<uint64>>, i: nat, j: nat)
    requires SegmentsTo(replies, |replies|) == [] && i <= j < |replies|
    ensures AbsDiff(replies[i].value, replies[j].value) <= 3 * (j - i)
    decreases j
  {
    SucceedsIff(replies);
    if i < j {
      DriftBound(replies, i, j - 1);
      assert AbsDiff(replies[j].value, replies[j - 1].value) <= BLOCK_DIFF;
    }
  }

  /** So the whole spread is at most 3(n - 1). */
  lemma SpreadBound(replies: seq<Reply<uint64>>, i: nat, j: nat)
    requires SegmentsTo(replies, |replies|) == [] && i < |replies| && j < |replies|
    ensures AbsDiff(replies[i].value, replies[j].value) <= 3 * (|replies| - 1)
  {
    DriftBound(replies, if i <= j then i else j, if i <= j then j else i);
  }

  /** The bound is attained for every number of nodes whose spread fits the width: heights 0, 3, 6, ... */
  lemma SpreadBoundIsTight(n: nat) returns (replies: seq<Reply<uint64>>)
    requires 0 < n && 3 * (n - 1) < TWO_TO_THE_64
    ensures |replies| == n && SegmentsTo(replies, n) == []
    ensures AbsDiff(replies[0].value, replies[n - 1].value) == 3 * (n - 1)
  {
    replies := seq(n, i requires 0 <= i < n => Reply(3 * i as uint64, None));
    SucceedsIff(replies);
  }

  ghost predicate AllWithinLimit(replies: seq<Reply<uint64>>) {
    forall i, j :: 0 <= i < |replies| && 0 <= j < |replies| ==>
      AbsDiff(replies[i].value, replies[j].value) <= BLOCK_DIFF
  }

  lemma CloseMeansHealthy(replies: seq<Reply<uint64>>)
    requires AllAnswer(replies) && AllWithinLimit(replies)
    ensures SegmentsTo(replies, |replies|) == []
  {
    SucceedsIff(replies);
  }

  /** What the comment on BlockNumber promises, for lists of `n` nodes: a healthy verdict means no two of them are
      further apart than the limit. */
  ghost predicate HealthyMeansClose(n: nat) {
    forall replies: seq<Reply<uint64>> ::
      |replies| == n && SegmentsTo(replies, |replies|) == [] ==> AllWithinLimit(replies)
  }

  /** Heights 0, 3, 6, 6, ... are healthy, but the first and third are too far apart. */
  lemma HealthyButApart(n: nat) returns (replies: seq<Reply<uint64>>)
    requires n >= 3
    ensures |replies| == n && SegmentsTo(replies, |replies|) == [] && !AllWithinLimit(replies)
  {
    replies := seq(n, i requires 0 <= i < n => Reply(if i < 2 then 3 * i as uint64 else 6, None));
    SucceedsIff(replies);
    assert AbsDiff(replies[0].value, replies[2].value) == 6;
  }

  /** The promise holds for lists of up to two nodes and for no others. */
  lemma HealthyMeansCloseIff(n: nat)
    ensures HealthyMeansClose(n) <==> n <= 2
  {
    if n <= 2 {
      forall replies: seq<Reply<uint64>> | |replies| == n && SegmentsTo(replies, |replies|) == []
        ensures AllWithinLimit(replies)
      {
        forall i, j | 0 <= i < n && 0 <= j < n
          ensures AbsDiff(replies[i].value, replies[j].value) <= BLOCK_DIFF
        {
          SpreadBound(replies, i, j);
        }
      }
    } else {
      var replies := HealthyButApart(n);
    }
  }

  function Poll<T>(order: seq<T>, heightOf: T -> Reply<uint64>): (replies: seq<Reply<uint64>>)
    ensures |replies| == |order|
    ensures forall i :: 0 <= i < |order| ==> replies[i] == heightOf(order[i])
  {
    seq(|order|, i requires 0 <= i < |order| => heightOf(order[i]))
  }

  /** `order` with the items at `i` and `j` brought to the front, side by side. */
  function SideBySide<T>(order: seq<T>, i: nat, j: nat): (r: seq<T>)
    requires i < j < |order|
    ensures |r| == |order| && r[0] == order[i] && r[1] == order[j]
  {
    [order[i], order[j]] + order[..i] + order[i + 1..j] + order[j + 1..]
  }

  lemma SideBySidePermutes<T>(order: seq<T>, i: nat, j: nat)
    requires i < j < |order|
    ensures multiset(SideBySide(order, i, j)) == multiset(order)
  {
    assert order == order[..i] + [order[i]] + order[i + 1..j] + [order[j]] + order[j + 1..];
  }

  lemma FarAtTheFront(replies: seq<Reply<uint64>>)
    requires |replies| >= 2 && AbsDiff(replies[1].value, replies[0].value) > BLOCK_DIFF
    ensures SegmentsTo(replies, |replies|) != []
  {
    SucceedsIff(replies);
    assert AbsDiff(Values(replies)[1], Values(replies)[0]) > BLOCK_DIFF;
  }

  /** Two nodes too far apart are reported in the order that puts them side by side. */
  lemma FarPairShowsSomewhere<T>(order: seq<T>, heightOf: T -> Reply<uint64>, i: nat, j: nat)
    requires i < j < |order|
    requires AbsDiff(heightOf(order[i]).value, heightOf(order[j]).value) > BLOCK_DIFF
    ensures var other := SideBySide(order, i, j);
            multiset(other) == multiset(order) && SegmentsTo(Poll(other, heightOf), |other|) != []
  {
    SideBySidePermutes(order, i, j);
    FarAtTheFront(Poll(SideBySide(order, i, j), heightOf));
  }

  ghost predicate HealthyInEveryOrder<T(!new)>(order: seq<T>, heightOf: T -> Reply<uint64>) {
    forall other :: multiset(other) == multiset(order) ==> SegmentsTo(Poll(other, heightOf), |other|) == []
  }

  lemma HealthyInEveryOrderMeansPairClose<T(!new)>(order: seq<T>, heightOf: T -> Reply<uint64>, i: nat, j: nat)
    requires HealthyInEveryOrder(order, heightOf) && i < j < |order|
    ensures AbsDiff(heightOf(order[i]).value, heightOf(order[j]).value) <= BLOCK_DIFF
  {
    if AbsDiff(heightOf(order[i]).value, heightOf(order[j]).value) > BLOCK_DIFF {
      FarPairShowsSomewhere(order, heightOf, i, j);
    }
  }

  lemma HealthyInEveryOrderMeansClose<T(!new)>(order: seq<T>, heightOf: T -> Reply<uint64>)
    requires HealthyInEveryOrder(order, heightOf)
    ensures AllAnswer(Poll(order, heightOf)) && AllWithinLimit(Poll(order, heightOf))
  {
    var replies := Poll(order, heightOf);
    assert AllAnswer(replies) by {
      SucceedsIff(replies);
    }
    forall i, j | 0 <= i < |replies| && 0 <= j < |replies|
      ensures AbsDiff(replies[i].value, replies[j].value) <= BLOCK_DIFF
    {
      if i < j {
        HealthyInEveryOrderMeansPairClose(order, heightOf, i, j);
      } else if j < i {
        HealthyInEveryOrderMeansPairClose(order, heightOf, j, i);
      }
    }
  }

  /** A healthy verdict in one order says little about nodes far apart in it, but the verdict is healthy in every
      order exactly when every node answers and all heights are pairwise within the limit. */
  lemma HealthyInEveryOrderIff<T(!new)>(order: seq<T>, heightOf: T -> Reply<uint64>)
    ensures HealthyInEveryOrder(order, heightOf)
       <==> AllAnswer(Poll(order, heightOf)) && AllWithinLimit(Poll(order, heightOf))
  {
    if HealthyInEveryOrder(order, heightOf) {
      HealthyInEveryOrderMeansClose(order, heightOf);
    }
    if AllAnswer(Poll(order, heightOf)) && AllWithinLimit(Poll(order, heightOf)) {
      forall other | multiset(other) == multiset(order)
        ensures SegmentsTo(Poll(other, heightOf), |other|) == []
      {
        CloseInAnotherOrder(order, other, heightOf);
      }
    }
  }

  lemma CloseInAnotherOrder<T>(order: seq<T>, other: seq<T>, heightOf: T -> Reply<uint64>)
    requires multiset(order) == multiset(other)
    requires AllAnswer(Poll(order, heightOf)) && AllWithinLimit(Poll(order, heightOf))
    ensures SegmentsTo(Poll(other, heightOf), |other|) == []
  {
    var replies, asked := Poll(order, heightOf), Poll(other, heightOf);
    forall i, j | 0 <= i < |asked| && 0 <= j < |asked|
      ensures asked[i].Ok() && AbsDiff(asked[i].value, asked[j].value) <= BLOCK_DIFF
    {
      var k := Order.PlaceOf(order, other, other[i]);
      var l := Order.PlaceOf(order, other, other[j]);
      assert AbsDiff(replies[k].value, replies[l].value) <= BLOCK_DIFF;
    }
    CloseMeansHealthy(asked);
  }

  // ---------------------------------------------------------------- printing and parsing back

  /** What the health handler makes of an error text: the parts before the last bar. */
  function FailuresOf(text: string): seq<string> {
    var parts := Split(text, '|');
    parts[..|parts| - 1]
  }

  /** What follows the last bar, which the handler drops. */
  function Dropped(text: string): string {
    var parts := Split(text, '|');
    parts[|parts| - 1]
  }

  /** For any error text at all there are as many failures as bars, none holds a bar, and with the dropped rest they
      join back to the text. */
  lemma FailuresAreBars(text: string)
    ensures |FailuresOf(text)| == CountChar(text, '|')
    ensures FailuresOf(text) != [] <==> '|' in text
    ensures Free(FailuresOf(text), '|') && '|' !in Dropped(text)
    ensures Join(FailuresOf(text) + [Dropped(text)], '|') == text
  {
    SplitThenJoin(text, '|');
    CountZero(text, '|');
    assert FailuresOf(text) + [Dropped(text)] == Split(text, '|');
  }

  lemma {:induction false} TerminatedIsJoined(segments: seq<string>, tail: string)
    ensures Terminated(segments) + tail == Join(segments + [tail], '|')
  {
    if segments == [] {
      assert segments + [tail] == [tail];
      assert Terminated(segments) + tail == tail;
    } else {
      var n := |segments| - 1;
      TerminatedIsJoined(segments[..n], segments[n] + "|" + tail);
      MergeLast(segments[..n], segments[n], tail);
      assert segments + [tail] == segments[..n] + [segments[n], tail];
      assert Terminated(segments) + tail == Terminated(segments[..n]) + (segments[n] + "|" + tail);
    }
  }

  lemma {:induction false} MergeLast(parts: seq<string>, a: string, b: string)
    ensures Join(parts + [a + "|" + b], '|') == Join(parts + [a, b], '|')
  {
    if parts == [] {
      assert parts + [a + "|" + b] == [a + "|" + b];
      assert parts + [a, b] == [a, b] && [a, b][1..] == [b];
      assert a + "|" + b == a + ['|'] + b;
    } else {
      MergeLast(parts[1..], a, b);
      assert (parts + [a + "|" + b])[1..] == parts[1..] + [a + "|" + b];
      assert (parts + [a, b])[1..] == parts[1..] + [a, b];
    }
  }

  lemma {:induction false} BarsInTerminated(segments: seq<string>)
    ensures CountChar(Terminated(segments), '|') >= |segments|
    ensures CountChar(Terminated(segments), '|') == |segments| <==> Free(segments, '|')
  {
    if segments != [] {
      var n := |segments| - 1;
      BarsInTerminated(segments[..n]);
      CountConcat(Terminated(segments[..n]), segments[n], '|');
      CountConcat(Terminated(segments[..n]) + segments[n], "|", '|');
      CountZero(segments[n], '|');
      assert CountChar("|", '|') == 1;
      assert segments == segments[..n] + [segments[n]];
    }
  }

  /** Round trip: the parsed failures are the segments if and only if no segment contains a bar. */
  lemma ParsedBackIff(segments: seq<string>)
    ensures FailuresOf(Terminated(segments)) == segments <==> Free(segments, '|')
  {
    FailuresAreBars(Terminated(segments));
    BarsInTerminated(segments);
    if Free(segments, '|') {
      TerminatedIsJoined(segments, "");
      assert Terminated(segments) + "" == Terminated(segments);
      JoinThenSplit(segments + [""], '|');
      assert (segments + [""])[..|segments|] == segments;
    }
  }

  ghost predicate BarFreeErrors(replies: seq<Reply<uint64>>, p: nat)
    requires p <= |replies|
  {
    forall i :: 0 <= i < p && !replies[i].Ok() ==> '|' !in replies[i].err.value
  }

  lemma NodeErrorBars(index: nat, text: string)
    ensures '|' in NodeError(index, text) <==> '|' in text
  {
    OnlyDigits(index);
    var head := "node " + Decimal(index) + " err: ";
    assert '|' !in "node " && '|' !in " err: " && '|' !in Decimal(index);
    assert '|' !in head;
    assert NodeError(index, text) == head + text;
  }

  lemma DifferentTipsBars(index: nat, f: uint64, s: uint64)
    requires index > 0
    ensures '|' !in DifferentTips(index, f, s)
  {
    OnlyDigits(index);
    OnlyDigits(index - 1);
    OnlyDigits(f);
    OnlyDigits(s);
    assert '|' !in "nodes " && '|' !in " (height=" && '|' !in ") and ";
    assert '|' !in ") are reporting different chain tips";
    assert '|' !in Decimal(index) && '|' !in Decimal(index - 1) && '|' !in Decimal(f) && '|' !in Decimal(s);
  }

  lemma {:induction false} SegmentsFreeIff(replies: seq<Reply<uint64>>, p: nat)
    requires p <= |replies|
    ensures Free(SegmentsTo(replies, p), '|') <==> BarFreeErrors(replies, p)
  {
    if p > 0 {
      SegmentsFreeIff(replies, p - 1);
      var before, at := SegmentsTo(replies, p - 1), SegmentsAt(replies, p - 1);
      if replies[p - 1].Ok() {
        if at != [] {
          var heights := HeightsTo(replies, p - 1);
          HeightsBound(replies, p - 1);
          DifferentTipsBars(p - 1, replies[p - 1].value, heights[|heights| - 1]);
        }
        assert Free(at, '|');
      } else {
        NodeErrorBars(p - 1, replies[p - 1].err.value);
        assert at[0] == NodeError(p - 1, replies[p - 1].err.value);
        assert Free(at, '|') <==> '|' !in replies[p - 1].err.value;
      }
      assert BarFreeErrors(replies, p) <==>
             BarFreeErrors(replies, p - 1) && (replies[p - 1].Ok() || '|' !in replies[p - 1].err.value);
      FreeConcat(before, at);
    }
  }

  lemma FreeConcat(a: seq<string>, b: seq<string>)
    ensures Free(a + b, '|') <==> Free(a, '|') && Free(b, '|')
  {
    if Free(a + b, '|') {
      assert forall k :: 0 <= k < |a| ==> a[k] == (a + b)[k];
      assert forall k :: 0 <= k < |b| ==> b[k] == (a + b)[|a| + k];
    }
  }

  /** The failures the handler lists are, in order, exactly the segments BlockNumber appended if and only if no
      failing node's error text contains a bar; they are never fewer. */
  lemma FailuresAreSegmentsIff(replies: seq<Reply<uint64>>)
    ensures var segments := SegmentsTo(replies, |replies|);
            && (FailuresOf(Terminated(segments)) == segments <==> BarFreeErrors(replies, |replies|))
            && |FailuresOf(Terminated(segments))| >= |segments|
            && (Terminated(segments) == "" <==> segments == [])
  {
    var segments := SegmentsTo(replies, |replies|);
    ParsedBackIff(segments);
    SegmentsFreeIff(replies, |replies|);
    FailuresAreBars(Terminated(segments));
    BarsInTerminated(segments);
  }

  // ---------------------------------------------------------------- what BlockNumber returns

  /** One position lengthens the error text by its own segment, if it has one. */
  lemma TextGrows(replies: seq<Reply<uint64>>, i: nat)
    requires i < |replies|
    ensures |SegmentsAt(replies, i)| <= 1
    ensures Terminated(SegmentsTo(replies, i + 1))
         == AddSegments(Terminated(SegmentsTo(replies, i)), SegmentsAt(replies, i))
  {
    var before, at := SegmentsTo(replies, i), SegmentsAt(replies, i);
    if at == [] {
      assert before + at == before;
    } else {
      assert at == [at[0]];
      assert (before + at)[..|before|] == before;
    }
  }

  lemma PositionFails(replies: seq<Reply<uint64>>, i: nat)
    requires i < |replies| && !replies[i].Ok()
    ensures HeightsTo(replies, i + 1) == HeightsTo(replies, i)
    ensures Terminated(SegmentsTo(replies, i + 1))
         == Terminated(SegmentsTo(replies, i)) + NodeError(i, replies[i].err.value) + "|"
  {
    TextGrows(replies, i);
  }

  lemma PositionAnswers(replies: seq<Reply<uint64>>, i: nat)
    requires i < |replies| && replies[i].Ok()
    ensures HeightsTo(replies, i + 1) == HeightsTo(replies, i) + [replies[i].value]
    ensures HeightsTo(replies, i) != [] ==> i > 0
    ensures var heights, text := HeightsTo(replies, i), Terminated(SegmentsTo(replies, i));
            Terminated(SegmentsTo(replies, i + 1)) ==
            if heights != [] && AbsDiff(replies[i].value, heights[|heights| - 1]) > BLOCK_DIFF
            then text + DifferentTips(i, replies[i].value, heights[|heights| - 1]) + "|" else text
  {
    HeightsBound(replies, i);
    TextGrows(replies, i);
  }

  /** The error text is empty only when there is nothing to report, and then there is a first height. */
  lemma SilentMeansAnswered(replies: seq<Reply<uint64>>)
    requires |replies| > 0
    ensures Terminated(SegmentsTo(replies, |replies|)) == "" <==> SegmentsTo(replies, |replies|) == []
    ensures SegmentsTo(replies, |replies|) == [] ==> HeightsTo(replies, |replies|) != []
  {
    ReportIff(replies);
    FailuresAreSegmentsIff(replies);
  }

  function AddSegments(text: string, segments: seq<string>): string {
    if segments == [] then text else text + segments[0] + "|"
  }

  /** The first answered height, or an error that lists every failure. */
  function Verdict(replies: seq<Reply<uint64>>): Reply<uint64>
    requires |replies| > 0
  {
    var segments := SegmentsTo(replies, |replies|);
    SilentMeansAnswered(replies);
    if segments == [] then Reply(HeightsTo(replies, |replies|)[0], None) else Reply(0, Some(Terminated(segments)))
  }

  // ---------------------------------------------------------------- format check

  lemma OneFailing()
    ensures Verdict([Reply(7, Some("testErr"))]) == Reply(0, Some("node 0 err: testErr|"))
  {
    var replies: seq<Reply<uint64>> := [Reply(7, Some("testErr"))];
    TextGrows(replies, 0);
    assert Decimal(0) == "0";
    assert NodeError(0, "testErr") == "node " + "0" + " err: " + "testErr" == "node 0 err: testErr";
    assert SegmentsTo(replies, 1) == SegmentsAt(replies, 0) == ["node 0 err: testErr"];
    assert Terminated(SegmentsTo(replies, 0)) == "";
    assert Terminated(SegmentsTo(replies, 1)) == "" + "node 0 err: testErr" + "|" == "node 0 err: testErr|";
  }
}
