/** What a report tells its reader: the findings read back from its text are exactly the failing nodes and the
    neighbouring answers too far apart, in list order. */
module Findings {
  import opened Replies
  import opened Report
  import opened Text

  /** One segment of a report, understood. The node at `other` is said to be the one at `otherHeight`. */
  datatype Finding =
    | NodeFailed(index: int, text: string)
    | TipsDiffer(index: int, height: int, other: int, otherHeight: int)
    | Unreadable

  const FAILED_FORMAT := ["node ", " err: "]
  const TIPS_FORMAT := ["nodes ", " (height=", ") and ", " (height=", ") are reporting different chain tips"]

  function Understood(segment: string): Finding {
    match Scanned(segment, FAILED_FORMAT)
    case Some(found) => NodeFailed(found.0[0], found.1)
    case None =>
      match Scanned(segment, TIPS_FORMAT)
      case Some(found) =>
        if found.1 == "" then TipsDiffer(found.0[0], found.0[1], found.0[2], found.0[3]) else Unreadable
      case None => Unreadable
  }

  function Readings(segments: seq<string>): (findings: seq<Finding>)
    ensures |findings| == |segments|
    ensures forall k :: 0 <= k < |segments| ==> findings[k] == Understood(segments[k])
  {
    seq(|segments|, k requires 0 <= k < |segments| => Understood(segments[k]))
  }

  lemma Assoc(a: string, b: string, c: string)
    ensures a + (b + c) == a + b + c
  {
  }

  lemma PrintedOne(a: string, b: string, p: nat, tail: string)
    ensures Printed([a, b], [p], tail) == a + (Decimal(p) + (b + tail))
  {
    assert Printed([b], [], tail) == b + tail;
    assert [a, b][1..] == [b] && [p][1..] == [];
  }

  lemma FailureUnderstood(index: nat, text: string)
    ensures Understood(NodeError(index, text)) == NodeFailed(index, text)
  {
    PrintedOne("node ", " err: ", index, text);
    Assoc("node ", Decimal(index), " err: " + text);
    Assoc("node " + Decimal(index), " err: ", text);
    PrintThenScan(FAILED_FORMAT, [index], text);
  }

  lemma {:induction false} PrintedMore(a: string, literals: seq<string>, p: nat, numbers: seq<nat>)
    requires |literals| == |numbers| + 1
    ensures Printed([a] + literals, [p] + numbers, "") == a + (Decimal(p) + Printed(literals, numbers, ""))
  {
    assert ([a] + literals)[1..] == literals && ([p] + numbers)[1..] == numbers;
  }

  lemma {:induction false} PrintedFour(a: string, b: string, c: string, d: string, e: string,
                                       p: nat, q: nat, r: nat, s: nat)
    ensures Printed([a, b, c, d, e], [p, q, r, s], "")
         == a + (Decimal(p) + (b + (Decimal(q) + (c + (Decimal(r) + (d + (Decimal(s) + (e + ""))))))))
  {
    PrintedOne(d, e, s, "");
    PrintedMore(c, [d, e], r, [s]);
    PrintedMore(b, [c, d, e], q, [r, s]);
    PrintedMore(a, [b, c, d, e], p, [q, r, s]);
    assert [c] + [d, e] == [c, d, e] && [r] + [s] == [r, s];
    assert [b] + [c, d, e] == [b, c, d, e] && [q] + [r, s] == [q, r, s];
    assert [a] + [b, c, d, e] == [a, b, c, d, e] && [p] + [q, r, s] == [p, q, r, s];
  }

  lemma Flatten(a: string, p: string, b: string, q: string, c: string, r: string, d: string, s: string, e: string)
    ensures a + (p + (b + (q + (c + (r + (d + (s + (e + "")))))))) == a + p + b + q + c + r + d + s + e
  {
    var y := d + (s + (e + ""));
    var x := b + (q + (c + (r + y)));
    Assoc(a, p, x);
    Assoc(a + p, b, q + (c + (r + y)));
    Assoc(a + p + b, q, c + (r + y));
    Assoc(a + p + b + q, c, r + y);
    Assoc(a + p + b + q + c, r, y);
    Assoc(a + p + b + q + c + r, d, s + (e + ""));
    Assoc(a + p + b + q + c + r + d, s, e + "");
    assert e + "" == e;
  }

  lemma TipsPrinted(index: nat, f: uint64, s: uint64)
    requires index > 0
    ensures DifferentTips(index, f, s) == Printed(TIPS_FORMAT, [index, f, index - 1, s], "")
  {
    PrintedFour("nodes ", " (height=", ") and ", " (height=", ") are reporting different chain tips",
                index, f, index - 1, s);
    Flatten("nodes ", Decimal(index), " (height=", Decimal(f), ") and ", Decimal(index - 1), " (height=", Decimal(s),
            ") are reporting different chain tips");
  }

  lemma NotAFailure(index: nat, f: uint64, s: uint64)
    requires index > 0
    ensures Scanned(DifferentTips(index, f, s), FAILED_FORMAT) == None
  {
    assert DifferentTips(index, f, s)[4] == 's';
  }

  lemma TipsScanned(index: nat, f: uint64, s: uint64)
    requires index > 0
    ensures Scanned(DifferentTips(index, f, s), TIPS_FORMAT) == Some(([index, f, index - 1, s], ""))
  {
    TipsPrinted(index, f, s);
    PrintThenScan(TIPS_FORMAT, [index, f, index - 1, s], "");
  }

  lemma TipsUnderstood(index: nat, f: uint64, s: uint64)
    requires index > 0
    ensures Understood(DifferentTips(index, f, s)) == TipsDiffer(index, f, index - 1, s)
  {
    NotAFailure(index, f, s);
    TipsScanned(index, f, s);
  }

  // ---------------------------------------------------------------- what there is to find

  /** The last node before `i` that answered is at `k`. */
  ghost predicate AnsweredBefore(replies: seq<Reply<uint64>>, i: nat, k: nat) {
    k < i <= |replies| && replies[k].Ok() && forall l :: k < l < i ==> !replies[l].Ok()
  }

  /** A finding is true: that node failed with that text, or that node and the last one that answered before it gave
      those heights, which are more than the limit apart. */
  ghost predicate Holds(replies: seq<Reply<uint64>>, finding: Finding) {
    match finding
    case NodeFailed(i, text) => 0 <= i < |replies| && replies[i].err == Some(text)
    case TipsDiffer(i, height, other, otherHeight) =>
      && 0 <= i < |replies| && replies[i].Ok() && height == replies[i].value && other == i - 1
      && exists k: nat :: AnsweredBefore(replies, i, k) && otherHeight == replies[k].value
                     && (height - otherHeight > 3 || otherHeight - height > 3)
    case Unreadable => false
  }

  function Position(finding: Finding): int {
    match finding
    case NodeFailed(i, _) => i
    case TipsDiffer(i, _, _, _) => i
    case Unreadable => -1
  }

  ghost predicate InOrder(findings: seq<Finding>) {
    forall k, l :: 0 <= k < l < |findings| ==> Position(findings[k]) < Position(findings[l])
  }

  /** The segments tell the truth, the whole truth, and each thing once, in list order. */
  ghost predicate Tells(segments: seq<string>, replies: seq<Reply<uint64>>) {
    && (forall finding :: finding in Readings(segments) <==> Holds(replies, finding))
    && InOrder(Readings(segments))
  }

  /** The last height collected is that of the last node that answered. */
  lemma {:induction false} LastHeight(replies: seq<Reply<uint64>>, p: nat)
    requires p <= |replies|
    ensures var heights := HeightsTo(replies, p);
            && (heights == [] ==> forall k :: 0 <= k < p ==> !replies[k].Ok())
            && (heights != [] ==> exists k: nat :: AnsweredBefore(replies, p, k)
                                              && replies[k].value == heights[|heights| - 1])
  {
    if p > 0 {
      LastHeight(replies, p - 1);
      if replies[p - 1].Ok() {
        assert AnsweredBefore(replies, p, p - 1);
      } else if HeightsTo(replies, p - 1) != [] {
        var heights := HeightsTo(replies, p - 1);
        var k: nat :| AnsweredBefore(replies, p - 1, k) && replies[k].value == heights[|heights| - 1];
        assert AnsweredBefore(replies, p, k);
      }
    }
  }

  lemma OneBefore(replies: seq<Reply<uint64>>, i: nat, k: nat, l: nat)
    requires AnsweredBefore(replies, i, k) && AnsweredBefore(replies, i, l)
    ensures k == l
  {
  }

  /** What position `i` adds to the report says what there is to say about it. */
  lemma SegmentIsTrue(replies: seq<Reply<uint64>>, i: nat, finding: Finding)
    requires i < |replies|
    ensures finding in Readings(SegmentsAt(replies, i)) <==> Holds(replies, finding) && Position(finding) == i
  {
    if !replies[i].Ok() {
      FailureUnderstood(i, replies[i].err.value);
      assert SegmentsAt(replies, i) == [NodeError(i, replies[i].err.value)];
      assert Readings(SegmentsAt(replies, i)) == [NodeFailed(i, replies[i].err.value)];
    } else if FarFromPrevious(replies, i) {
      TipsAreTrue(replies, i, finding);
    } else {
      assert SegmentsAt(replies, i) == [];
      if Holds(replies, finding) && Position(finding) == i {
        TipsMeanFar(replies, i, finding);
      }
    }
  }

  lemma TipsAreTrue(replies: seq<Reply<uint64>>, i: nat, finding: Finding)
    requires i < |replies| && replies[i].Ok() && FarFromPrevious(replies, i)
    ensures finding in Readings(SegmentsAt(replies, i)) <==> Holds(replies, finding) && Position(finding) == i
  {
    LastHeight(replies, i);
    HeightsBound(replies, i);
    var heights := HeightsTo(replies, i);
    var f, s := replies[i].value, heights[|heights| - 1];
    assert SegmentsAt(replies, i) == [DifferentTips(i, f, s)];
    TipsUnderstood(i, f, s);
    assert Readings(SegmentsAt(replies, i)) == [TipsDiffer(i, f, i - 1, s)];
    var k: nat :| AnsweredBefore(replies, i, k) && replies[k].value == s;
    OnlyTips(replies, i, k, finding);
  }

  lemma OnlyTips(replies: seq<Reply<uint64>>, i: nat, k: nat, finding: Finding)
    requires i < |replies| && replies[i].Ok() && AnsweredBefore(replies, i, k)
    requires AbsDiff(replies[i].value, replies[k].value) > BLOCK_DIFF
    ensures Holds(replies, finding) && Position(finding) == i
       <==> finding == TipsDiffer(i, replies[i].value, i - 1, replies[k].value)
  {
    if Holds(replies, finding) && Position(finding) == i {
      var l: nat :| AnsweredBefore(replies, i, l) && finding.otherHeight == replies[l].value;
      OneBefore(replies, i, k, l);
    }
  }

  lemma TipsMeanFar(replies: seq<Reply<uint64>>, i: nat, finding: Finding)
    requires i < |replies| && Holds(replies, finding) && finding.TipsDiffer? && finding.index == i
    ensures FarFromPrevious(replies, i)
  {
    LastHeight(replies, i);
    var l: nat :| AnsweredBefore(replies, i, l) && finding.otherHeight == replies[l].value
                  && (finding.height - replies[l].value > 3 || replies[l].value - finding.height > 3);
    var heights := HeightsTo(replies, i);
    var k: nat :| AnsweredBefore(replies, i, k) && replies[k].value == heights[|heights| - 1];
    OneBefore(replies, i, k, l);
  }

  lemma {:induction false} SegmentsAreTrue(replies: seq<Reply<uint64>>, p: nat, finding: Finding)
    requires p <= |replies|
    ensures finding in Readings(SegmentsTo(replies, p)) <==> Holds(replies, finding) && Position(finding) < p
  {
    if p > 0 {
      SegmentsAreTrue(replies, p - 1, finding);
      SegmentIsTrue(replies, p - 1, finding);
      ReadingsGrow(replies, p);
    }
  }

  lemma ReadingsGrow(replies: seq<Reply<uint64>>, p: nat)
    requires 0 < p <= |replies|
    ensures Readings(SegmentsTo(replies, p))
         == Readings(SegmentsTo(replies, p - 1)) + Readings(SegmentsAt(replies, p - 1))
  {
  }

  lemma OrderGrows(before: seq<Finding>, at: seq<Finding>, i: nat)
    requires InOrder(before) && |at| <= 1
    requires forall finding :: finding in before ==> Position(finding) < i
    requires forall finding :: finding in at ==> Position(finding) == i
    ensures InOrder(before + at)
  {
  }

  lemma {:induction false} PositionsTo(replies: seq<Reply<uint64>>, p: nat)
    requires p <= |replies|
    ensures forall finding :: finding in Readings(SegmentsTo(replies, p)) ==> Position(finding) < p
  {
    forall finding | finding in Readings(SegmentsTo(replies, p))
      ensures Position(finding) < p
    {
      SegmentsAreTrue(replies, p, finding);
    }
  }

  lemma {:induction false} PositionsAt(replies: seq<Reply<uint64>>, i: nat)
    requires i < |replies|
    ensures |Readings(SegmentsAt(replies, i))| <= 1
    ensures forall finding :: finding in Readings(SegmentsAt(replies, i)) ==> Position(finding) == i
  {
    TextGrows(replies, i);
    forall finding | finding in Readings(SegmentsAt(replies, i))
      ensures Position(finding) == i
    {
      SegmentIsTrue(replies, i, finding);
    }
  }

  lemma {:induction false} StaysInOrder(replies: seq<Reply<uint64>>, i: nat)
    requires i < |replies| && InOrder(Readings(SegmentsTo(replies, i)))
    ensures InOrder(Readings(SegmentsTo(replies, i)) + Readings(SegmentsAt(replies, i)))
  {
    PositionsTo(replies, i);
    PositionsAt(replies, i);
    OrderGrows(Readings(SegmentsTo(replies, i)), Readings(SegmentsAt(replies, i)), i);
  }

  lemma {:induction false} SegmentsInOrder(replies: seq<Reply<uint64>>, p: nat)
    requires p <= |replies|
    ensures InOrder(Readings(SegmentsTo(replies, p)))
  {
    if p > 0 {
      SegmentsInOrder(replies, p - 1);
      StaysInOrder(replies, p - 1);
      ReadingsGrow(replies, p);
    }
  }

  /** For every list of replies the report tells its reader which nodes failed with which text and which neighbouring
      answers are too far apart, and nothing else. */
  lemma ReportTells(replies: seq<Reply<uint64>>)
    ensures Tells(SegmentsTo(replies, |replies|), replies)
  {
    forall finding: Finding
      ensures finding in Readings(SegmentsTo(replies, |replies|)) <==> Holds(replies, finding)
    {
      SegmentsAreTrue(replies, |replies|, finding);
    }
    SegmentsInOrder(replies, |replies|);
  }

  /** Only one sequence of findings tells the whole truth about given replies. */
  lemma {:induction false} TellsDetermines(a: seq<string>, b: seq<string>, replies: seq<Reply<uint64>>)
    requires Tells(a, replies) && Tells(b, replies)
    ensures Readings(a) == Readings(b)
  {
    SameOrder(Readings(a), Readings(b));
  }

  lemma EmptyAlike(a: seq<Finding>, b: seq<Finding>)
    requires forall finding :: finding in b ==> finding in a
    ensures a == [] ==> b == []
  {
    if b != [] {
      assert b[0] in a;
    }
  }

  /** Alike and in order means the same last one, and the others alike again. */
  lemma {:induction false} LastAlike(a: seq<Finding>, b: seq<Finding>)
    requires a != [] && b != [] && InOrder(a) && InOrder(b)
    requires forall finding :: finding in a <==> finding in b
    ensures a[|a| - 1] == b[|b| - 1]
  {
    var m, n := |a| - 1, |b| - 1;
    assert a[m] in b && b[n] in a;
    var k :| 0 <= k < |b| && b[k] == a[m];
    var l :| 0 <= l < |a| && a[l] == b[n];
    assert Position(b[k]) <= Position(b[n]) && Position(a[l]) <= Position(a[m]);
    assert k == n;
  }

  lemma {:induction false} OthersAlike(a: seq<Finding>, b: seq<Finding>, finding: Finding)
    requires a != [] && b != [] && InOrder(a) && a[|a| - 1] == b[|b| - 1]
    requires finding in a ==> finding in b
    ensures finding in a[..|a| - 1] ==> finding in b[..|b| - 1]
  {
    if finding in a[..|a| - 1] {
      var k :| 0 <= k < |a| - 1 && a[k] == finding;
      assert Position(a[k]) < Position(a[|a| - 1]);
      assert finding in a;
    }
  }

  lemma {:induction false} SameOrder(a: seq<Finding>, b: seq<Finding>)
    requires forall finding :: finding in a <==> finding in b
    requires InOrder(a) && InOrder(b)
    ensures a == b
  {
    EmptyAlike(a, b);
    EmptyAlike(b, a);
    if a != [] {
      var m, n := |a| - 1, |b| - 1;
      LastAlike(a, b);
      forall finding
        ensures finding in a[..m] <==> finding in b[..n]
      {
        OthersAlike(a, b, finding);
        OthersAlike(b, a, finding);
      }
      SameOrder(a[..m], b[..n]);
      assert a == a[..m] + [a[m]] && b == b[..n] + [b[n]];
    }
  }

  // ---------------------------------------------------------------- the verdict

  lemma {:induction false} FirstHeight(replies: seq<Reply<uint64>>, p: nat)
    requires 0 < p <= |replies| && replies[0].Ok()
    ensures HeightsTo(replies, p) != [] && HeightsTo(replies, p)[0] == replies[0].value
  {
    if p > 1 {
      FirstHeight(replies, p - 1);
    }
  }

  /** The text of an error: terminated segments that tell everything about the replies. */
  ghost predicate IsReport(text: string, replies: seq<Reply<uint64>>) {
    exists segments :: Tells(segments, replies) && text == Terminated(segments)
  }

  /** What BlockNumber returns: the height of the first node if all answer and neighbours are close, and otherwise
      zero with a text that tells all there is to tell. */
  lemma VerdictMeans(replies: seq<Reply<uint64>>)
    requires |replies| > 0
    ensures var result := Verdict(replies);
            && (result.Ok() <==> AllAnswer(replies) && !SomeNeighboursApart(Values(replies)))
            && (result.Ok() ==> result.value == replies[0].value)
            && (!result.Ok() ==> result.value == 0 && IsReport(result.err.value, replies))
  {
    SucceedsIff(replies);
    ReportTells(replies);
    if Verdict(replies).Ok() {
      FirstHeight(replies, |replies|);
    }
  }
}
