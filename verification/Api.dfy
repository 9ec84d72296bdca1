/** The health endpoint: turns the outcome of BlockNumber into a list of failures and a status code. */
module Api {
  import opened Order
  import opened Replies
  import opened Report
  import opened Findings
  import opened MultiNode
  import opened Text

  const STATUS_OK := 200
  const STATUS_SERVICE_UNAVAILABLE := 503

  /** For the outcome of any client: the code is decided by whether the error text holds a bar, not by whether
      there is an error. */
  method Health(pinged: Reply<uint64>) returns (failures: seq<string>, httpCode: int)
    ensures failures == if pinged.err == None then [] else FailuresOf(pinged.err.value)
    ensures httpCode == if pinged.err != None && '|' in pinged.err.value then 503 else 200
    ensures httpCode == 200 <==> failures == []
  {
    failures := [];
    httpCode := STATUS_OK;
    if pinged.err != None {
      var failureArray := Split(pinged.err.value, '|');
      var trimmed := failureArray[0..|failureArray| - 1];
      failures := failures + trimmed;
      FailuresAreBars(pinged.err.value);
    }
    if |failures| > 0 {
      httpCode := STATUS_SERVICE_UNAVAILABLE;
    }
  }

  /** The endpoint over a multi-node client: 503 exactly when some node failed or two consecutive answered heights
      are more than 3 apart, 200 with an empty list otherwise; and the failures listed are the segments reported
      exactly when no failing node's text contains a bar, and then they tell which nodes failed how and which answers
      are too far apart. */
  method HealthOf(client: MultiNodeClient, heightOf: Item -> Reply<uint64>)
    returns (failures: seq<string>, httpCode: int)
    requires client.Valid()
    ensures var replies := Poll(client.nodes[..], heightOf);
            httpCode == if SomeFailed(replies) || SomeNeighboursApart(HeightsTo(replies, |replies|)) then 503 else 200
    ensures httpCode == 200 <==> failures == []
    ensures var replies := Poll(client.nodes[..], heightOf);
            && (failures == SegmentsTo(replies, |replies|) <==> BarFreeErrors(replies, |replies|))
            && (BarFreeErrors(replies, |replies|) ==>
                  && Tells(failures, replies)
                  && |failures| == FailedTo(replies, |replies|) + FarPairs(HeightsTo(replies, |replies|))
                  && |failures| <= |replies|
                  && (HeightsTo(replies, |replies|) != [] ==> |failures| <= |replies| - 1))
  {
    ghost var replies := Poll(client.nodes[..], heightOf);
    var pinged := client.BlockNumber(heightOf);
    failures, httpCode := Health(pinged);
    ReportIff(replies);
    FailuresAreSegmentsIff(replies);
    CountLaw(replies, |replies|);
    SegmentsBound(replies);
    SegmentsFreeIff(replies, |replies|);
    FailuresAreBars(Terminated(SegmentsTo(replies, |replies|)));
    ReportTells(replies);
  }

  /** An error without a bar goes unnoticed: the endpoint answers 200 with an empty list. A multi-node client never
      returns one, but another client behind the same handler may. */
  method BarFreeErrorGoesUnnoticed(pinged: Reply<uint64>) returns (failures: seq<string>, httpCode: int)
    requires pinged.err != None && '|' !in pinged.err.value
    ensures httpCode == 200 && failures == []
  {
    failures, httpCode := Health(pinged);
  }
}
