/** The client itself, for one caller at a time: the list is an array and a promotion swaps in place. */
module MultiNode {
  import opened Order
  import opened Replies
  import opened Failover
  import opened Report
  import opened Findings

  class MultiNodeClient {
    const nodes: array<Item>

    ghost predicate Valid()
      reads nodes
    {
      nodes.Length > 0 && DistinctIds(nodes[..])
    }

    constructor (items: seq<Item>)
      requires items != [] && DistinctIds(items)
      ensures Valid() && fresh(nodes) && nodes[..] == items
    {
      nodes := new Item[|items|](i requires 0 <= i < |items| => items[i]);
      new;
      assert nodes[..] == items;
    }

    /** Bumps the node up one place if it is still at `position`. */
    method IncreaseNodePriority(position: nat, id: string)
      requires Valid() && position < nodes.Length
      modifies nodes
      ensures Valid()
      ensures nodes[..] == Promote(old(nodes[..]), position, id)
    {
      PromotePermutes(nodes[..], position, id);
      if position == 0 {
        return;
      }
      if nodes[position].id != id {
        return;
      }
      nodes[position - 1], nodes[position] := nodes[position], nodes[position - 1];
    }

    /** The loop shared by BalanceAt, TransactionByHash, TransactionReceipt and SendTransaction: `ask` is how each
        node answers the request and `zero` the zero value of the results. */
    method Call<R>(ask: Item -> Reply<R>, zero: R) returns (reply: Reply<R>, ghost queried: seq<Item>)
      requires Valid()
      modifies nodes
      ensures Valid()
      ensures reply == ReplyOf(old(nodes[..]), ask)
      ensures queried == Queried(old(nodes[..]), ask)
      ensures nodes[..] == Reordered(old(nodes[..]), ask)
    {
      ghost var order := nodes[..];
      reply := Reply(zero, None);
      queried := [];
      var i := 0;
      while i < nodes.Length
        invariant i <= nodes.Length
        invariant nodes[..] == order
        invariant queried == order[..i]
        invariant forall k :: 0 <= k < i ==> !ask(order[k]).Ok()
        invariant i > 0 ==> reply == ask(order[i - 1])
      {
        var node := nodes[i];
        reply := ask(node);
        queried := queried + [node];
        assert queried == order[..i + 1];
        if reply.err == None {
          FirstAnsweringIs(order, ask, i);
          IncreaseNodePriority(i, node.id);
          break;
        }
        i := i + 1;
      }
    }

    /** The liveness probe: asks every node and reports failures and neighbours too far apart. With nothing to report
        it returns the height of the first node. */
    method BlockNumber(heightOf: Item -> Reply<uint64>) returns (result: Reply<uint64>)
      requires Valid()
      ensures result == Verdict(Poll(nodes[..], heightOf))
      ensures var replies := Poll(nodes[..], heightOf);
              result.Ok() <==> AllAnswer(replies) && !SomeNeighboursApart(Values(replies))
      ensures result.Ok() ==> result.value == heightOf(nodes[0]).value
      ensures !result.Ok() ==> result.value == 0 && IsReport(result.err.value, Poll(nodes[..], heightOf))
    {
      ghost var replies := Poll(nodes[..], heightOf);
      var blockheights: seq<uint64> := [];
      var errStr := "";
      var i := 0;
      while i < nodes.Length
        invariant i <= nodes.Length
        invariant blockheights == HeightsTo(replies, i)
        invariant errStr == Terminated(SegmentsTo(replies, i))
      {
        var index := i;
        var node := nodes[index];
        var b := heightOf(node);
        assert b == replies[index];
        i := i + 1;
        if b.err != None {
          errStr := errStr + NodeError(index, b.err.value) + "|";
          assert blockheights == HeightsTo(replies, i) && errStr == Terminated(SegmentsTo(replies, i)) by {
            PositionFails(replies, index);
          }
          continue;
        }
        ghost var before := blockheights;
        blockheights := blockheights + [b.value];
        assert blockheights == HeightsTo(replies, i) by {
          PositionAnswers(replies, index);
        }
        if |blockheights| > 1 {
          var f, s := blockheights[|blockheights| - 1], blockheights[|blockheights| - 2];
          assert f == replies[index].value && s == before[|before| - 1];
          if AbsDiff(f, s) > BLOCK_DIFF {
            HeightsBound(replies, index);
            errStr := errStr + DifferentTips(index, f, s) + "|";
          }
        }
        assert errStr == Terminated(SegmentsTo(replies, i)) by {
          PositionAnswers(replies, index);
        }
      }
      SilentMeansAnswered(replies);
      VerdictMeans(replies);
      if errStr != "" {
        return Reply(0, Some(errStr));
      }
      return Reply(blockheights[0], None);
    }
  }
}
