/** Building the client from a comma-separated list of urls. */
module Construct {
  import opened Order
  import opened Replies
  import opened Text
  import opened MultiNode
  import opened Machine

  /** How the n-th call of the node constructor turns out for a url. */
  type Dial = (nat, string) -> Reply<Client>

  /** The indices below `p` of the urls that connect, in order. */
  function Connecting(urls: seq<string>, dial: Dial, p: nat): seq<nat>
    requires p <= |urls|
  {
    if p == 0 then []
    else Connecting(urls, dial, p - 1) + (if dial(p - 1, urls[p - 1]).Ok() then [p - 1] else [])
  }

  /** In order, each once, and all of them. */
  lemma {:induction false} ConnectingIs(urls: seq<string>, dial: Dial, p: nat)
    requires p <= |urls|
    ensures var at := Connecting(urls, dial, p);
            && (forall k :: 0 <= k < |at| ==> at[k] < p)
            && (forall k, l :: 0 <= k < l < |at| ==> at[k] < at[l])
            && (forall i :: 0 <= i < p ==> (i in at <==> dial(i, urls[i]).Ok()))
  {
    if p > 0 {
      ConnectingIs(urls, dial, p - 1);
    }
  }

  /** The list built from the first `p` urls: numbered by place in the list, not by place among the urls. */
  ghost predicate BuiltFrom(items: seq<Item>, urls: seq<string>, dial: Dial, p: nat)
    requires p <= |urls|
  {
    var at := Connecting(urls, dial, p);
    && |items| == |at|
    && forall k :: 0 <= k < |items| ==>
         at[k] < |urls| && items[k] == Item(Decimal(k), dial(at[k], urls[at[k]]).value)
  }

  lemma BuiltIdsDistinct(items: seq<Item>, urls: seq<string>, dial: Dial, p: nat)
    requires p <= |urls| && BuiltFrom(items, urls, dial, p)
    ensures DistinctIds(items)
  {
    forall i, j | 0 <= i < j < |items|
      ensures items[i].id != items[j].id
    {
      DecimalInjective(i, j);
    }
  }

  /** Indices that grow stay at or above their places, and are at most as far from a later one as the places are. */
  lemma {:induction false} GrowingAtLeast(at: seq<nat>, j: nat, k: nat)
    requires j <= k < |at| && forall a, b :: 0 <= a < b < |at| ==> at[a] < at[b]
    ensures j <= at[j] && at[j] + (k - j) <= at[k]
    decreases k
  {
    if j < k {
      GrowingAtLeast(at, j, k - 1);
    } else if j > 0 {
      GrowingAtLeast(at, j - 1, j - 1);
    }
  }

  /** If every url up to the k-th connecting one connects, it is the k-th url. */
  lemma {:induction false} ConnectingPrefix(urls: seq<string>, dial: Dial, k: nat)
    requires k < |Connecting(urls, dial, |urls|)|
    requires forall i :: 0 <= i <= Connecting(urls, dial, |urls|)[k] && i < |urls| ==> dial(i, urls[i]).Ok()
    ensures Connecting(urls, dial, |urls|)[k] == k
  {
    var at := Connecting(urls, dial, |urls|);
    ConnectingIs(urls, dial, |urls|);
    GrowingAtLeast(at, k, k);
    if k < at[k] {
      assert dial(k, urls[k]).Ok();
      assert k in at;
      var j :| 0 <= j < |at| && at[j] == k;
      GrowingAtLeast(at, j, j);
      if j < k {
        assert at[j] < at[k];
        ConnectingPrefix(urls, dial, j);
      }
    }
  }

  /** And if it is the k-th url, every url before it connects. */
  lemma PrefixConnecting(urls: seq<string>, dial: Dial, k: nat)
    requires k < |Connecting(urls, dial, |urls|)| && Connecting(urls, dial, |urls|)[k] == k
    ensures k < |urls| && forall i :: 0 <= i < k ==> dial(i, urls[i]).Ok()
  {
    var at := Connecting(urls, dial, |urls|);
    ConnectingIs(urls, dial, |urls|);
    forall i | 0 <= i < k
      ensures i in at
    {
      GrowingAtLeast(at, i, k);
    }
  }

  ghost predicate AllConnectBefore(urls: seq<string>, dial: Dial, p: nat) {
    forall i :: 0 <= i < p && i < |urls| ==> dial(i, urls[i]).Ok()
  }

  lemma KthUrlIff(urls: seq<string>, dial: Dial, k: nat)
    requires k < |Connecting(urls, dial, |urls|)|
    ensures Connecting(urls, dial, |urls|)[k] == k <==>
            AllConnectBefore(urls, dial, Connecting(urls, dial, |urls|)[k])
  {
    var u := Connecting(urls, dial, |urls|)[k];
    if u == k {
      PrefixConnecting(urls, dial, k);
    } else if AllConnectBefore(urls, dial, u) {
      KthConnects(urls, dial, k);
      ConnectingPrefix(urls, dial, k);
    }
  }

  lemma KthConnects(urls: seq<string>, dial: Dial, k: nat)
    requires k < |Connecting(urls, dial, |urls|)|
    ensures var u := Connecting(urls, dial, |urls|)[k]; u < |urls| && dial(u, urls[u]).Ok()
  {
    ConnectingIs(urls, dial, |urls|);
    assert Connecting(urls, dial, |urls|)[k] in Connecting(urls, dial, |urls|);
  }

  /** The comment on the id calls it the position in the url string. For the k-th node that is so if and only if every
      url before its own connected. */
  lemma IdIsUrlPositionIff(items: seq<Item>, urls: seq<string>, dial: Dial, k: nat)
    requires BuiltFrom(items, urls, dial, |urls|) && k < |items|
    ensures k < |Connecting(urls, dial, |urls|)|
    ensures var u := Connecting(urls, dial, |urls|)[k];
            items[k].id == Decimal(u) <==> AllConnectBefore(urls, dial, u)
  {
    KthUrlIff(urls, dial, k);
    DecimalInjective(k, Connecting(urls, dial, |urls|)[k]);
  }

  lemma SplitOfTwo()
    ensures Split("a,b", ',') == ["a", "b"]
  {
    var urls := ["a", "b"];
    assert urls[1..] == ["b"];
    assert Join(urls, ',') == "a" + [','] + "b" == "a,b";
    assert ',' !in "a" && ',' !in "b";
    JoinThenSplit(urls, ',');
  }

  /** With "a,b", where only the second url connects, the one node has id 0 and url position 1. */
  lemma IdOfTheSecondUrl(dial: Dial, items: seq<Item>)
    requires !dial(0, "a").Ok() && dial(1, "b").Ok()
    requires BuiltFrom(items, Split("a,b", ','), dial, |Split("a,b", ',')|)
    ensures items == [Item(Decimal(0), dial(1, "b").value)] && Connecting(Split("a,b", ','), dial, 2) == [1]
    ensures items[0].id != Decimal(1)
  {
    var urls := ["a", "b"];
    SplitOfTwo();
    assert Connecting(urls, dial, 1) == [] && Connecting(urls, dial, 2) == [1];
    DecimalInjective(0, 1);
  }

  lemma BuiltGrows(items: seq<Item>, urls: seq<string>, dial: Dial, i: nat)
    requires i < |urls| && BuiltFrom(items, urls, dial, i) && dial(i, urls[i]).Ok()
    ensures BuiltFrom(items + [Item(Decimal(|items|), dial(i, urls[i]).value)], urls, dial, i + 1)
  {
  }

  lemma BuiltKept(items: seq<Item>, urls: seq<string>, dial: Dial, i: nat)
    requires i < |urls| && BuiltFrom(items, urls, dial, i) && !dial(i, urls[i]).Ok()
    ensures BuiltFrom(items, urls, dial, i + 1)
  {
    assert Connecting(urls, dial, i + 1) == Connecting(urls, dial, i);
  }

  ghost predicate SomeConnects(urls: seq<string>, dial: Dial) {
    exists i :: 0 <= i < |urls| && dial(i, urls[i]).Ok()
  }

  /** The list is empty exactly when no url connects. */
  lemma BuiltEmptyIff(items: seq<Item>, urls: seq<string>, dial: Dial)
    requires BuiltFrom(items, urls, dial, |urls|)
    ensures items != [] <==> SomeConnects(urls, dial)
  {
    NoneConnecting(urls, dial, |urls|);
  }

  lemma {:induction false} NoneConnecting(urls: seq<string>, dial: Dial, p: nat)
    requires p <= |urls|
    ensures Connecting(urls, dial, p) == [] <==> forall i :: 0 <= i < p ==> !dial(i, urls[i]).Ok()
  {
    if p > 0 {
      NoneConnecting(urls, dial, p - 1);
    }
  }

  /** The last error seen for each url that failed, among the first `p`. */
  ghost predicate LastErrors(errs: map<string, string>, urls: seq<string>, dial: Dial, p: nat)
    requires p <= |urls|
  {
    && (forall i :: 0 <= i < p && !dial(i, urls[i]).Ok() ==> urls[i] in errs)
    && (forall url :: url in errs ==>
          exists i :: 0 <= i < p && LastFailure(urls, dial, p, i, url) && errs[url] == dial(i, url).err.value)
  }

  ghost predicate LastFailure(urls: seq<string>, dial: Dial, p: nat, i: nat, url: string)
    requires p <= |urls|
  {
    && i < p && urls[i] == url && !dial(i, url).Ok()
    && forall j :: i < j < p && urls[j] == url ==> dial(j, url).Ok()
  }

  function Entry(url: string, err: string): string {
    " url='" + url + "' err='" + err + "'"
  }

  function Entries(visited: seq<string>, errs: map<string, string>): (entries: seq<string>)
    requires forall url :: url in visited ==> url in errs
    ensures |entries| == |visited|
    ensures forall k :: 0 <= k < |visited| ==> entries[k] == Entry(visited[k], errs[visited[k]])
  {
    seq(|visited|, k requires 0 <= k < |visited| => Entry(visited[k], errs[visited[k]]))
  }

  function Message(entries: seq<string>): string {
    if entries == [] then "cannot connect to any nodes" else Message(entries[..|entries| - 1]) + entries[|entries| - 1]
  }

  /** `visited` lists every key once: one of the orders in which a Go map may be walked. */
  ghost predicate WalkOf(visited: seq<string>, keys: set<string>) {
    && (forall url :: url in visited <==> url in keys)
    && forall k, l :: 0 <= k < l < |visited| ==> visited[k] != visited[l]
  }

  lemma WalkPermutes(v: seq<string>, w: seq<string>, keys: set<string>)
    requires WalkOf(v, keys) && WalkOf(w, keys)
    ensures multiset(v) == multiset(w)
  {
    OnceEach(v, keys);
    OnceEach(w, keys);
  }

  lemma {:induction false} OnceEach(v: seq<string>, keys: set<string>)
    requires WalkOf(v, keys)
    ensures multiset(v) == multiset(keys)
  {
    if v == [] {
      assert keys == {};
    } else {
      var n := |v| - 1;
      assert v == v[..n] + [v[n]];
      forall url
        ensures url in v[..n] <==> url in keys - {v[n]}
      {
        if url in keys && url != v[n] {
          assert url in v;
        }
      }
      OnceEach(v[..n], keys - {v[n]});
    }
  }

  lemma EntriesConcat(v: seq<string>, w: seq<string>, errs: map<string, string>)
    requires forall url :: url in v || url in w ==> url in errs
    ensures Entries(v + w, errs) == Entries(v, errs) + Entries(w, errs)
  {
  }

  lemma Around(a: seq<string>, b: seq<string>, c: seq<string>)
    ensures multiset(a + (b + c)) == multiset(b) + multiset(a + c)
  {
  }

  lemma CancelLeft(a: multiset<string>, b: multiset<string>, c: multiset<string>)
    requires a + b == a + c
    ensures b == c
  {
    assert b == (a + b) - a && c == (a + c) - a;
  }

  lemma EntriesMoved(x: string, tail: seq<string>, before: seq<string>, after: seq<string>, errs: map<string, string>)
    requires x in errs && forall url :: url in tail || url in before || url in after ==> url in errs
    requires multiset(Entries(tail, errs)) == multiset(Entries(before + after, errs))
    ensures multiset(Entries([x] + tail, errs)) == multiset(Entries(before + ([x] + after), errs))
  {
    EntriesConcat([x], tail, errs);
    EntriesConcat(before, [x] + after, errs);
    EntriesConcat([x], after, errs);
    EntriesConcat(before, after, errs);
    Around(Entries(before, errs), Entries([x], errs), Entries(after, errs));
  }

  /** Mapping a permuted list gives permuted entries. */
  lemma {:induction false} EntriesPermute(v: seq<string>, w: seq<string>, errs: map<string, string>)
    requires multiset(v) == multiset(w)
    requires forall url :: url in v || url in w ==> url in errs
    ensures multiset(Entries(v, errs)) == multiset(Entries(w, errs))
    decreases |v|
  {
    if v == [] {
      assert |w| == |multiset(w)| == 0;
    } else {
      var x, tail := v[0], v[1..];
      assert v == [x] + tail;
      assert x in multiset(v);
      assert x in multiset(w);
      var k :| 0 <= k < |w| && w[k] == x;
      var before, after := w[..k], w[k + 1..];
      assert w == before + ([x] + after);
      Around(before, [x], after);
      CancelLeft(multiset([x]), multiset(tail), multiset(before + after));
      EntriesPermute(tail, before + after, errs);
      EntriesMoved(x, tail, before, after, errs);
    }
  }

  /** Whatever order the map is walked in, the message has the same entries up to permutation: one for each distinct
      url. */
  lemma MessageIndependentOfWalk(v: seq<string>, w: seq<string>, errs: map<string, string>)
    requires WalkOf(v, errs.Keys) && WalkOf(w, errs.Keys)
    ensures |v| == |errs.Keys| && multiset(Entries(v, errs)) == multiset(Entries(w, errs))
  {
    OnceEach(v, errs.Keys);
    assert |v| == |multiset(v)| == |multiset(errs.Keys)|;
    WalkPermutes(v, w, errs.Keys);
    EntriesPermute(v, w, errs);
  }

  // ---------------------------------------------------------------- what the message tells

  /** What the message of `visited` looks like between its quotes. */
  function Pieces(visited: seq<string>, errs: map<string, string>): (pieces: seq<string>)
    requires forall url :: url in visited ==> url in errs
    ensures |pieces| == 4 * |visited| + 1
  {
    if visited == [] then ["cannot connect to any nodes"]
    else
      var n := |visited| - 1;
      var before := Pieces(visited[..n], errs);
      before[..4 * n] + [before[4 * n] + " url=", visited[n], " err=", errs[visited[n]], ""]
  }

  lemma {:induction false} PiecesAt(visited: seq<string>, errs: map<string, string>, k: nat)
    requires k < |visited| && forall url :: url in visited ==> url in errs
    ensures Pieces(visited, errs)[4 * k + 1] == visited[k] && Pieces(visited, errs)[4 * k + 3] == errs[visited[k]]
  {
    var n := |visited| - 1;
    if k < n {
      PiecesAt(visited[..n], errs, k);
    }
  }

  lemma {:induction false} PiecesFreeIff(visited: seq<string>, errs: map<string, string>)
    requires forall url :: url in visited ==> url in errs
    ensures Free(Pieces(visited, errs), '\'') <==>
            forall k :: 0 <= k < |visited| ==> '\'' !in visited[k] && '\'' !in errs[visited[k]]
  {
    if Free(Pieces(visited, errs), '\'') {
      forall k | 0 <= k < |visited|
        ensures '\'' !in visited[k] && '\'' !in errs[visited[k]]
      {
        PiecesAt(visited, errs, k);
      }
    } else {
      PiecesFree(visited, errs);
    }
  }

  lemma {:induction false} PiecesFree(visited: seq<string>, errs: map<string, string>)
    requires forall url :: url in visited ==> url in errs
    ensures (forall k :: 0 <= k < |visited| ==> '\'' !in visited[k] && '\'' !in errs[visited[k]])
        ==> Free(Pieces(visited, errs), '\'')
  {
    if visited != [] {
      var n := |visited| - 1;
      PiecesFree(visited[..n], errs);
      assert '\'' !in " url=" && '\'' !in " err=";
      assert forall k :: 0 <= k < n ==> visited[..n][k] == visited[k];
    }
  }

  lemma {:induction false} JoinedEntry(before: seq<string>, url: string, err: string)
    requires before != []
    ensures Join(before[..|before| - 1] + [before[|before| - 1] + " url=", url, " err=", err, ""], '\'')
         == Join(before, '\'') + Entry(url, err)
  {
    var a := before[..|before| - 1] + [before[|before| - 1] + " url="];
    AppendToLast(before, " url=", '\'');
    AppendFour(a, url, " err=", err, "", '\'');
    assert a + [url, " err=", err, ""]
        == before[..|before| - 1] + [before[|before| - 1] + " url=", url, " err=", err, ""];
    EntryIs(Join(before, '\''), url, err);
  }

  lemma EntryIs(s: string, url: string, err: string)
    ensures s + " url=" + ['\''] + url + ['\''] + " err=" + ['\''] + err + ['\''] + "" == s + Entry(url, err)
  {
    assert " url=" + ['\''] == " url='" && ['\''] + " err=" + ['\''] == "' err='" && ['\''] == "'";
  }

  lemma {:induction false} PiecesJoined(visited: seq<string>, errs: map<string, string>)
    requires forall url :: url in visited ==> url in errs
    ensures Join(Pieces(visited, errs), '\'') == Message(Entries(visited, errs))
  {
    if visited != [] {
      var n := |visited| - 1;
      PiecesJoined(visited[..n], errs);
      JoinedEntry(Pieces(visited[..n], errs), visited[n], errs[visited[n]]);
      assert Entries(visited, errs)[..n] == Entries(visited[..n], errs);
    }
  }

  /** The urls and errors a reader finds between the quotes of a message. */
  function Listed(message: string): (pairs: seq<(string, string)>) {
    var parts := Split(message, '\'');
    seq((|parts| - 1) / 4, k requires 0 <= k < (|parts| - 1) / 4 => (parts[4 * k + 1], parts[4 * k + 3]))
  }

  lemma ListedHasNoQuotes(message: string, k: nat)
    requires k < |Listed(message)|
    ensures '\'' !in Listed(message)[k].0 && '\'' !in Listed(message)[k].1
  {
    SplitThenJoin(message, '\'');
  }

  /** Without quotes in them, the urls and errors are read back as they were visited. */
  lemma ReadBack(visited: seq<string>, errs: map<string, string>)
    requires forall url :: url in visited ==> url in errs
    requires forall k :: 0 <= k < |visited| ==> '\'' !in visited[k] && '\'' !in errs[visited[k]]
    ensures var pairs := Listed(Message(Entries(visited, errs)));
            |pairs| == |visited| && forall k :: 0 <= k < |pairs| ==> pairs[k] == (visited[k], errs[visited[k]])
  {
    PiecesFreeIff(visited, errs);
    PiecesJoined(visited, errs);
    JoinThenSplit(Pieces(visited, errs), '\'');
    forall k | 0 <= k < |visited|
      ensures Pieces(visited, errs)[4 * k + 1] == visited[k] && Pieces(visited, errs)[4 * k + 3] == errs[visited[k]]
    {
      PiecesAt(visited, errs, k);
    }
  }

  /** The last time `url` was dialled and failed, it failed with `err`. */
  ghost predicate FailedWith(urls: seq<string>, dial: Dial, url: string, err: string) {
    exists i :: 0 <= i < |urls| && LastFailure(urls, dial, |urls|, i, url) && err == dial(i, url).err.value
  }

  lemma ErrorsAre(errs: map<string, string>, urls: seq<string>, dial: Dial, url: string, err: string)
    requires LastErrors(errs, urls, dial, |urls|)
    ensures FailedWith(urls, dial, url, err) <==> url in errs && errs[url] == err
  {
    if FailedWith(urls, dial, url, err) {
      var i :| 0 <= i < |urls| && LastFailure(urls, dial, |urls|, i, url) && err == dial(i, url).err.value;
      var j :| 0 <= j < |urls| && LastFailure(urls, dial, |urls|, j, url) && errs[url] == dial(j, url).err.value;
      assert i == j;
    }
  }

  ghost predicate Mentions(message: string, url: string, err: string) {
    exists a, b :: message == a + " url='" + url + "' err='" + err + "'" + b
  }

  lemma EntryMentions(message: string, url: string, err: string)
    ensures Mentions(message + Entry(url, err), url, err)
  {
    assert message + Entry(url, err) == message + " url='" + url + "' err='" + err + "'" + "";
  }

  lemma MentionsMore(message: string, more: string, url: string, err: string)
    requires Mentions(message, url, err)
    ensures Mentions(message + more, url, err)
  {
    var a, b :| message == a + " url='" + url + "' err='" + err + "'" + b;
    assert message + more == a + " url='" + url + "' err='" + err + "'" + (b + more);
  }

  lemma {:induction false} MessageMentions(visited: seq<string>, errs: map<string, string>, k: nat)
    requires k < |visited| && forall url :: url in visited ==> url in errs
    ensures Mentions(Message(Entries(visited, errs)), visited[k], errs[visited[k]])
  {
    var n := |visited| - 1;
    var url, err := visited[k], errs[visited[k]];
    var shorter := Message(Entries(visited[..n], errs));
    assert Entries(visited, errs)[..n] == Entries(visited[..n], errs);
    if k == n {
      EntryMentions(shorter, url, err);
    } else {
      MessageMentions(visited[..n], errs, k);
      MentionsMore(shorter, Entry(visited[n], errs[visited[n]]), url, err);
    }
  }

  lemma {:induction false} MessageBegins(entries: seq<string>)
    ensures "cannot connect to any nodes" <= Message(entries)
  {
    if entries != [] {
      MessageBegins(entries[..|entries| - 1]);
    }
  }

  /** A reader finds each url that failed once, with its last error, and nothing else. */
  ghost predicate ListsFailures(message: string, urls: seq<string>, dial: Dial) {
    var pairs := Listed(message);
    && (forall url, err :: (url, err) in pairs <==> FailedWith(urls, dial, url, err))
    && forall k, l :: 0 <= k < l < |pairs| ==> pairs[k].0 != pairs[l].0
  }

  ghost predicate QuoteFree(urls: seq<string>, dial: Dial) {
    forall url, err :: FailedWith(urls, dial, url, err) ==> '\'' !in url && '\'' !in err
  }

  /** What the message says of the urls that failed; it can be read back exactly when none of them and none of their
      errors holds a quote. */
  ghost predicate TellsFailures(message: string, urls: seq<string>, dial: Dial) {
    && "cannot connect to any nodes" <= message
    && (forall url, err :: FailedWith(urls, dial, url, err) ==> Mentions(message, url, err))
    && (ListsFailures(message, urls, dial) <==> QuoteFree(urls, dial))
  }

  lemma ListedIs(visited: seq<string>, errs: map<string, string>, url: string, err: string)
    requires WalkOf(visited, errs.Keys)
    requires forall k :: 0 <= k < |visited| ==> '\'' !in visited[k] && '\'' !in errs[visited[k]]
    ensures (url, err) in Listed(Message(Entries(visited, errs))) <==> url in errs && errs[url] == err
  {
    var pairs := Listed(Message(Entries(visited, errs)));
    ReadBack(visited, errs);
    if url in errs && errs[url] == err {
      var k :| 0 <= k < |visited| && visited[k] == url;
      assert pairs[k] == (url, err);
    }
  }

  lemma {:induction false} QuoteFreeLists(visited: seq<string>, errs: map<string, string>, urls: seq<string>,
                                          dial: Dial)
    requires LastErrors(errs, urls, dial, |urls|) && WalkOf(visited, errs.Keys) && QuoteFree(urls, dial)
    ensures ListsFailures(Message(Entries(visited, errs)), urls, dial)
  {
    forall k | 0 <= k < |visited|
      ensures '\'' !in visited[k] && '\'' !in errs[visited[k]]
    {
      ErrorsAre(errs, urls, dial, visited[k], errs[visited[k]]);
    }
    forall url, err
      ensures (url, err) in Listed(Message(Entries(visited, errs))) <==> FailedWith(urls, dial, url, err)
    {
      ErrorsAre(errs, urls, dial, url, err);
      ListedIs(visited, errs, url, err);
    }
    ReadBack(visited, errs);
  }

  lemma {:induction false} ListsMeansQuoteFree(message: string, urls: seq<string>, dial: Dial)
    requires ListsFailures(message, urls, dial)
    ensures QuoteFree(urls, dial)
  {
    forall url, err | FailedWith(urls, dial, url, err)
      ensures '\'' !in url && '\'' !in err
    {
      assert (url, err) in Listed(message);
      var k :| 0 <= k < |Listed(message)| && Listed(message)[k] == (url, err);
      ListedHasNoQuotes(message, k);
    }
  }

  lemma MessageTells(visited: seq<string>, errs: map<string, string>, urls: seq<string>, dial: Dial)
    requires LastErrors(errs, urls, dial, |urls|) && WalkOf(visited, errs.Keys)
    ensures TellsFailures(Message(Entries(visited, errs)), urls, dial)
  {
    MessageBegins(Entries(visited, errs));
    if QuoteFree(urls, dial) {
      QuoteFreeLists(visited, errs, urls, dial);
    }
    if ListsFailures(Message(Entries(visited, errs)), urls, dial) {
      ListsMeansQuoteFree(Message(Entries(visited, errs)), urls, dial);
    }
    forall url, err | FailedWith(urls, dial, url, err)
      ensures Mentions(Message(Entries(visited, errs)), url, err)
    {
      ErrorsAre(errs, urls, dial, url, err);
      assert url in visited;
      var k :| 0 <= k < |visited| && visited[k] == url;
      MessageMentions(visited, errs, k);
    }
  }

  // ---------------------------------------------------------------- the constructor

  /** The client or an error: a client exactly when some url connects. On failure the message tells which urls failed
      and how; `errs` and `visited` say which errors it lists and in which order. */
  method NewMultiNodeClient(possibleUrls: string, dial: Dial)
    returns (client: MultiNodeClient?, error: Option<string>,
             ghost errs: map<string, string>, ghost visited: seq<string>)
    ensures client != null <==> SomeConnects(Split(possibleUrls, ','), dial)
    ensures client == null <==> error != None
    ensures client != null ==>
              && client.Valid() && fresh(client) && fresh(client.nodes)
              && BuiltFrom(client.nodes[..], Split(possibleUrls, ','), dial, |Split(possibleUrls, ',')|)
    ensures var urls := Split(possibleUrls, ',');
            error != None ==>
              && LastErrors(errs, urls, dial, |urls|)
              && WalkOf(visited, errs.Keys)
              && error.value == Message(Entries(visited, errs))
              && TellsFailures(error.value, urls, dial)
  {
    var urls := Split(possibleUrls, ',');
    var nodes: seq<Item> := [];
    var errors: map<string, string> := map[];
    visited := [];
    for i := 0 to |urls|
      invariant BuiltFrom(nodes, urls, dial, i)
      invariant LastErrors(errors, urls, dial, i)
    {
      var url := urls[i];
      var n := dial(i, url);
      if n.err != None {
        LastErrorsGrow(errors, urls, dial, i);
        BuiltKept(nodes, urls, dial, i);
        errors := errors[url := n.err.value];
        continue;
      }
      LastErrorsKept(errors, urls, dial, i);
      BuiltGrows(nodes, urls, dial, i);
      nodes := nodes + [Item(Decimal(|nodes|), n.value)];
    }
    errs := errors;
    if |nodes| == 0 {
      var message: string;
      message, visited := AllFailed(errors);
      BuiltEmptyIff(nodes, urls, dial);
      MessageTells(visited, errs, urls, dial);
      return null, Some(message), errs, visited;
    }
    BuiltIdsDistinct(nodes, urls, dial, |urls|);
    client := new MultiNodeClient(nodes);
    error := None;
    BuiltEmptyIff(nodes, urls, dial);
  }

  lemma LastErrorsGrow(errs: map<string, string>, urls: seq<string>, dial: Dial, i: nat)
    requires i < |urls| && LastErrors(errs, urls, dial, i) && !dial(i, urls[i]).Ok()
    ensures LastErrors(errs[urls[i] := dial(i, urls[i]).err.value], urls, dial, i + 1)
  {
    var grown := errs[urls[i] := dial(i, urls[i]).err.value];
    forall url | url in grown
      ensures exists j :: 0 <= j < i + 1 && LastFailure(urls, dial, i + 1, j, url)
                          && grown[url] == dial(j, url).err.value
    {
      if url == urls[i] {
        assert LastFailure(urls, dial, i + 1, i, url);
      } else {
        var j :| 0 <= j < i && LastFailure(urls, dial, i, j, url) && errs[url] == dial(j, url).err.value;
        assert LastFailure(urls, dial, i + 1, j, url);
      }
    }
  }

  lemma LastErrorsKept(errs: map<string, string>, urls: seq<string>, dial: Dial, i: nat)
    requires i < |urls| && LastErrors(errs, urls, dial, i) && dial(i, urls[i]).Ok()
    ensures LastErrors(errs, urls, dial, i + 1)
  {
    forall url | url in errs
      ensures exists j :: 0 <= j < i + 1 && LastFailure(urls, dial, i + 1, j, url)
                          && errs[url] == dial(j, url).err.value
    {
      var j :| 0 <= j < i && LastFailure(urls, dial, i, j, url) && errs[url] == dial(j, url).err.value;
      assert LastFailure(urls, dial, i + 1, j, url);
    }
  }

  /** The all-failed message, walking the map in an order the language leaves open. */
  method AllFailed(errs: map<string, string>) returns (message: string, ghost visited: seq<string>)
    ensures WalkOf(visited, errs.Keys)
    ensures message == Message(Entries(visited, errs))
  {
    message := "cannot connect to any nodes";
    visited := [];
    var left := errs.Keys;
    while left != {}
      invariant left <= errs.Keys
      invariant WalkOf(visited, errs.Keys - left)
      invariant message == Message(Entries(visited, errs))
      decreases |left|
    {
      var url :| url in left;
      ghost var longer := visited + [url];
      assert Entries(longer, errs)[..|visited|] == Entries(visited, errs);
      message := message + " url='" + url + "' err='" + errs[url] + "'";
      assert message == Message(Entries(visited, errs)) + Entry(url, errs[url]);
      visited := longer;
      left := left - {url};
    }
  }

  // ---------------------------------------------------------------- from construction to every run

  /** A constructed client and calls that have not begun are a start state of the concurrent model. */
  lemma ConstructedClientStarts<R>(client: MultiNodeClient, calls: seq<Call<R>>)
    requires client.Valid() && forall c :: 0 <= c < |calls| ==> Fresh(calls[c])
    ensures Init(State(client.nodes[..], calls))
  {
  }

  /** Whatever the calls do, the list stays a permutation of the nodes that connected, as they were numbered. */
  lemma AlwaysTheConnectedNodes<R>(items: seq<Item>, urls: seq<string>, dial: Dial, calls: seq<Call<R>>,
                                   es: seq<Event<R>>)
    requires BuiltFrom(items, urls, dial, |urls|) && SomeConnects(urls, dial)
    requires (forall c :: 0 <= c < |calls| ==> Fresh(calls[c])) && Valid(State(items, calls), es)
    ensures multiset(Exec(State(items, calls), es).order) == multiset(items)
    ensures Inv(Exec(State(items, calls), es))
  {
    BuiltIdsDistinct(items, urls, dial, |urls|);
    BuiltEmptyIff(items, urls, dial);
    RunInv(State(items, calls), es);
  }
}
