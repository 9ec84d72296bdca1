/** The ordered node list of the multi-node client, and what one promotion does to it.
    Prefix quantities are indexed by a length `p` instead of slicing the list. */
module Order {

  /** A connection to one Ethereum node, known only by its handle. */
  datatype Client = Client(handle: nat)

  /** One entry of the list: the id given at construction and the connection. */
  datatype Item = Item(id: string, client: Client)

  ghost predicate DistinctIds(order: seq<Item>) {
    forall i, j :: 0 <= i < j < |order| ==> order[i].id != order[j].id
  }

  /** The element at `p` trades places with the one just before it. */
  function SwapUp<T>(s: seq<T>, p: nat): (r: seq<T>)
    requires 0 < p < |s|
  {
    s[p - 1 := s[p]][p := s[p - 1]]
  }

  /** The list after `increaseNodePriority(position, id)`. */
  function Promote(order: seq<Item>, position: nat, id: string): seq<Item>
    requires position < |order|
  {
    if position == 0 || order[position].id != id then order else SwapUp(order, position)
  }

  lemma SwapUpPermutes<T>(s: seq<T>, p: nat)
    requires 0 < p < |s|
    ensures multiset(SwapUp(s, p)) == multiset(s)
  {
    var t := s[p - 1 := s[p]];
    assert multiset(t) == multiset(s) - multiset{s[p - 1]} + multiset{s[p]};
    assert multiset(SwapUp(s, p)) == multiset(t) - multiset{t[p]} + multiset{s[p - 1]};
  }

  lemma SwapUpSlices<T>(s: seq<T>, p: nat)
    requires 0 < p < |s|
    ensures SwapUp(s, p) == s[..p - 1] + [s[p], s[p - 1]] + s[p + 1..]
  {
  }

  lemma PromotePermutes(order: seq<Item>, position: nat, id: string)
    requires position < |order| && DistinctIds(order)
    ensures multiset(Promote(order, position, id)) == multiset(order)
    ensures DistinctIds(Promote(order, position, id))
  {
    if position != 0 && order[position].id == id {
      SwapUpPermutes(order, position);
    }
  }

  /** How many of the first `p` items are in `good`. */
  function CountTo(s: seq<Item>, p: nat, good: set<Item>): (k: nat)
    requires p <= |s|
    ensures k <= p
  {
    if p == 0 then 0 else CountTo(s, p - 1, good) + (if s[p - 1] in good then 1 else 0)
  }

  /** How many pairs of the first `p` items have the earlier one outside `good` and the later one inside. */
  function Inversions(s: seq<Item>, p: nat, good: set<Item>): nat
    requires p <= |s|
  {
    if p == 0 then 0
    else Inversions(s, p - 1, good) + (if s[p - 1] in good then p - 1 - CountTo(s, p - 1, good) else 0)
  }

  /** The items outside `good` among the first `p`, in list order. */
  function OutsideTo(s: seq<Item>, p: nat, good: set<Item>): seq<Item>
    requires p <= |s|
  {
    if p == 0 then []
    else OutsideTo(s, p - 1, good) + (if s[p - 1] in good then [] else [s[p - 1]])
  }

  /** A swap at `q` changes the count of exactly one prefix: the one that ends between the two items. */
  lemma {:induction false} CountAfterSwap(s: seq<Item>, q: nat, p: nat, good: set<Item>)
    requires 0 < q < |s| && p <= |s|
    ensures p != q ==> CountTo(SwapUp(s, q), p, good) == CountTo(s, p, good)
    ensures p == q ==> CountTo(SwapUp(s, q), p, good) == CountTo(s, q - 1, good) + (if s[q] in good then 1 else 0)
  {
    if p == 0 {
    } else if p == q + 1 {
      CountAfterSwap(s, q, q - 1, good);
      var r := SwapUp(s, q);
      assert CountTo(r, q, good) == CountTo(r, q - 1, good) + (if r[q - 1] in good then 1 else 0);
      assert CountTo(s, q, good) == CountTo(s, q - 1, good) + (if s[q - 1] in good then 1 else 0);
    } else {
      CountAfterSwap(s, q, p - 1, good);
    }
  }

  /** Swapping changes the inversion count by the one pair that was swapped. */
  lemma {:induction false} InversionsAfterSwap(s: seq<Item>, q: nat, p: nat, good: set<Item>)
    requires 0 < q < |s| && p <= |s| && p != q
    ensures var before, after := Inversions(s, p, good), Inversions(SwapUp(s, q), p, good);
            if p < q || (s[q - 1] in good <==> s[q] in good) then after == before
            else if s[q] in good then after == before - 1
            else after == before + 1
  {
    var r := SwapUp(s, q);
    if p == 0 {
    } else if p == q + 1 {
      InversionsAfterSwap(s, q, q - 1, good);
      CountAfterSwap(s, q, q - 1, good);
      var d := q - 1 - CountTo(s, q - 1, good);
      assert Inversions(r, q, good) == Inversions(r, q - 1, good) + (if r[q - 1] in good then d else 0);
      assert Inversions(s, q, good) == Inversions(s, q - 1, good) + (if s[q - 1] in good then d else 0);
      assert CountTo(r, q, good) == CountTo(r, q - 1, good) + (if r[q - 1] in good then 1 else 0);
      assert CountTo(s, q, good) == CountTo(s, q - 1, good) + (if s[q - 1] in good then 1 else 0);
    } else {
      InversionsAfterSwap(s, q, p - 1, good);
      CountAfterSwap(s, q, p - 1, good);
    }
  }

  /** Moving an item of `good` leaves the others in the order they had. */
  lemma {:induction false} OutsideAfterSwap(s: seq<Item>, q: nat, p: nat, good: set<Item>)
    requires 0 < q < |s| && p <= |s| && p != q && s[q] in good
    ensures OutsideTo(SwapUp(s, q), p, good) == OutsideTo(s, p, good)
  {
    if p == 0 {
    } else if p == q + 1 {
      OutsideAfterSwap(s, q, q - 1, good);
      var r := SwapUp(s, q);
      assert OutsideTo(r, q, good) == OutsideTo(r, q - 1, good);
      assert OutsideTo(s, q, good) == OutsideTo(s, p, good);
    } else {
      OutsideAfterSwap(s, q, p - 1, good);
    }
  }

  /** There are at most (outside) * (inside) inverted pairs. */
  lemma {:induction false} InversionsBound(s: seq<Item>, p: nat, good: set<Item>)
    requires p <= |s|
    ensures Inversions(s, p, good) <= (p - CountTo(s, p, good)) * CountTo(s, p, good)
  {
    if p > 0 {
      InversionsBound(s, p - 1, good);
      Products(p - 1 - CountTo(s, p - 1, good), CountTo(s, p - 1, good));
    }
  }

  lemma Products(a: nat, c: nat)
    ensures a * c + a == a * (c + 1)
    ensures a * c <= (a + 1) * c
  {
    assert (a + 1) * c == a * c + c;
  }

  lemma {:induction false} CountMonotone(s: seq<Item>, p: nat, q: nat, good: set<Item>)
    requires p <= q <= |s|
    ensures CountTo(s, p, good) <= CountTo(s, q, good)
  {
    if p < q {
      CountMonotone(s, p, q - 1, good);
    }
  }

  /** `i` is the index of the item of `good` that has exactly `j` others of `good` ahead of it. */
  ghost predicate IsNth(s: seq<Item>, good: set<Item>, j: nat, i: nat) {
    i < |s| && s[i] in good && CountTo(s, i, good) == j
  }

  /** If every prefix of `t` has at least as many good items as that prefix of `s`, the j-th good item of `t`
      is not behind the j-th good item of `s`. */
  lemma NthNotBehind(s: seq<Item>, t: seq<Item>, good: set<Item>, j: nat, i: nat, k: nat)
    requires |s| == |t| && IsNth(s, good, j, i) && IsNth(t, good, j, k)
    requires forall p :: 0 <= p <= |s| ==> CountTo(s, p, good) <= CountTo(t, p, good)
    ensures k <= i
  {
    if i < k {
      assert CountTo(s, i + 1, good) == j + 1;
      CountMonotone(t, i + 1, k, good);
    }
  }

  /** The first item of `good` is at index `k`. */
  ghost predicate FirstGood(order: seq<Item>, good: set<Item>, k: nat) {
    k < |order| && order[k] in good && forall i :: 0 <= i < k ==> order[i] !in good
  }

  lemma {:induction false} FirstGoodWithin(order: seq<Item>, good: set<Item>, p: nat) returns (k: nat)
    requires p <= |order| && CountTo(order, p, good) > 0
    ensures k < p && FirstGood(order, good, k)
  {
    if CountTo(order, p - 1, good) > 0 {
      k := FirstGoodWithin(order, good, p - 1);
    } else {
      k := p - 1;
      NoneBefore(order, good, p - 1);
    }
  }

  lemma {:induction false} NoneBefore(order: seq<Item>, good: set<Item>, p: nat)
    requires p <= |order| && CountTo(order, p, good) == 0
    ensures forall i :: 0 <= i < p ==> order[i] !in good
  {
    if p > 0 {
      NoneBefore(order, good, p - 1);
    }
  }

  lemma IdAtMostOnce(order: seq<Item>, i: nat, j: nat)
    requires DistinctIds(order) && i < |order| && j < |order| && order[i].id == order[j].id
    ensures i == j
  {
  }

  /** An item of a permuted list has a place in the original one. */
  lemma PlaceOf<T>(order: seq<T>, other: seq<T>, x: T) returns (k: nat)
    requires multiset(order) == multiset(other) && x in other
    ensures k < |order| && order[k] == x
  {
    assert x in multiset(other);
    assert x in multiset(order);
    k :| 0 <= k < |order| && order[k] == x;
  }

  lemma SubsetIsSmaller(a: set<nat>, b: set<nat>)
    requires a <= b
    ensures |a| <= |b|
  {
    assert b == a + (b - a);
  }
}
