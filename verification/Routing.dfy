/** Choosing the services a request may go to. */
module Routing {
  import opened Prelude

  datatype Chosen<+S> = Services(s: seq<S>) | NotAvailable | Unknown

  /** How many times `x` occurs, if it qualifies. */
  ghost function CountIf<S>(from: seq<S>, x: S, qualifies: bool): nat {
    if qualifies then multiset(from)[x] else 0
  }

  // ----------------------------------------------------------- Route::Block

  function Filter<S>(from: seq<S>, p: S -> bool): seq<S> {
    if from == [] then []
    else
      var x := from[|from| - 1];
      Filter(from[..|from| - 1], p) + if p(x) then [x] else []
  }

  lemma {:induction false} FilterExact<S>(from: seq<S>, p: S -> bool, x: S)
    ensures multiset(Filter(from, p))[x] == CountIf(from, x, p(x))
  {
    if from != [] {
      FilterExact(from[..|from| - 1], p, x);
      assert from == from[..|from| - 1] + [from[|from| - 1]];
    }
  }

  method ChooseBlock<S>(from: seq<S>, available: S -> bool, unavailable: S -> bool) returns (r: Chosen<S>)
    ensures r == BlockChoice(from, available, unavailable)
  {
    var known, clients := false, [];
    for i := 0 to |from|
      invariant clients == Filter(from[..i], available)
      invariant known <==> exists j :: 0 <= j < i && !available(from[j]) && unavailable(from[j])
    {
      assert from[..i + 1][..i] == from[..i];
      if available(from[i]) {
        clients := clients + [from[i]];
      } else if unavailable(from[i]) {
        known := true;
      }
    }
    assert from[..|from|] == from;
    if clients != [] {
      return Services(clients);
    }
    if known {
      return NotAvailable;
    }
    return Unknown;
  }

  function BlockChoice<S>(from: seq<S>, available: S -> bool, unavailable: S -> bool): Chosen<S> {
    var clients := Filter(from, available);
    if clients != [] then Services(clients)
    else if exists j :: 0 <= j < |from| && !available(from[j]) && unavailable(from[j]) then NotAvailable
    else Unknown
  }

  /** The covering services are chosen; the route is not available exactly when none covers but some knows. */
  lemma {:induction false} BlockChoiceExact<S(!new)>(from: seq<S>, available: S -> bool, unavailable: S -> bool)
    ensures var r := BlockChoice(from, available, unavailable);
            && (r.Services? <==> exists s :: s in from && available(s))
            && (r.NotAvailable? <==>
                 (forall s :: s in from ==> !available(s)) && exists s :: s in from && unavailable(s))
            && (r.Services? ==> forall s :: multiset(r.s)[s] == CountIf(from, s, available(s)))
  {
    var clients := Filter(from, available);
    forall s ensures multiset(clients)[s] == CountIf(from, s, available(s)) {
      FilterExact(from, available, s);
    }
    if s :| s in from && available(s) {
      assert s in multiset(from) && s in multiset(clients);
    }
    if clients != [] {
      var s := clients[0];
      assert s in multiset(clients);
      assert s in multiset(from);
    }
    assert forall j :: 0 <= j < |from| ==> from[j] in from;
  }

  // ---------------------------------------------------------- Route::Latest

  function WithSeqno<S>(from: seq<S>, last: S -> Option<int>): seq<(S, int)> {
    if from == [] then []
    else
      var x := from[|from| - 1];
      WithSeqno(from[..|from| - 1], last) + if last(x).Some? then [(x, last(x).value)] else []
  }

  lemma {:induction false} PairCount<S>(from: seq<S>, last: S -> Option<int>, x: S, n: int)
    ensures multiset(WithSeqno(from, last))[(x, n)] == CountIf(from, x, last(x) == Some(n))
  {
    if from != [] {
      PairCount(from[..|from| - 1], last, x, n);
      assert from == from[..|from| - 1] + [from[|from| - 1]];
    }
  }

  /** The sort leaves equal keys in any order: any arrangement with falling numbers is possible. */
  ghost predicate SortedFrom<S>(order: seq<(S, int)>, pairs: seq<(S, int)>) {
    multiset(order) == multiset(pairs) && forall i, j :: 0 <= i < j < |order| ==> order[i].1 >= order[j].1
  }

  /** The first group of equal numbers. */
  method FirstGroup<S>(order: seq<(S, int)>) returns (r: Chosen<S>)
    ensures r == GroupChoice(order)
  {
    if order == [] {
      return Unknown;
    }
    var k := 1;
    while k < |order| && order[k].1 == order[0].1
      invariant 1 <= k <= |order|
      invariant Leading(order, k) == Leading(order, 1)
    {
      k := k + 1;
    }
    return Services(Firsts(order[..k]));
  }

  function Leading<S>(order: seq<(S, int)>, k: nat): (n: nat)
    requires 1 <= k <= |order|
    ensures k <= n <= |order|
    ensures forall i :: k <= i < n ==> order[i].1 == order[0].1
    ensures n < |order| ==> order[n].1 != order[0].1
    decreases |order| - k
  {
    if k < |order| && order[k].1 == order[0].1 then Leading(order, k + 1) else k
  }

  function Firsts<S>(pairs: seq<(S, int)>): seq<S> {
    if pairs == [] then [] else Firsts(pairs[..|pairs| - 1]) + [pairs[|pairs| - 1].0]
  }

  function GroupChoice<S>(order: seq<(S, int)>): Chosen<S> {
    if order == [] then Unknown else Services(Firsts(order[..Leading(order, 1)]))
  }

  lemma {:induction false} FirstsCount<S>(pairs: seq<(S, int)>, m: int, x: S)
    requires forall i :: 0 <= i < |pairs| ==> pairs[i].1 == m
    ensures multiset(Firsts(pairs))[x] == multiset(pairs)[(x, m)]
  {
    if pairs != [] {
      FirstsCount(pairs[..|pairs| - 1], m, x);
      assert pairs == pairs[..|pairs| - 1] + [pairs[|pairs| - 1]];
    }
  }

  /** The leading group holds every pair with the greatest number. */
  lemma {:induction false} GroupCount<S>(order: seq<(S, int)>, x: S)
    requires order != [] && forall i, j :: 0 <= i < j < |order| ==> order[i].1 >= order[j].1
    ensures multiset(GroupChoice(order).s)[x] == multiset(order)[(x, order[0].1)]
  {
    var n := Leading(order, 1);
    FirstsCount(order[..n], order[0].1, x);
    assert order == order[..n] + order[n..];
    assert forall i :: n < i < |order| ==> order[i].1 <= order[n].1;
    assert (x, order[0].1) !in order[n..];
  }

  /**
    * For every outcome of the sort, the services at the greatest last block are chosen, each as often as it is
    * offered; nothing is chosen exactly when no service has a last block.
    */
  lemma {:induction false} LatestExact<S(!new)>(from: seq<S>, last: S -> Option<int>, order: seq<(S, int)>)
    requires SortedFrom(order, WithSeqno(from, last))
    ensures GroupChoice(order).Unknown? <==> forall s :: s in from ==> last(s).None?
    ensures order != [] ==> exists s :: s in from && last(s) == Some(order[0].1)
    ensures order != [] ==> forall s :: s in from && last(s).Some? ==> last(s).value <= order[0].1
    ensures order != [] ==>
              forall s :: multiset(GroupChoice(order).s)[s] == CountIf(from, s, last(s) == Some(order[0].1))
  {
    forall s | s in from && last(s).Some? ensures order != [] && last(s).value <= order[0].1 {
      PairCount(from, last, s, last(s).value);
      assert s in multiset(from);
      assert (s, last(s).value) in multiset(order);
    }
    if order != [] {
      PairCount(from, last, order[0].0, order[0].1);
      assert order[0] in multiset(order);
      assert order[0].0 in multiset(from);
      forall s ensures multiset(GroupChoice(order).s)[s] == CountIf(from, s, last(s) == Some(order[0].1)) {
        GroupCount(order, s);
        PairCount(from, last, s, order[0].1);
      }
    }
  }

  // ------------------------------------------------------------ Router::call

  /** An unknown route falls back to the latest services; one that is not available yet is an error. */
  function Call<S>(block: Chosen<S>, latest: Chosen<S>): Chosen<S> {
    if block.Unknown? then latest else block
  }

  /** A request on a block is refused as not available exactly when no service covers the block but some knows it. */
  lemma {:induction false} CallRefuses<S(!new)>(from: seq<S>, available: S -> bool, unavailable: S -> bool,
                                                last: S -> Option<int>,
                                                order: seq<(S, int)>)
    requires SortedFrom(order, WithSeqno(from, last))
    ensures var r := Call(BlockChoice(from, available, unavailable), GroupChoice(order));
            && (r.NotAvailable? <==>
                 (forall s :: s in from ==> !available(s)) && exists s :: s in from && unavailable(s))
            && (r.Unknown? <==> forall s :: s in from ==> !available(s) && !unavailable(s) && last(s).None?)
  {
    BlockChoiceExact(from, available, unavailable);
    LatestExact(from, last, order);
  }
}
