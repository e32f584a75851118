/** Catching up with the end of a chain: asks for the blocks between the right edge and the end one by one. */
module CatchUp {
  import opened Prelude
  import opened Registry

  /** Number of the right block, one below the end when there is none: the loop then fetches the end alone. */
  function Edge(b: Option<Bounds>, end: int): int {
    if b.Some? && b.value.right.Some? then b.value.right.value.seqno else end - 1
  }

  /** The headers a server answers with, by number; any other request fails. */
  predicate Serves(served: map<int, BlockHeader>, key: ShardKey) {
    forall n :: n in served ==> KeyOf(served[n]) == key && served[n].seqno == n
  }

  datatype Round = Met | Failed | Fetched(seqno: int)

  /** One round of the loop: what is asked for, and whether it arrives. */
  function RoundOf(v: View, key: ShardKey, served: map<int, BlockHeader>): Round {
    if key !in v || RightNext(v[key]).None? then Met
    else if RightNext(v[key]).value !in served then Failed
    else Fetched(RightNext(v[key]).value)
  }

  function AfterRound(v: View, key: ShardKey, served: map<int, BlockHeader>): View {
    var r := RoundOf(v, key, served);
    if r.Fetched? then Step(v, Right(served[r.seqno])) else v
  }

  /** The view after the end was announced and `n` rounds have run. */
  function Caught(v: View, key: ShardKey, end: int, served: map<int, BlockHeader>, n: nat): View {
    if n == 0 then Step(v, RightEnd(key, end)) else AfterRound(Caught(v, key, end, served, n - 1), key, served)
  }

  /** Whether the first `n` blocks past the edge exist and are served. */
  predicate Reaches(edge: int, end: int, served: map<int, BlockHeader>, n: nat) {
    (n > 0 ==> edge + n <= end) && forall i :: edge < i <= edge + n ==> i in served
  }

  /**
    * After `n` successful rounds the edge has moved over exactly the `n` blocks behind it, nothing else has
    * changed, and the next round is the one for the following block, unless the end is met.
    */
  lemma {:induction false} CaughtMoves(v: View, key: ShardKey, end: int, served: map<int, BlockHeader>, n: nat)
    requires Serves(served, key) && Reaches(Edge(Entry(v, key), end), end, served, n)
    ensures var edge, w := Edge(Entry(v, key), end), Caught(v, key, end, served, n);
            && key in w && w == v[key := w[key]] && w[key].end == Some(end)
            && w[key].left == (if key in v then v[key].left else None)
            && w[key].right == (if n > 0 then Some(served[edge + n]) else if key in v then v[key].right else None)
            && RoundOf(w, key, served) ==
                 if edge + n >= end then Met else if edge + n + 1 in served then Fetched(edge + n + 1) else Failed
  {
    if n > 0 {
      CaughtMoves(v, key, end, served, n - 1);
    }
  }

  /** What a round's outcome says about the blocks served. */
  lemma {:induction false} RoundMeans(v: View, key: ShardKey, end: int, served: map<int, BlockHeader>, n: nat)
    requires Serves(served, key) && Reaches(Edge(Entry(v, key), end), end, served, n)
    ensures Ended(Edge(Entry(v, key), end), end, served, n, RoundOf(Caught(v, key, end, served, n), key, served))
  {
    CaughtMoves(v, key, end, served, n);
  }

  predicate Ended(edge: int, end: int, served: map<int, BlockHeader>, n: nat, r: Round) {
    match r
    case Met => edge + n >= end
    case Failed => edge + n < end && edge + n + 1 !in served
    case Fetched(_) => edge + n < end && Reaches(edge, end, served, n + 1)
  }

  method RunRound(reg: Registry, key: ShardKey, served: map<int, BlockHeader>) returns (r: Round)
    requires reg.Valid() && Serves(served, key)
    modifies reg, reg.bounds.Values
    ensures reg.Valid() && fresh(reg.bounds.Values - old(reg.bounds.Values))
    ensures r == RoundOf(old(reg.Contents()), key, served)
    ensures reg.Contents() == AfterRound(old(reg.Contents()), key, served)
  {
    var next := reg.GetRightNext(key);
    if next.None? {
      return Met;
    }
    if next.value !in served {
      return Failed;
    }
    reg.Apply(Right(served[next.value]));
    return Fetched(next.value);
  }

  /** Every block from the right edge to the end is fetched once, in order; a failure stops at the last one fetched. */
  method Advance(reg: Registry, key: ShardKey, end: int, served: map<int, BlockHeader>) returns (ok: bool, n: nat)
    requires reg.Valid() && Serves(served, key)
    modifies reg, reg.bounds.Values
    ensures reg.Valid() && fresh(reg.bounds.Values - old(reg.bounds.Values))
    ensures reg.Contents() == Caught(old(reg.Contents()), key, end, served, n)
    ensures var edge := Edge(Entry(old(reg.Contents()), key), end);
            Reaches(edge, end, served, n) && Ended(edge, end, served, n, if ok then Met else Failed)
  {
    hide Serves, RoundOf, Edge, Step;
    ghost var v := reg.Contents();
    ghost var edge := Edge(Entry(v, key), end);
    reg.Apply(RightEnd(key, end));
    n := 0;
    while true
      invariant reg.Valid() && fresh(reg.bounds.Values - old(reg.bounds.Values))
      invariant reg.Contents() == Caught(v, key, end, served, n)
      invariant Reaches(edge, end, served, n)
      decreases end - edge - n
    {
      RoundMeans(v, key, end, served, n);
      var r := RunRound(reg, key, served);
      if !r.Fetched? {
        return r.Met?, n;
      }
      n := n + 1;
    }
  }
}
