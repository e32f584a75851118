/** What a client knows of each shard: the block window a server holds, and the newest block it has heard of. */
module Registry {
  import opened Prelude
  import opened Bits
  import opened ShardPrefix

  datatype BlockHeader = BlockHeader(workchain: int, shard: Word, seqno: int, startLt: int, endLt: int)

  type ShardKey = (int, Word)

  function KeyOf(h: BlockHeader): ShardKey {
    (h.workchain, h.shard)
  }

  datatype Criteria = BySeqno(shard: Word, seqno: int) | ByTime(address: Address, lt: int)

  /** The value of a `ShardBounds` object. */
  datatype Bounds = Bounds(left: Option<BlockHeader>, right: Option<BlockHeader>, end: Option<int>)

  function RightNext(b: Bounds): Option<int> {
    if b.end.None? then None
    else if b.right.None? then b.end
    else if b.right.value.seqno < b.end.value then Some(b.right.value.seqno + 1)
    else None
  }

  predicate ContainsSeqno(b: Bounds, seqno: int, notAvailable: bool) {
    && b.left.Some? && b.right.Some?
    && b.left.value.seqno <= seqno
    && seqno <= if notAvailable && b.end.Some? then b.end.value else b.right.value.seqno
  }

  predicate ContainsLt(b: Bounds, lt: int, notAvailable: bool) {
    && b.left.Some? && b.right.Some?
    && b.left.value.startLt <= lt
    && lt <= if notAvailable then b.right.value.endLt + (b.right.value.endLt - b.right.value.startLt)
         else b.right.value.endLt
  }

  // ---------------------------------------------------------------- events

  datatype Event = Left(header: BlockHeader) | Right(header: BlockHeader) | RightEnd(key: ShardKey, seqno: int)

  type View = map<ShardKey, Bounds>

  function Key(e: Event): ShardKey {
    match e
    case Left(h) => KeyOf(h)
    case Right(h) => KeyOf(h)
    case RightEnd(key, _) => key
  }

  /** An entry after an event; `None` is a shard not seen so far. */
  function Upsert(b: Option<Bounds>, e: Event): Bounds {
    match e
    case Left(h) => if b.Some? then b.value.(left := Some(h)) else Bounds(Some(h), None, None)
    case Right(h) => if b.Some? then b.value.(right := Some(h)) else Bounds(None, Some(h), Some(h.seqno))
    case RightEnd(_, seqno) => if b.Some? then b.value.(end := Some(seqno)) else Bounds(None, None, Some(seqno))
  }

  function Entry(v: View, key: ShardKey): Option<Bounds> {
    if key in v then Some(v[key]) else None
  }

  function Step(v: View, e: Event): View {
    v[Key(e) := Upsert(Entry(v, Key(e)), e)]
  }

  function Run(es: seq<Event>): View {
    if es == [] then map[] else Step(Run(es[..|es| - 1]), es[|es| - 1])
  }

  /** The right edge does not pass the end, and the right block does not end before it starts. */
  predicate Within(b: Bounds) {
    b.right.Some? ==> b.end.Some? && b.right.value.seqno <= b.end.value && b.right.value.startLt <= b.right.value.endLt
  }

  /**
    * Ends only grow, and a right header is one the end already covers: a shard's header is fetched
    * after its block was announced as the end.
    */
  predicate Announced(v: View, e: Event) {
    match e
    case Left(_) => true
    case Right(h) =>
      && h.startLt <= h.endLt
      && (KeyOf(h) in v ==> v[KeyOf(h)].end.Some? && h.seqno <= v[KeyOf(h)].end.value)
    case RightEnd(key, seqno) => key in v && v[key].end.Some? ==> v[key].end.value <= seqno
  }

  predicate AllAnnounced(es: seq<Event>) {
    forall i :: 0 <= i < |es| ==> Announced(Run(es[..i]), es[i])
  }

  predicate AllWithin(v: View) {
    forall key :: key in v ==> Within(v[key])
  }

  /** After every run the right edge of no shard is past its known end. */
  lemma {:induction false} EdgeWithinEnd(es: seq<Event>)
    requires AllAnnounced(es)
    ensures AllWithin(Run(es))
  {
    if es != [] {
      var init := es[..|es| - 1];
      assert forall i :: 0 <= i < |init| ==> init[..i] == es[..i];
      EdgeWithinEnd(init);
      assert Announced(Run(init), es[|es| - 1]);
    }
  }

  /** Available blocks are known ones, for every shard entry, exactly when the end is not behind the right edge. */
  lemma {:induction false} AvailableIsKnownIff(b: Bounds)
    requires b.left.Some? && b.right.Some? && b.left.value.seqno <= b.right.value.seqno
    ensures (forall n :: ContainsSeqno(b, n, false) ==> ContainsSeqno(b, n, true))
       <==> (b.end.Some? ==> b.right.value.seqno <= b.end.value)
  {
    assert ContainsSeqno(b, b.right.value.seqno, false);
  }

  // --------------------------------------------------- stepwise right edge

  /** The right headers of one shard, by number. */
  function RightsOf(es: seq<Event>, key: ShardKey): seq<int> {
    if es == [] then []
    else Extended(RightsOf(es[..|es| - 1], key), es[|es| - 1], key)
  }

  /** Ends only grow, and every right header is the one `right_next` asked for. */
  predicate Asked(v: View, e: Event) {
    match e
    case Left(_) => true
    case Right(h) => KeyOf(h) in v && RightNext(v[KeyOf(h)]) == Some(h.seqno)
    case RightEnd(key, seqno) => key in v && v[key].end.Some? ==> v[key].end.value <= seqno
  }

  predicate AllAsked(es: seq<Event>) {
    forall i :: 0 <= i < |es| ==> Asked(Run(es[..i]), es[i])
  }

  predicate Consecutive(s: seq<int>) {
    forall i :: 0 <= i < |s| ==> s[i] == s[0] + i
  }

  /** The edge of an entry is the last of its right headers, and not past the end. */
  predicate AtEdge(rights: seq<int>, b: Option<Bounds>) {
    && Consecutive(rights)
    && (rights != [] <==> b.Some? && b.value.right.Some?)
    && (rights != [] ==> b.value.right.value.seqno == rights[|rights| - 1])
    && (rights != [] ==> b.value.end.Some? && b.value.right.value.seqno <= b.value.end.value)
  }

  function Extended(rights: seq<int>, e: Event, key: ShardKey): seq<int> {
    rights + if e.Right? && KeyOf(e.header) == key then [e.header.seqno] else []
  }

  lemma {:induction false} EdgeStep(rights: seq<int>, v: View, e: Event, key: ShardKey)
    requires AtEdge(rights, Entry(v, key)) && Asked(v, e)
    ensures AtEdge(Extended(rights, e, key), Entry(Step(v, e), key))
  {
    if Key(e) != key || !e.Right? {
      assert Extended(rights, e, key) == rights;
    }
  }

  /** The right edge of every shard moves one block at a time and never passes the end. */
  lemma {:induction false} RightEdgeHasNoGaps(es: seq<Event>, key: ShardKey)
    requires AllAsked(es)
    ensures AtEdge(RightsOf(es, key), Entry(Run(es), key))
  {
    hide AtEdge, Asked, Step;
    if es == [] {
      NothingYet(key);
    } else {
      var init := es[..|es| - 1];
      assert forall i :: 0 <= i < |init| ==> init[..i] == es[..i];
      RightEdgeHasNoGaps(init, key);
      assert Asked(Run(init), es[|es| - 1]);
      EdgeStep(RightsOf(init, key), Run(init), es[|es| - 1], key);
    }
  }

  lemma {:induction false} NothingYet(key: ShardKey)
    ensures AtEdge([], Entry(map[], key))
  {
  }

  // --------------------------------------------------------------- objects

  class ShardBounds {
    var left: Option<BlockHeader>
    var right: Option<BlockHeader>
    var end: Option<int>

    function Value(): Bounds
      reads this
    {
      Bounds(left, right, end)
    }

    constructor (b: Bounds)
      ensures Value() == b
    {
      left, right, end := b.left, b.right, b.end;
    }

    method LeftReplace(h: BlockHeader) returns (was: Option<BlockHeader>)
      modifies this
      ensures Value() == old(Value()).(left := Some(h)) && was == old(left)
    {
      was := left;
      left := Some(h);
    }

    method RightReplace(h: BlockHeader) returns (was: Option<BlockHeader>)
      modifies this
      ensures Value() == old(Value()).(right := Some(h)) && was == old(right)
    {
      was := right;
      right := Some(h);
    }

    method EndReplace(seqno: int) returns (was: Option<int>)
      modifies this
      ensures Value() == old(Value()).(end := Some(seqno)) && was == old(end)
    {
      was := end;
      end := Some(seqno);
    }

    method Modify(e: Event)
      modifies this
      ensures Value() == Upsert(Some(old(Value())), e)
    {
      match e {
        case Left(h) => var _ := LeftReplace(h);
        case Right(h) => var _ := RightReplace(h);
        case RightEnd(_, seqno) => var _ := EndReplace(seqno);
      }
    }
  }

  ghost predicate Distinct(bounds: map<ShardKey, ShardBounds>) {
    forall a, b :: a in bounds && b in bounds && a != b ==> bounds[a] != bounds[b]
  }

  /** The chains list exactly these shards, each under its own chain. */
  ghost predicate Registered(shards: map<int, set<ShardKey>>, keys: set<ShardKey>) {
    && (forall key :: key in keys <==> key.0 in shards && key in shards[key.0])
    && (forall chain, key :: chain in shards && key in shards[chain] ==> key.0 == chain)
  }

  class Registry {
    var shards: map<int, set<ShardKey>>
    var bounds: map<ShardKey, ShardBounds>

    /** Each shard has its own bounds object, and the shards of a chain are exactly those with bounds. */
    ghost predicate Valid()
      reads this
    {
      Distinct(bounds) && Registered(shards, bounds.Keys)
    }

    ghost function Contents(): View
      reads this`bounds, bounds.Values
    {
      map key | key in bounds :: bounds[key].Value()
    }

    constructor ()
      ensures Valid() && Contents() == map[]
    {
      shards, bounds := map[], map[];
    }

    method UpdateShardRegistry(key: ShardKey)
      requires Valid()
      modifies this`shards
      ensures Registered(shards, bounds.Keys + {key}) && Contents() == old(Contents())
    {
      var entry := if key.0 in shards then shards[key.0] else {};
      if key in entry {
        return;
      }
      shards := shards[key.0 := entry + {key}];
    }

    /** `upsert_left`, `upsert_right` and `upsert_right_end`. */
    method Apply(e: Event)
      requires Valid()
      modifies this, bounds.Values
      ensures Valid() && fresh(bounds.Values - old(bounds.Values))
      ensures Contents() == Step(old(Contents()), e)
    {
      UpdateShardRegistry(Key(e));
      if Key(e) in bounds {
        ModifyEntry(e);
        assert bounds.Keys + {Key(e)} == bounds.Keys;
      } else {
        InsertEntry(e);
      }
    }

    method ModifyEntry(e: Event)
      requires Distinct(bounds) && Key(e) in bounds
      modifies bounds[Key(e)]
      ensures Contents() == Step(old(Contents()), e)
    {
      bounds[Key(e)].Modify(e);
    }

    method InsertEntry(e: Event)
      requires Distinct(bounds) && Key(e) !in bounds
      modifies this`bounds
      ensures Distinct(bounds) && bounds.Keys == old(bounds.Keys) + {Key(e)}
      ensures fresh(bounds.Values - old(bounds.Values))
      ensures Contents() == Step(old(Contents()), e)
    {
      var b := new ShardBounds(Upsert(None, e));
      bounds := bounds[Key(e) := b];
    }

    method GetRightNext(key: ShardKey) returns (r: Option<int>)
      ensures r == if key in Contents() then RightNext(Contents()[key]) else None
    {
      if key in bounds {
        r := RightNext(bounds[key].Value());
      } else {
        r := None;
      }
    }

    /**
      * `contains`; `None` is the panic on a shard id of zero, which can only come up when the
      * chain has such a shard. The shards are visited in any order, up to the first that matches.
      */
    method Contains(chain: int, criteria: Criteria, notAvailable: bool) returns (r: Option<bool>)
      requires Valid()
      ensures r.Some? ==> (r.value <==> Holds(Contents(), chain, criteria, notAvailable))
      ensures r.None? ==> (chain, Zeros(WORD)) in Contents()
    {
      match criteria {
        case BySeqno(shard, seqno) =>
          var key := (chain, shard);
          r := Some(key in bounds && ContainsSeqno(bounds[key].Value(), seqno, notAvailable));
        case ByTime(address, lt) =>
          r := ContainsTime(chain, address, lt, notAvailable);
      }
    }

    method ContainsTime(chain: int, address: Address, lt: int, notAvailable: bool) returns (r: Option<bool>)
      requires Valid()
      ensures r.Some? ==> (r.value <==> Holds(Contents(), chain, ByTime(address, lt), notAvailable))
      ensures r.None? ==> (chain, Zeros(WORD)) in Contents()
    {
      var todo := if chain in shards then shards[chain] else {};
      ghost var v := Contents();
      while todo != {}
        invariant forall key :: key in todo ==> key in v && key.0 == chain
        invariant forall key :: key in v && key.0 == chain && key !in todo ==>
                  !Covers(key, v[key], address, lt, notAvailable)
        decreases todo
      {
        var key :| key in todo;
        IdOfPrefix(key.1);
        var prefix := FromShardId(key.1);
        if prefix.None? {
          return None;
        }
        if Matches(prefix.value, address) && ContainsLt(bounds[key].Value(), lt, notAvailable) {
          assert Covers(key, v[key], address, lt, notAvailable);
          return Some(true);
        }
        todo := todo - {key};
      }
      return Some(false);
    }
  }

  /** A shard entry answers for an account at a logical time. */
  predicate Covers(key: ShardKey, b: Bounds, address: Address, lt: int, notAvailable: bool) {
    FromShardId(key.1).Some? && Matches(FromShardId(key.1).value, address) && ContainsLt(b, lt, notAvailable)
  }

  predicate Holds(v: View, chain: int, criteria: Criteria, notAvailable: bool) {
    match criteria
    case BySeqno(shard, seqno) => (chain, shard) in v && ContainsSeqno(v[(chain, shard)], seqno, notAvailable)
    case ByTime(address, lt) =>
      exists key :: key in v && key.0 == chain && Covers(key, v[key], address, lt, notAvailable)
  }

  /** After every run of announced events, what is available is known. */
  lemma {:induction false} AvailableIsKnown(es: seq<Event>, chain: int, criteria: Criteria)
    requires AllAnnounced(es)
    ensures Holds(Run(es), chain, criteria, false) ==> Holds(Run(es), chain, criteria, true)
  {
    var v := Run(es);
    EdgeWithinEnd(es);
    if criteria.ByTime? && Holds(v, chain, criteria, false) {
      var key :| key in v && key.0 == chain && Covers(key, v[key], criteria.address, criteria.lt, false);
      assert Covers(key, v[key], criteria.address, criteria.lt, true);
    }
  }
}
