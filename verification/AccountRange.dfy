/**
  * An account's transactions, newest first: the paged stream over its chain, and the range cut
  * from it by two bounds.
  */
module AccountRange {
  import opened Prelude

  datatype TxId = TxId(lt: int, hash: string)

  datatype Tx = Tx(id: TxId, block: int, data: string)

  datatype Bound = Included(tx: TxId) | Excluded(tx: TxId) | Unbounded {
    predicate Names(id: TxId) { !Unbounded? && tx == id }
  }

  /** The account's chain, oldest first: ids are unique and block numbers never fall. */
  ghost predicate ValidChain(chain: seq<Tx>) {
    && (forall i, j :: 0 <= i < j < |chain| ==> chain[i].id != chain[j].id)
    && (forall i, j :: 0 <= i < j < |chain| ==> chain[i].block <= chain[j].block)
  }

  ghost predicate IsAt(chain: seq<Tx>, id: TxId, p: int) {
    0 <= p < |chain| && chain[p].id == id
  }

  /** The position of a transaction, -1 when the chain does not have it. */
  ghost function Find(chain: seq<Tx>, id: TxId): (p: int)
    ensures IsAt(chain, id, p) || (p == -1 && forall q :: !IsAt(chain, id, q))
  {
    if exists p :: IsAt(chain, id, p) then var p :| IsAt(chain, id, p); p else -1
  }

  /** The transactions at positions lo..hi, newest first. */
  function Down(chain: seq<Tx>, lo: int, hi: int): (r: seq<Tx>)
    requires 0 <= lo && hi <= |chain|
    decreases hi
  {
    if hi <= lo then [] else [chain[hi - 1]] + Down(chain, lo, hi - 1)
  }

  lemma {:induction false} DownSplits(chain: seq<Tx>, lo: int, mid: int, hi: int)
    requires 0 <= lo <= mid <= hi <= |chain|
    ensures Down(chain, lo, hi) == Down(chain, mid, hi) + Down(chain, lo, mid)
    decreases hi
  {
    if mid < hi {
      DownSplits(chain, lo, mid, hi - 1);
    } else {
      assert Down(chain, mid, hi) == [];
    }
  }

  // ------------------------------------------------------- the paged stream

  datatype TxPage = TxPage(txs: seq<Tx>, previous: Option<TxId>)

  /**
    * A finished exchange that starts at `from`, or at the account's latest transaction when
    * `from` is absent. A page holds some transactions from there on and names the next one.
    */
  ghost predicate Exchange(chain: seq<Tx>, more: bool, from: Option<TxId>, pages: seq<TxPage>)
    decreases |pages|
  {
    if !more then pages == []
    else
      var p := if from.Some? then Find(chain, from.value) else |chain| - 1;
      if p < 0 then from.None? && pages == []
      else
        && pages != []
        && 1 <= |pages[0].txs| <= p + 1
        && pages[0].txs == Down(chain, p + 1 - |pages[0].txs|, p + 1)
        && pages[0].previous == (if |pages[0].txs| == p + 1 then None else Some(chain[p - |pages[0].txs|].id))
        && Exchange(chain, pages[0].previous.Some?, pages[0].previous, pages[1..])
  }

  function Flatten(pages: seq<TxPage>): seq<Tx> {
    if pages == [] then [] else pages[0].txs + Flatten(pages[1..])
  }

  /** The stream that starts at a bound: everything from there back to the account's first transaction. */
  ghost function Stream(chain: seq<Tx>, start: Bound): seq<Tx> {
    Down(chain, 0, if start.Unbounded? then |chain| else Find(chain, start.tx) + 1)
  }

  function StartId(start: Bound): Option<TxId> {
    if start.Unbounded? then None else Some(start.tx)
  }

  lemma {:induction false} ExchangeYields(chain: seq<Tx>, from: Option<TxId>, pages: seq<TxPage>)
    requires ValidChain(chain) && Exchange(chain, true, from, pages)
    ensures Flatten(pages) == Down(chain, 0, if from.Some? then Find(chain, from.value) + 1 else |chain|)
    decreases |pages|
  {
    var p := if from.Some? then Find(chain, from.value) else |chain| - 1;
    if p >= 0 {
      var k := |pages[0].txs|;
      DownSplits(chain, 0, p + 1 - k, p + 1);
      if k < p + 1 {
        ExchangeYields(chain, pages[0].previous, pages[1..]);
      }
    }
  }

  /** However the server cuts its pages, the stream is the account's history from the bound back. */
  lemma {:induction false} PagedStream(chain: seq<Tx>, start: Bound, pages: seq<TxPage>)
    requires ValidChain(chain) && Exchange(chain, true, StartId(start), pages)
    ensures Flatten(pages) == Stream(chain, start)
  {
    ExchangeYields(chain, StartId(start), pages);
  }

  // ----------------------------------------------------- the ordered range

  function SkipWhile(s: seq<Tx>, start: Bound): seq<Tx> {
    if s != [] && start.Excluded? && s[0].id == start.tx then SkipWhile(s[1..], start) else s
  }

  function TakeUntil(s: seq<Tx>, end: Bound): seq<Tx> {
    if s == [] then []
    else if end.Included? && s[0].id == end.tx then [s[0]]
    else if end.Excluded? && s[0].id == end.tx then []
    else [s[0]] + TakeUntil(s[1..], end)
  }

  ghost function Range(chain: seq<Tx>, start: Bound, end: Bound): seq<Tx> {
    TakeUntil(SkipWhile(Stream(chain, start), start), end)
  }

  /** The transactions left once an excluded start is skipped. */
  method DropStart(stream: seq<Tx>, start: Bound) returns (rest: seq<Tx>)
    ensures rest == SkipWhile(stream, start)
  {
    rest := stream;
    while rest != [] && start.Excluded? && rest[0].id == start.tx
      invariant SkipWhile(rest, start) == SkipWhile(stream, start)
      decreases |rest|
    {
      rest := rest[1..];
    }
  }

  /** The end bound names one of the transactions. */
  predicate Stops(s: seq<Tx>, end: Bound) {
    s != [] && (end.Names(s[0].id) || Stops(s[1..], end))
  }

  /** Yields transactions until the end bound is met; a stream that breaks off before that ends in its error. */
  method YieldUntil(stream: seq<Tx>, broken: bool, end: Bound) returns (out: seq<Tx>, failed: bool)
    ensures out == TakeUntil(stream, end) && (failed <==> broken && !Stops(stream, end))
  {
    out := [];
    var rest := stream;
    while rest != []
      invariant out + TakeUntil(rest, end) == TakeUntil(stream, end) && (Stops(rest, end) <==> Stops(stream, end))
      decreases |rest|
    {
      var x := rest[0];
      YieldStep(out, rest, end);
      rest := rest[1..];
      match end {
        case Unbounded =>
          out := out + [x];
        case Included(tx) =>
          out := out + [x];
          if tx == x.id { return out, false; }
        case Excluded(tx) =>
          if tx == x.id { return out, false; }
          out := out + [x];
      }
    }
    return out, broken;
  }

  lemma {:induction false} YieldStep(out: seq<Tx>, rest: seq<Tx>, end: Bound)
    requires rest != []
    ensures !end.Names(rest[0].id) ==> out + TakeUntil(rest, end) == (out + [rest[0]]) + TakeUntil(rest[1..], end)
    ensures end.Names(rest[0].id) ==> out + TakeUntil(rest, end) == if end.Included? then out + [rest[0]] else out
  {
    if end.Names(rest[0].id) {
      assert out + [] == out;
    } else {
      Append(out, rest[0], TakeUntil(rest[1..], end));
    }
  }

  lemma {:induction false} Append(out: seq<Tx>, x: Tx, tail: seq<Tx>)
    ensures out + ([x] + tail) == (out + [x]) + tail
  {
  }

  lemma {:induction false} SkipParts(a: seq<Tx>, b: seq<Tx>, start: Bound)
    ensures SkipWhile(a + b, start) ==
            if SkipWhile(a, start) == [] then SkipWhile(b, start) else SkipWhile(a, start) + b
  {
    if a == [] {
      assert a + b == b;
    } else {
      assert (a + b)[1..] == a[1..] + b;
      SkipParts(a[1..], b, start);
    }
  }

  lemma {:induction false} TakeParts(a: seq<Tx>, b: seq<Tx>, end: Bound)
    ensures TakeUntil(a + b, end) == TakeUntil(a, end) + if Stops(a, end) then [] else TakeUntil(b, end)
  {
    if a == [] {
      assert a + b == b;
    } else {
      assert (a + b)[1..] == a[1..] + b;
      TakeParts(a[1..], b, end);
    }
  }

  lemma {:induction false} FlattenParts(a: seq<TxPage>, b: seq<TxPage>)
    ensures Flatten(a + b) == Flatten(a) + Flatten(b)
  {
    if a == [] {
      assert a + b == b;
    } else {
      assert (a + b)[1..] == a[1..] + b;
      FlattenParts(a[1..], b);
    }
  }

  /**
    * `get_account_tx_range`, run over the pages of its underlying stream. If a request fails, `pages` are
    * those read before and `rest` what would have followed: what was yielded is the beginning of the range,
    * and all of it when the end was met in time.
    */
  method TxRange(pages: seq<TxPage>, broken: bool, start: Bound, end: Bound, ghost rest: seq<TxPage>,
                 ghost chain: seq<Tx>)
    returns (out: seq<Tx>, failed: bool)
    requires ValidChain(chain) && Exchange(chain, true, StartId(start), pages + rest) && (!broken ==> rest == [])
    ensures out <= Range(chain, start, end) && (!failed ==> out == Range(chain, start, end))
    ensures failed <==> broken && !Stops(SkipWhile(Flatten(pages), start), end)
  {
    PagedStream(chain, start, pages + rest);
    FlattenParts(pages, rest);
    var stream := DropStart(Flatten(pages), start);
    SkipParts(Flatten(pages), Flatten(rest), start);
    out, failed := YieldUntil(stream, broken, end);
    TakeParts(stream, if stream == [] then SkipWhile(Flatten(rest), start) else Flatten(rest), end);
    if !broken {
      assert pages + rest == pages;
    }
  }

  /** One past the newest position a start bound admits. */
  ghost function High(chain: seq<Tx>, start: Bound): int {
    match start
    case Unbounded => |chain|
    case Included(tx) => Find(chain, tx) + 1
    case Excluded(tx) => Find(chain, tx)
  }

  /** The oldest position an end bound admits below `hi`; an end that lies above admits everything. */
  ghost function Low(chain: seq<Tx>, end: Bound, hi: int): int {
    if end.Unbounded? || Find(chain, end.tx) < 0 || Find(chain, end.tx) >= hi then 0
    else if end.Included? then Find(chain, end.tx)
    else Find(chain, end.tx) + 1
  }

  lemma {:induction false} FindUnique(chain: seq<Tx>, p: int)
    requires ValidChain(chain) && 0 <= p < |chain|
    ensures Find(chain, chain[p].id) == p
  {
    assert IsAt(chain, chain[p].id, p);
  }

  lemma {:induction false} TakeUntilDown(chain: seq<Tx>, end: Bound, hi: int)
    requires ValidChain(chain) && 0 <= hi <= |chain|
    ensures TakeUntil(Down(chain, 0, hi), end) == Down(chain, Low(chain, end, hi), hi)
    decreases hi
  {
    if hi > 0 {
      TakeUntilDown(chain, end, hi - 1);
      var d := Down(chain, 0, hi);
      assert d[1..] == Down(chain, 0, hi - 1);
      FindUnique(chain, hi - 1);
      if end.Included? && d[0].id == end.tx {
        assert Down(chain, hi - 1, hi) == [chain[hi - 1]];
      }
    }
  }

  /** The range in positions, for every combination of bounds. */
  lemma {:induction false} RangeExact(chain: seq<Tx>, start: Bound, end: Bound)
    requires ValidChain(chain)
    requires start.Unbounded? || Find(chain, start.tx) >= 0
    ensures var hi := High(chain, start); Range(chain, start, end) == Down(chain, Low(chain, end, hi), hi)
  {
    var hi := High(chain, start);
    if start.Excluded? {
      var s := Stream(chain, start);
      assert s[1..] == Down(chain, 0, hi);
      if hi > 0 {
        FindUnique(chain, hi - 1);
      }
      assert SkipWhile(s, start) == SkipWhile(s[1..], start) == s[1..];
    }
    TakeUntilDown(chain, end, hi);
  }

  /** The same with the positions named: `ps` is where the stream starts, `pe` where it should end. */
  lemma {:induction false} RangeBetween(chain: seq<Tx>, start: Bound, end: Bound, ps: int, pe: int)
    requires ValidChain(chain)
    requires if start.Unbounded? then ps == |chain| - 1 else IsAt(chain, start.tx, ps)
    requires end.Unbounded? || IsAt(chain, end.tx, pe)
    ensures var hi := if start.Excluded? then ps else ps + 1;
            var lo := if end.Unbounded? || pe >= hi then 0 else if end.Included? then pe else pe + 1;
            Range(chain, start, end) == Down(chain, lo, hi)
  {
    if !start.Unbounded? {
      FindUnique(chain, ps);
    }
    if !end.Unbounded? {
      FindUnique(chain, pe);
    }
    RangeExact(chain, start, end);
  }
}
