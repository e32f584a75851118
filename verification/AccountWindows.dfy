/** `get_account_tx_range_unordered`: one range cut at sampled transactions into windows. */
module AccountWindows {
  import opened Prelude
  import opened AccountRange
  import Bytes

  // ------------------------------------------------------------- the split

  /** Division of 32-bit integers, which truncates toward zero. */
  function TruncDiv(a: int, b: int): int
    requires b != 0
  {
    if (a >= 0) == (b > 0) then Abs(a) / Abs(b) else -(Abs(a) / Abs(b))
  }

  function Abs(a: int): nat {
    if a < 0 then -a else a
  }

  const BLOCKS_PER_CHUNK: int := 28800
  const MAX_CHUNKS: int := 256

  function Chunks(diff: int): int {
    var c := TruncDiv(diff, BLOCKS_PER_CHUNK);
    if c < MAX_CHUNKS then c else MAX_CHUNKS
  }

  /** `p` is the position of the account's latest transaction up to a block, -1 when there is none. */
  ghost predicate IsLastOn(chain: seq<Tx>, seqno: int, p: int) {
    && -1 <= p < |chain|
    && (p >= 0 ==> chain[p].block <= seqno)
    && forall i :: p < i < |chain| ==> chain[i].block > seqno
  }

  lemma {:induction false} LastOnExists(chain: seq<Tx>, seqno: int, n: int) returns (p: int)
    requires -1 <= n < |chain| && forall i :: n < i < |chain| ==> chain[i].block > seqno
    ensures IsLastOn(chain, seqno, p)
    decreases n
  {
    if n >= 0 && chain[n].block > seqno {
      p := LastOnExists(chain, seqno, n - 1);
    } else {
      p := n;
    }
  }

  /** The account state on a block. */
  ghost function LastOn(chain: seq<Tx>, seqno: int): (p: int)
    ensures IsLastOn(chain, seqno, p)
  {
    assert exists p :: IsLastOn(chain, seqno, p) by {
      var p := LastOnExists(chain, seqno, |chain| - 1);
    }
    var p :| IsLastOn(chain, seqno, p);
    p
  }

  datatype Window = Window(start: Bound, end: Bound)

  /** `DividedByZero` is the panic of the step computation when there is no whole chunk. */
  datatype Split = InvalidTx | DividedByZero | Windows(ws: seq<Window>)

  /** `Vec::dedup`. */
  function Dedup(s: seq<TxId>): (r: seq<TxId>)
    ensures s != [] ==> r != [] && r[0] == s[0] && r[|r| - 1] == s[|s| - 1]
  {
    if |s| <= 1 then s
    else
      var n := |s| - 1;
      if s[n] == s[n - 1] then Dedup(s[..n]) else Dedup(s[..n]) + [s[n]]
  }

  /** The window between neighbouring sample points; the outermost keep the caller's bounds. */
  function WindowAt(txs: seq<TxId>, k: int, first: TxId, last: TxId, start: Bound, end: Bound): Window
    requires 0 <= k < |txs| - 1
  {
    Window(if txs[k + 1] == last then start else Excluded(txs[k + 1]),
           if txs[k] == first then end else Included(txs[k]))
  }

  function WindowsOf(txs: seq<TxId>, first: TxId, last: TxId, start: Bound, end: Bound): (ws: seq<Window>)
    ensures |ws| == if txs == [] then 0 else |txs| - 1
  {
    if txs == [] then []
    else seq(|txs| - 1, k requires 0 <= k < |txs| - 1 => WindowAt(txs, k, first, last, start, end))
  }

  /** The sample points on `n` blocks, `step` apart: the account's latest transaction on each. */
  ghost function Samples(chain: seq<Tx>, seqno: int, step: int, n: int): (ids: Option<seq<TxId>>)
    decreases n
  {
    if n <= 0 then Some([])
    else
      var p := LastOn(chain, seqno);
      if p < 0 then None
      else match Samples(chain, seqno + step, step, n - 1)
        case None => None
        case Some(rest) => Some([chain[p].id] + rest)
  }

  /** The newest transaction the range starts from. */
  function LastTx(chain: seq<Tx>, start: Bound): Option<TxId> {
    if !start.Unbounded? then Some(start.tx)
    else if chain == [] then None
    else Some(chain[|chain| - 1].id)
  }

  /** The transaction the range ends at; for an unbounded end, the one the availability search found. */
  function FirstTx(end: Bound, oldest: TxId): TxId {
    if end.Unbounded? then oldest else end.tx
  }

  /** The windows between the transactions at positions `pf` and `pl`, sampled at every step-th block. */
  ghost function SplitEvery(chain: seq<Tx>, pf: int, pl: int, start: Bound, end: Bound, step: int, n: int): Split
    requires 0 <= pf < |chain| && 0 <= pl < |chain|
  {
    match Samples(chain, chain[pf].block + step, step, n)
    case None => InvalidTx
    case Some(mid) =>
      Windows(WindowsOf(Dedup([chain[pf].id] + mid + [chain[pl].id]), chain[pf].id, chain[pl].id, start, end))
  }

  /** The same for the number of chunks that the two blocks are apart. */
  ghost function SplitBetween(chain: seq<Tx>, pf: int, pl: int, start: Bound, end: Bound): Split
    requires 0 <= pf < |chain| && 0 <= pl < |chain|
  {
    var diff := chain[pl].block - chain[pf].block;
    var chunks := Chunks(diff);
    if chunks == 0 then DividedByZero
    else SplitEvery(chain, pf, pl, start, end, TruncDiv(diff, chunks), chunks - 1)
  }

  /** The whole operation; a bound that names no transaction of the account is refused by the server. */
  ghost function SplitOf(chain: seq<Tx>, start: Bound, end: Bound, oldest: TxId): Split {
    match LastTx(chain, start)
    case None => InvalidTx
    case Some(last) =>
      var pf, pl := Find(chain, FirstTx(end, oldest)), Find(chain, last);
      if pf < 0 || pl < 0 then InvalidTx else SplitBetween(chain, pf, pl, start, end)
  }

  // ------------------------------------------------- concurrent flattening

  /** `out` takes the streams' items in some order that respects each stream's own. */
  ghost predicate Interleaves(streams: seq<seq<Tx>>, out: seq<Tx>)
    decreases |out|
  {
    if out == [] then forall k :: 0 <= k < |streams| ==> streams[k] == []
    else
      exists k ::
        0 <= k < |streams| && TakesFrom(streams, k, out[0]) && Interleaves(streams[k := streams[k][1..]], out[1..])
  }

  predicate TakesFrom(streams: seq<seq<Tx>>, k: nat, x: Tx)
    requires k < |streams|
  {
    streams[k] != [] && streams[k][0] == x
  }

  ghost function Total(streams: seq<seq<Tx>>, k: nat): multiset<Tx>
    decreases |streams| - k
  {
    if k >= |streams| then multiset{} else multiset(streams[k]) + Total(streams, k + 1)
  }

  lemma {:induction false} TotalUpdate(streams: seq<seq<Tx>>, s': seq<seq<Tx>>, k: nat, i: nat)
    requires k < |streams| && streams[k] != [] && s' == streams[k := streams[k][1..]]
    ensures i <= k ==> Total(streams, i) == multiset{streams[k][0]} + Total(s', i)
    ensures i > k ==> Total(streams, i) == Total(s', i)
    decreases |streams| - i
  {
    if i < |streams| {
      TotalUpdate(streams, s', k, i + 1);
      if i == k {
        HeadAndTail(streams[k]);
      }
    }
  }

  lemma {:induction false} HeadAndTail(s: seq<Tx>)
    requires s != []
    ensures multiset(s) == multiset{s[0]} + multiset(s[1..])
  {
    assert s == [s[0]] + s[1..];
  }

  lemma {:induction false} TotalOfEmpty(streams: seq<seq<Tx>>, i: nat)
    requires forall k :: 0 <= k < |streams| ==> streams[k] == []
    ensures Total(streams, i) == multiset{}
    decreases |streams| - i
  {
    if i < |streams| {
      TotalOfEmpty(streams, i + 1);
    }
  }

  lemma {:induction false} InterleavingKeepsAll(streams: seq<seq<Tx>>, out: seq<Tx>)
    requires Interleaves(streams, out)
    ensures multiset(out) == Total(streams, 0)
    decreases |out|
  {
    if out == [] {
      TotalOfEmpty(streams, 0);
    } else {
      var k :| 0 <= k < |streams| && TakesFrom(streams, k, out[0])
        && Interleaves(streams[k := streams[k][1..]], out[1..]);
      var s' := streams[k := streams[k][1..]];
      InterleavingKeepsAll(s', out[1..]);
      TotalUpdate(streams, s', k, 0);
      assert out == [out[0]] + out[1..];
    }
  }

  /** The streams of the windows. */
  ghost function Ranges(chain: seq<Tx>, ws: seq<Window>): (r: seq<seq<Tx>>)
    ensures |r| == |ws|
  {
    seq(|ws|, k requires 0 <= k < |ws| => Range(chain, ws[k].start, ws[k].end))
  }

  // ---------------------------------------------------- windows telescope

  ghost predicate Located(chain: seq<Tx>, txs: seq<TxId>, pos: seq<int>) {
    |pos| == |txs| && forall i :: 0 <= i < |txs| ==> IsAt(chain, txs[i], pos[i])
  }

  predicate Rises(pos: seq<int>) {
    forall i, j :: 0 <= i < j < |pos| ==> pos[i] <= pos[j]
  }

  /** The sample points, located at strictly rising positions in the chain. */
  ghost predicate Climbs(chain: seq<Tx>, txs: seq<TxId>, pos: seq<int>) {
    Located(chain, txs, pos) && Increases(pos)
  }

  lemma {:induction false} ConsRises(p: int, pos: seq<int>)
    requires Rises(pos) && (pos != [] ==> p <= pos[0])
    ensures Rises([p] + pos)
  {
    var all := [p] + pos;
    assert forall j :: 0 < j < |all| ==> all[j] == pos[j - 1];
    assert forall k :: 0 < k < |pos| ==> pos[0] <= pos[k];
  }

  predicate Increases(pos: seq<int>) {
    forall i, j :: 0 <= i < j < |pos| ==> pos[i] < pos[j]
  }

  lemma {:induction false} SnocIncreases(pos: seq<int>, p: int)
    requires Increases(pos) && (pos != [] ==> pos[|pos| - 1] < p)
    ensures Increases(pos + [p])
  {
    assert forall k :: 0 <= k < |pos| - 1 ==> pos[k] < pos[|pos| - 1];
  }

  lemma {:induction false} SameTx(chain: seq<Tx>, id: TxId, p: int, q: int)
    requires ValidChain(chain) && IsAt(chain, id, p) && IsAt(chain, id, q)
    ensures p == q
  {
  }

  lemma {:induction false} DedupClimbs(chain: seq<Tx>, txs: seq<TxId>, pos: seq<int>) returns (pos': seq<int>)
    requires ValidChain(chain) && Located(chain, txs, pos) && Rises(pos) && txs != []
    ensures Climbs(chain, Dedup(txs), pos')
    ensures pos'[0] == pos[0] && pos'[|pos'| - 1] == pos[|pos| - 1]
  {
    pos' := pos;
    if |txs| > 1 {
      var n := |txs| - 1;
      pos' := DedupClimbs(chain, txs[..n], pos[..n]);
      assert IsAt(chain, txs[n], pos[n]) && IsAt(chain, txs[n - 1], pos[n - 1]);
      if txs[n] == txs[n - 1] {
        SameTx(chain, txs[n], pos[n], pos[n - 1]);
      } else {
        assert pos[n - 1] < pos[n];
        SnocIncreases(pos', pos[n]);
        pos' := pos' + [pos[n]];
      }
    }
  }

  lemma {:induction false} DownParts(chain: seq<Tx>, lo: int, mid: int, hi: int)
    requires 0 <= lo <= mid <= hi <= |chain|
    ensures multiset(Down(chain, lo, hi)) == multiset(Down(chain, mid, hi)) + multiset(Down(chain, lo, mid))
  {
    DownSplits(chain, lo, mid, hi);
  }

  /** The bounds of the whole range sit at the outermost sample points. */
  ghost predicate Outermost(chain: seq<Tx>, txs: seq<TxId>, pos: seq<int>, start: Bound, end: Bound) {
    && |txs| == |pos| >= 2
    && (start.Unbounded? ==> pos[|pos| - 1] == |chain| - 1)
    && (!start.Unbounded? ==> start.tx == txs[|txs| - 1])
    && (!end.Unbounded? ==> end.tx == txs[0])
  }

  /** One past the newest position of the window below point k. */
  function Top(pos: seq<int>, k: int, start: Bound): int
    requires 0 <= k < |pos|
  {
    if k < |pos| - 1 || start.Excluded? then pos[k] else pos[k] + 1
  }

  /** The oldest position of the window above point k. */
  function Bottom(pos: seq<int>, k: int, end: Bound): int
    requires 0 <= k < |pos|
  {
    if k > 0 || end.Included? then pos[k] else if end.Unbounded? then 0 else pos[k] + 1
  }

  lemma {:induction false} WindowRange(chain: seq<Tx>, txs: seq<TxId>, pos: seq<int>, k: int, start: Bound,
                                       end: Bound, w: Window)
    requires ValidChain(chain) && Climbs(chain, txs, pos) && Outermost(chain, txs, pos, start, end)
    requires 0 <= k < |txs| - 1 && w == WindowAt(txs, k, txs[0], txs[|txs| - 1], start, end)
    ensures 0 <= Bottom(pos, k, end) <= Top(pos, k + 1, start) <= |chain|
    ensures Range(chain, w.start, w.end) == Down(chain, Bottom(pos, k, end), Top(pos, k + 1, start))
  {
    assert pos[k] < pos[k + 1];
    assert k > 0 ==> pos[0] < pos[k];
    assert k + 1 < |pos| - 1 ==> pos[k + 1] < pos[|pos| - 1];
    assert IsAt(chain, txs[k], pos[k]) && IsAt(chain, txs[k + 1], pos[k + 1]);
    RangeBetween(chain, w.start, w.end, pos[k + 1], pos[k]);
  }

  lemma {:induction false} IncreasesAt(pos: seq<int>, i: int, j: int)
    requires Increases(pos) && 0 <= i <= j < |pos|
    ensures i < j ==> pos[i] < pos[j]
  {
  }

  lemma {:induction false} TelescopeStep(chain: seq<Tx>, pos: seq<int>, k: int, start: Bound, end: Bound, r: seq<Tx>,
                                         m: multiset<Tx>)
    requires 0 <= k < |pos| - 2 && pos[k] < pos[k + 1] < pos[|pos| - 1]
    requires Stretch(chain, pos, k, start, end, r) && Stretch'(chain, pos, k + 1, start, end, m)
    ensures Stretch'(chain, pos, k, start, end, multiset(r) + m)
  {
    DownParts(chain, Bottom(pos, k, end), pos[k + 1], Top(pos, |pos| - 1, start));
  }

  /** Adjacent stretches of the chain add up: those from the k-th on reach from its bottom to the top. */
  lemma {:induction false} StretchesTelescope(chain: seq<Tx>, pos: seq<int>, k: int, start: Bound, end: Bound,
                                              ranges: seq<seq<Tx>>)
    requires Increases(pos) && 0 <= k < |pos| - 1 == |ranges|
    requires forall i :: 0 <= i < |ranges| ==> Stretch(chain, pos, i, start, end, ranges[i])
    ensures Stretch'(chain, pos, k, start, end, Total(ranges, k))
    decreases |pos| - k
  {
    hide Increases, Stretch, Stretch';
    assert Stretch(chain, pos, k, start, end, ranges[k]);
    if k + 1 < |ranges| {
      IncreasesAt(pos, k, k + 1);
      IncreasesAt(pos, k + 1, |pos| - 1);
      StretchesTelescope(chain, pos, k + 1, start, end, ranges);
      TelescopeStep(chain, pos, k, start, end, ranges[k], Total(ranges, k + 1));
    } else {
      LastStretch(chain, pos, k, start, end, ranges);
    }
  }

  lemma {:induction false} LastStretch(chain: seq<Tx>, pos: seq<int>, k: int, start: Bound, end: Bound,
                                       ranges: seq<seq<Tx>>)
    requires 0 <= k == |pos| - 2 && |ranges| == |pos| - 1 && Stretch(chain, pos, k, start, end, ranges[k])
    ensures Stretch'(chain, pos, k, start, end, Total(ranges, k))
  {
    assert Total(ranges, k + 1) == multiset{};
  }

  /** `r` is what lies between points k and k + 1. */
  ghost predicate Stretch(chain: seq<Tx>, pos: seq<int>, k: int, start: Bound, end: Bound, r: seq<Tx>)
    requires 0 <= k < |pos| - 1
  {
    && 0 <= Bottom(pos, k, end) <= Top(pos, k + 1, start) <= |chain|
    && r == Down(chain, Bottom(pos, k, end), Top(pos, k + 1, start))
  }

  /** `m` is all that lies above point k. */
  ghost predicate Stretch'(chain: seq<Tx>, pos: seq<int>, k: int, start: Bound, end: Bound, m: multiset<Tx>)
    requires 0 <= k < |pos| - 1
  {
    && 0 <= Bottom(pos, k, end) <= Top(pos, |pos| - 1, start) <= |chain|
    && m == multiset(Down(chain, Bottom(pos, k, end), Top(pos, |pos| - 1, start)))
  }

  lemma {:induction false} WholeRange(chain: seq<Tx>, txs: seq<TxId>, pos: seq<int>, start: Bound, end: Bound)
    requires ValidChain(chain) && Climbs(chain, txs, pos) && Outermost(chain, txs, pos, start, end)
    ensures 0 <= Bottom(pos, 0, end) <= Top(pos, |pos| - 1, start) <= |chain|
    ensures Range(chain, start, end) == Down(chain, Bottom(pos, 0, end), Top(pos, |pos| - 1, start))
  {
    hide ValidChain, Range;
    assert pos[0] < pos[|pos| - 1];
    assert IsAt(chain, txs[0], pos[0]) && IsAt(chain, txs[|pos| - 1], pos[|pos| - 1]);
    RangeBetween(chain, start, end, pos[|pos| - 1], pos[0]);
  }

  /** All windows together hold the whole range. */
  lemma {:induction false} WindowsCoverRange(chain: seq<Tx>, txs: seq<TxId>, pos: seq<int>, start: Bound, end: Bound)
    requires ValidChain(chain) && Climbs(chain, txs, pos) && Outermost(chain, txs, pos, start, end)
    ensures Total(Ranges(chain, WindowsOf(txs, txs[0], txs[|txs| - 1], start, end)), 0) ==
              multiset(Range(chain, start, end))
  {
    var ws := WindowsOf(txs, txs[0], txs[|txs| - 1], start, end);
    var ranges := Ranges(chain, ws);
    forall k | 0 <= k < |ranges| ensures Stretch(chain, pos, k, start, end, ranges[k]) {
      WindowRange(chain, txs, pos, k, start, end, ws[k]);
    }
    WholeRange(chain, txs, pos, start, end);
    StretchesTelescope(chain, pos, 0, start, end, ranges);
  }

  // ------------------------------------------------------- sample points

  lemma {:induction false} LastOnClimbs(chain: seq<Tx>, a: int, b: int)
    requires a <= b
    ensures LastOn(chain, a) <= LastOn(chain, b)
  {
  }

  /** Each sample lies at or above the first point, strictly below the last, and they rise. */
  lemma {:induction false} SamplesRise(chain: seq<Tx>, pf: int, pl: int, seqno: int, step: int, n: int)
    returns (pos: seq<int>)
    requires ValidChain(chain) && 0 <= pf < |chain| && 0 <= pl < |chain|
    requires step >= 1 && chain[pf].block <= seqno
    requires n > 0 ==> seqno + step * (n - 1) < chain[pl].block
    ensures Samples(chain, seqno, step, n).Some? && Located(chain, Samples(chain, seqno, step, n).value, pos)
    ensures Rises(pos) && forall k :: 0 <= k < |pos| ==> pf <= pos[k] < pl
    ensures pos != [] ==> pos[0] == LastOn(chain, seqno)
    decreases n
  {
    pos := [];
    if n > 0 {
      Distribute(step, n);
      var rest := SamplesRise(chain, pf, pl, seqno + step, step, n - 1);
      var p := LastOn(chain, seqno);
      SampleBetween(chain, pf, pl, seqno);
      LastOnClimbs(chain, seqno, seqno + step);
      ConsRises(p, rest);
      pos := [p] + rest;
    }
  }

  lemma {:induction false} Distribute(step: int, n: int)
    requires step >= 1 && n >= 1
    ensures step + step * (n - 2) == step * (n - 1) >= 0
  {
    Bytes.MulMonotone(step, 0, n - 1);
  }

  lemma {:induction false} SampleBetween(chain: seq<Tx>, pf: int, pl: int, seqno: int)
    requires ValidChain(chain) && 0 <= pf < |chain| && 0 <= pl < |chain|
    requires chain[pf].block <= seqno < chain[pl].block
    ensures pf <= LastOn(chain, seqno) < pl
  {
    assert LastOn(chain, seqno) != pl;
  }

  lemma {:induction false} ChunkArithmetic(diff: int)
    ensures Chunks(diff) == 0 <==> -BLOCKS_PER_CHUNK < diff < BLOCKS_PER_CHUNK
    ensures diff >= BLOCKS_PER_CHUNK ==>
              var c := Chunks(diff); c >= 1 && TruncDiv(diff, c) >= 1 && TruncDiv(diff, c) * (c - 1) < diff
    ensures diff <= -BLOCKS_PER_CHUNK ==> Chunks(diff) < 0
  {
    if diff >= BLOCKS_PER_CHUNK {
      var c := Chunks(diff);
      var step := diff / c;
      assert c <= diff;
      StepPositive(diff, c);
    }
  }

  lemma {:induction false} StepPositive(diff: int, c: int)
    requires 1 <= c <= diff
    ensures diff / c >= 1 && diff / c * (c - 1) < diff
  {
    var q, m := diff / c, diff % c;
    assert diff == c * q + m;
    var positive: nat := c;
    if q < 1 {
      Bytes.MulMonotone(positive, q, 0);
    }
    assert q * (c - 1) == c * q - q;
  }

  // ------------------------------------------------------------ main result

  /** The caller's bounds name the two ends. */
  ghost predicate EndsAt(chain: seq<Tx>, pf: int, pl: int, start: Bound, end: Bound) {
    && 0 <= pf < |chain| && 0 <= pl < |chain|
    && (if start.Unbounded? then pl == |chain| - 1 else start.tx == chain[pl].id)
    && (end.Unbounded? || end.tx == chain[pf].id)
  }

  /** The split yields windows, and together they hold the ordered range. */
  ghost predicate Covers(chain: seq<Tx>, split: Split, start: Bound, end: Bound) {
    split.Windows? && Total(Ranges(chain, split.ws), 0) == multiset(Range(chain, start, end))
  }

  lemma {:induction false} SampledCovers(chain: seq<Tx>, pf: int, pl: int, start: Bound, end: Bound, step: int, n: int)
    requires ValidChain(chain) && EndsAt(chain, pf, pl, start, end)
    requires step >= 1 && n >= 0 && step * n < chain[pl].block - chain[pf].block
    ensures Covers(chain, SplitEvery(chain, pf, pl, start, end, step, n), start, end)
  {
    hide Covers, ValidChain;
    Bytes.MulMonotone(step, 0, n);
    if n > 0 {
      Distribute(step, n + 1);
    }
    var inner := SamplesRise(chain, pf, pl, chain[pf].block + step, step, n);
    var mid := Samples(chain, chain[pf].block + step, step, n).value;
    LaterBlock(chain, pf, pl);
    PointsCover(chain, pf, pl, start, end, mid, inner);
  }

  lemma {:induction false} LaterBlock(chain: seq<Tx>, p: int, q: int)
    requires ValidChain(chain) && 0 <= p < |chain| && 0 <= q < |chain| && chain[p].block < chain[q].block
    ensures p < q
  {
  }

  lemma {:induction false} PointsCover(chain: seq<Tx>, pf: int, pl: int, start: Bound, end: Bound, mid: seq<TxId>,
                                       inner: seq<int>)
    requires ValidChain(chain) && EndsAt(chain, pf, pl, start, end) && pf < pl
    requires Located(chain, mid, inner) && Rises(inner) && forall k :: 0 <= k < |inner| ==> pf <= inner[k] < pl
    ensures var txs := Dedup([chain[pf].id] + mid + [chain[pl].id]);
            Covers(chain, Windows(WindowsOf(txs, chain[pf].id, chain[pl].id, start, end)), start, end)
  {
    var txs := [chain[pf].id] + mid + [chain[pl].id];
    var pos := DedupClimbs(chain, txs, [pf] + inner + [pl]);
    WindowsCoverRange(chain, Dedup(txs), pos, start, end);
  }

  /** Two points, in whatever order, give one window with the caller's bounds. */
  lemma {:induction false} OneWindow(chain: seq<Tx>, first: TxId, last: TxId, start: Bound, end: Bound)
    requires first != last
    ensures Total(Ranges(chain, WindowsOf(Dedup([first] + [] + [last]), first, last, start, end)), 0) ==
              multiset(Range(chain, start, end))
  {
    var txs := [first] + [] + [last];
    assert txs == [first, last] && txs[..1] == [first];
    var ranges := Ranges(chain, WindowsOf(Dedup(txs), first, last, start, end));
    assert |ranges| == 1 && Total(ranges, 1) == multiset{};
  }

  /** Ends at least one chunk apart, the newer one at the start. */
  lemma {:induction false} ForwardCovers(chain: seq<Tx>, pf: int, pl: int, start: Bound, end: Bound, diff: int)
    requires ValidChain(chain) && EndsAt(chain, pf, pl, start, end) && diff == chain[pl].block - chain[pf].block
    requires diff >= BLOCKS_PER_CHUNK
    ensures Covers(chain, SplitBetween(chain, pf, pl, start, end), start, end)
  {
    hide Covers, ValidChain, SplitEvery, Chunks, TruncDiv;
    ChunkArithmetic(diff);
    SampledCovers(chain, pf, pl, start, end, TruncDiv(diff, Chunks(diff)), Chunks(diff) - 1);
  }

  /** Ends at least one chunk apart, but the wrong way round: no samples are taken. */
  lemma {:induction false} BackwardCovers(chain: seq<Tx>, pf: int, pl: int, start: Bound, end: Bound, diff: int)
    requires ValidChain(chain) && EndsAt(chain, pf, pl, start, end) && diff == chain[pl].block - chain[pf].block
    requires diff <= -BLOCKS_PER_CHUNK
    ensures Covers(chain, SplitBetween(chain, pf, pl, start, end), start, end)
  {
    hide Chunks, TruncDiv, WindowsOf, Dedup, Ranges, Total;
    ChunkArithmetic(diff);
    var step, n := TruncDiv(diff, Chunks(diff)), Chunks(diff) - 1;
    assert Samples(chain, chain[pf].block + step, step, n) == Some([]);
    OneWindow(chain, chain[pf].id, chain[pl].id, start, end);
  }

  lemma {:induction false} SplitCovers(chain: seq<Tx>, pf: int, pl: int, start: Bound, end: Bound, diff: int)
    requires ValidChain(chain) && EndsAt(chain, pf, pl, start, end) && diff == chain[pl].block - chain[pf].block
    ensures SplitBetween(chain, pf, pl, start, end) == DividedByZero <==> -BLOCKS_PER_CHUNK < diff < BLOCKS_PER_CHUNK
    ensures var split := SplitBetween(chain, pf, pl, start, end);
            split == DividedByZero || Covers(chain, split, start, end)
  {
    hide ValidChain, SplitEvery, Ranges, Total, Range;
    if diff >= BLOCKS_PER_CHUNK {
      ForwardCovers(chain, pf, pl, start, end, diff);
    } else if diff <= -BLOCKS_PER_CHUNK {
      BackwardCovers(chain, pf, pl, start, end, diff);
    } else {
      ChunkArithmetic(diff);
    }
  }

  /**
    * For every combination of bounds, the split panics exactly when its two ends, at positions
    * `pf` and `pl`, are less than one chunk of 28800 blocks apart. Otherwise every interleaving
    * of its windows holds exactly the transactions of the ordered range.
    */
  lemma {:induction false} SplitYieldsRange(chain: seq<Tx>, start: Bound, end: Bound, oldest: TxId, pf: int, pl: int,
                                            out: seq<Tx>)
    requires ValidChain(chain) && EndsAt(chain, pf, pl, start, end) && chain[pf].id == FirstTx(end, oldest)
    ensures SplitOf(chain, start, end, oldest) == DividedByZero <==>
            -BLOCKS_PER_CHUNK < chain[pl].block - chain[pf].block < BLOCKS_PER_CHUNK
    ensures SplitOf(chain, start, end, oldest) != DividedByZero ==>
              && SplitOf(chain, start, end, oldest).Windows?
              && (Interleaves(Ranges(chain, SplitOf(chain, start, end, oldest).ws), out) ==>
                   multiset(out) == multiset(Range(chain, start, end)))
  {
    FindUnique(chain, pf);
    FindUnique(chain, pl);
    SplitCovers(chain, pf, pl, start, end, chain[pl].block - chain[pf].block);
    var split := SplitOf(chain, start, end, oldest);
    assert split == SplitBetween(chain, pf, pl, start, end);
    if split.Windows? && Interleaves(Ranges(chain, split.ws), out) {
      InterleavingKeepsAll(Ranges(chain, split.ws), out);
    }
  }
}
