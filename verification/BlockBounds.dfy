/** Bounds given as blocks, turned into bounds on the account's transactions. */
module BlockBounds {
  import opened Prelude
  import opened AccountRange
  import opened AccountWindows

  datatype Kind = Inclusive | Exclusive

  datatype Limit = NoLimit | AtBlock(seqno: int, kind: Kind) | AtTx(id: TxId, kind: Kind)

  datatype LimitError = TxNotFound

  /** The account's latest transaction on a block, as a bound. */
  ghost function LatestAs(chain: seq<Tx>, seqno: int, exclusive: bool): Result<Bound, LimitError> {
    var p := LastOn(chain, seqno);
    if p < 0 then Err(TxNotFound) else Ok(if exclusive then Excluded(chain[p].id) else Included(chain[p].id))
  }

  function TxBound(id: TxId, kind: Kind): Bound {
    if kind == Inclusive then Included(id) else Excluded(id)
  }

  /** `extend_from_tx_id`: where to start, newest first. */
  ghost function ExtendFrom(chain: seq<Tx>, from: Limit): Result<Bound, LimitError> {
    match from
    case NoLimit => Ok(Unbounded)
    case AtTx(id, kind) => Ok(TxBound(id, kind))
    case AtBlock(seqno, Inclusive) => LatestAs(chain, seqno, false)
    case AtBlock(seqno, Exclusive) => LatestAs(chain, seqno - 1, false)
  }

  /** `extend_to_tx_id`: where to stop. */
  ghost function ExtendTo(chain: seq<Tx>, to: Limit): Result<Bound, LimitError> {
    match to
    case NoLimit => Ok(Unbounded)
    case AtTx(id, kind) => Ok(TxBound(id, kind))
    case AtBlock(seqno, Inclusive) => LatestAs(chain, seqno - 1, true)
    case AtBlock(seqno, Exclusive) => LatestAs(chain, seqno, true)
  }

  /** The newest block a start limit admits. */
  function NewestBlock(from: Limit): int
    requires from.AtBlock?
  {
    if from.kind == Inclusive then from.seqno else from.seqno - 1
  }

  /** The oldest block an end limit admits. */
  function OldestBlock(to: Limit): int
    requires to.AtBlock?
  {
    if to.kind == Inclusive then to.seqno else to.seqno + 1
  }

  /** The first n transactions that lie in blocks oldest..newest, newest first. */
  function InBlocks(chain: seq<Tx>, n: nat, oldest: int, newest: int): seq<Tx>
    requires n <= |chain|
  {
    if n == 0 then []
    else (if oldest <= chain[n - 1].block <= newest then [chain[n - 1]]
        else []) + InBlocks(chain, n - 1, oldest, newest)
  }

  lemma {:induction false} InBlocksIsDown(chain: seq<Tx>, n: nat, oldest: int, newest: int, e: int, p: int)
    requires ValidChain(chain) && n <= |chain|
    requires IsLastOn(chain, oldest - 1, e) && IsLastOn(chain, newest, p)
    ensures InBlocks(chain, n, oldest, newest) == Down(chain, e + 1, if n < p + 1 then n else p + 1)
  {
    if n > 0 {
      InBlocksIsDown(chain, n - 1, oldest, newest, e, p);
      var i := n - 1;
      assert chain[i].block <= newest <==> i <= p by {
        if i < p { assert chain[i].block <= chain[p].block; }
      }
      assert chain[i].block >= oldest <==> i > e by {
        if i < e { assert chain[i].block <= chain[e].block; }
      }
    }
  }

  /** A limit that names a block is refused exactly when the account had no transaction by then. */
  lemma {:induction false} LimitErrors(chain: seq<Tx>, limit: Limit)
    requires limit.AtBlock?
    ensures ExtendFrom(chain, limit).Err? <==> forall i :: 0 <= i < |chain| ==> chain[i].block > NewestBlock(limit)
    ensures ExtendTo(chain, limit).Err? <==> forall i :: 0 <= i < |chain| ==> chain[i].block >= OldestBlock(limit)
  {
    assert IsLastOn(chain, NewestBlock(limit), LastOn(chain, NewestBlock(limit)));
    assert IsLastOn(chain, OldestBlock(limit) - 1, LastOn(chain, OldestBlock(limit) - 1));
  }

  /** The account has a transaction in a block newer than `newest` and older than `oldest`. */
  ghost predicate Overshoots(chain: seq<Tx>, newest: int, oldest: int) {
    exists i :: 0 <= i < |chain| && newest < chain[i].block < oldest
  }

  /**
    * For all four kinds of limits that resolve, the ordered range lists exactly the account's
    * transactions in the admitted blocks if and only if the account has none in a gap between a
    * newest block that lies below the oldest one. With such a gap the end is never met and the
    * range runs to the account's first transaction.
    */
  lemma {:induction false} BlockRangeExact(chain: seq<Tx>, from: Limit, to: Limit)
    requires ValidChain(chain) && from.AtBlock? && to.AtBlock?
    requires ExtendFrom(chain, from).Ok? && ExtendTo(chain, to).Ok?
    ensures Range(chain, ExtendFrom(chain, from).value, ExtendTo(chain, to).value)
              == InBlocks(chain, |chain|, OldestBlock(to), NewestBlock(from))
       <==> !Overshoots(chain, NewestBlock(from), OldestBlock(to))
  {
    var newest, oldest := NewestBlock(from), OldestBlock(to);
    var p, e := LastOn(chain, newest), LastOn(chain, oldest - 1);
    RangeBetween(chain, Included(chain[p].id), Excluded(chain[e].id), p, e);
    InBlocksIsDown(chain, |chain|, oldest, newest, e, p);
    if e > p {
      assert newest < chain[e].block < oldest;
    }
  }

  // ----------------------------------------------------- limits of any kind

  /** Transaction `i` is not newer than the start limit allows. */
  ghost predicate FromAdmits(chain: seq<Tx>, from: Limit, i: int)
    requires 0 <= i < |chain|
  {
    match from
    case NoLimit => true
    case AtBlock(_, _) => chain[i].block <= NewestBlock(from)
    case AtTx(id, kind) => if kind == Inclusive then i <= Find(chain, id) else i < Find(chain, id)
  }

  /** Transaction `i` is not older than the end limit allows. */
  ghost predicate ToAdmits(chain: seq<Tx>, to: Limit, i: int)
    requires 0 <= i < |chain|
  {
    match to
    case NoLimit => true
    case AtBlock(_, _) => chain[i].block >= OldestBlock(to)
    case AtTx(id, kind) => if kind == Inclusive then i >= Find(chain, id) else i > Find(chain, id)
  }

  /** The first n transactions that both limits admit, newest first. */
  ghost function Admitted(chain: seq<Tx>, n: nat, from: Limit, to: Limit): seq<Tx>
    requires n <= |chain|
  {
    if n == 0 then []
    else
      (if FromAdmits(chain, from, n - 1) && ToAdmits(chain, to, n - 1) then [chain[n - 1]] else [])
      + Admitted(chain, n - 1, from, to)
  }

  /** How many transactions the start limit admits. */
  ghost function CutHigh(chain: seq<Tx>, from: Limit): int {
    match from
    case NoLimit => |chain|
    case AtBlock(_, _) => LastOn(chain, NewestBlock(from)) + 1
    case AtTx(id, kind) => if kind == Inclusive || Find(chain, id) < 0 then Find(chain, id) + 1 else Find(chain, id)
  }

  /** How many transactions the end limit keeps out. */
  ghost function CutLow(chain: seq<Tx>, to: Limit): int {
    match to
    case NoLimit => 0
    case AtBlock(_, _) => LastOn(chain, OldestBlock(to) - 1) + 1
    case AtTx(id, kind) => if kind == Exclusive || Find(chain, id) < 0 then Find(chain, id) + 1 else Find(chain, id)
  }

  lemma {:induction false} LastOnCuts(chain: seq<Tx>, seqno: int, i: int)
    requires ValidChain(chain) && 0 <= i < |chain|
    ensures chain[i].block <= seqno <==> i <= LastOn(chain, seqno)
  {
    var p := LastOn(chain, seqno);
    assert IsLastOn(chain, seqno, p);
    if i < p {
      assert chain[i].block <= chain[p].block;
    }
  }

  lemma {:induction false} CutsAdmit(chain: seq<Tx>, from: Limit, to: Limit, i: int)
    requires ValidChain(chain) && 0 <= i < |chain|
    ensures FromAdmits(chain, from, i) <==> i < CutHigh(chain, from)
    ensures ToAdmits(chain, to, i) <==> i >= CutLow(chain, to)
  {
    if from.AtBlock? {
      LastOnCuts(chain, NewestBlock(from), i);
    }
    if to.AtBlock? {
      LastOnCuts(chain, OldestBlock(to) - 1, i);
    }
  }

  lemma {:induction false} CutsInRange(chain: seq<Tx>, limit: Limit)
    ensures 0 <= CutHigh(chain, limit) <= |chain| && 0 <= CutLow(chain, limit) <= |chain|
  {
    if limit.AtBlock? {
      assert IsLastOn(chain, NewestBlock(limit), LastOn(chain, NewestBlock(limit)));
      assert IsLastOn(chain, OldestBlock(limit) - 1, LastOn(chain, OldestBlock(limit) - 1));
    }
  }

  lemma {:induction false} AdmittedIsDown(chain: seq<Tx>, n: nat, from: Limit, to: Limit, lo: int, hi: int)
    requires ValidChain(chain) && n <= |chain| && lo == CutLow(chain, to) && hi == CutHigh(chain, from)
    requires 0 <= lo && hi <= |chain|
    ensures Admitted(chain, n, from, to) == Down(chain, lo, if n < hi then n else hi)
  {
    hide FromAdmits, ToAdmits, ValidChain, CutLow, CutHigh;
    if n > 0 {
      AdmittedIsDown(chain, n - 1, from, to, lo, hi);
      CutsAdmit(chain, from, to, n - 1);
    }
  }

  /** The transaction the end bound names: none for no limit, or when the chain does not have it. */
  ghost function EndAt(chain: seq<Tx>, to: Limit): int {
    match to
    case NoLimit => -1
    case AtBlock(_, _) => LastOn(chain, OldestBlock(to) - 1)
    case AtTx(id, _) => Find(chain, id)
  }

  lemma {:induction false} HighIs(chain: seq<Tx>, from: Limit)
    requires ValidChain(chain) && ExtendFrom(chain, from).Ok? && (from.AtTx? ==> Find(chain, from.id) >= 0)
    ensures High(chain, ExtendFrom(chain, from).value) == CutHigh(chain, from)
    ensures var start := ExtendFrom(chain, from).value; start.Unbounded? || Find(chain, start.tx) >= 0
  {
    if from.AtBlock? {
      FindUnique(chain, LastOn(chain, NewestBlock(from)));
    }
  }

  lemma {:induction false} LowIs(chain: seq<Tx>, to: Limit, hi: int)
    requires ValidChain(chain) && ExtendTo(chain, to).Ok? && hi >= 0
    ensures Low(chain, ExtendTo(chain, to).value, hi) == if EndAt(chain, to) >= hi then 0 else CutLow(chain, to)
  {
    if to.AtBlock? {
      FindUnique(chain, LastOn(chain, OldestBlock(to) - 1));
    }
  }

  /** The range in positions: an end that lies at or above the start is never met. */
  lemma {:induction false} LimitRange(chain: seq<Tx>, from: Limit, to: Limit)
    requires ValidChain(chain) && ExtendFrom(chain, from).Ok? && ExtendTo(chain, to).Ok?
    requires from.AtTx? ==> Find(chain, from.id) >= 0
    ensures 0 <= CutHigh(chain, from) <= |chain| && 0 <= CutLow(chain, to) <= |chain|
    ensures var hi, e := CutHigh(chain, from), EndAt(chain, to);
            Range(chain, ExtendFrom(chain, from).value, ExtendTo(chain, to).value)
            == Down(chain, if e >= hi then 0 else CutLow(chain, to), hi)
  {
    hide ValidChain, ExtendFrom, ExtendTo, CutHigh, CutLow, EndAt, Range, High, Low;
    CutsInRange(chain, from);
    CutsInRange(chain, to);
    HighIs(chain, from);
    LowIs(chain, to, CutHigh(chain, from));
    RangeExact(chain, ExtendFrom(chain, from).value, ExtendTo(chain, to).value);
  }

  lemma {:induction false} DownLength(chain: seq<Tx>, lo: int, hi: int)
    requires 0 <= lo && hi <= |chain|
    ensures |Down(chain, lo, hi)| == if lo < hi then hi - lo else 0
    decreases hi
  {
    if lo < hi {
      DownLength(chain, lo, hi - 1);
    }
  }

  /** The start limit admits something, but not the transaction at which the end limit stops. */
  ghost predicate Misses(chain: seq<Tx>, from: Limit, to: Limit) {
    && 0 <= EndAt(chain, to) < |chain| && !FromAdmits(chain, from, EndAt(chain, to))
    && FromAdmits(chain, from, 0)
  }

  /**
    * For every combination of no limit, block limits and transaction limits, the ordered range lists exactly
    * the transactions both limits admit if and only if the start limit does not miss the end. With no limit on
    * either side it never does.
    */
  lemma {:induction false} LimitRangeExact(chain: seq<Tx>, from: Limit, to: Limit)
    requires ValidChain(chain) && ExtendFrom(chain, from).Ok? && ExtendTo(chain, to).Ok?
    requires from.AtTx? ==> Find(chain, from.id) >= 0
    ensures Range(chain, ExtendFrom(chain, from).value, ExtendTo(chain, to).value) == Admitted(chain, |chain|, from, to)
       <==> !Misses(chain, from, to)
    ensures from.NoLimit? || to.NoLimit? ==> !Misses(chain, from, to)
  {
    hide Range, Admitted;
    LimitRange(chain, from, to);
    var hi, lo, e := CutHigh(chain, from), CutLow(chain, to), EndAt(chain, to);
    AdmittedIsDown(chain, |chain|, from, to, lo, hi);
    DownLength(chain, 0, hi);
    DownLength(chain, lo, hi);
    if 0 <= e < |chain| {
      CutsAdmit(chain, from, to, e);
      CutsAdmit(chain, from, to, 0);
    }
  }
}
