/**
  * Listing a block's transactions: paged reads in both directions, and the streams that
  * merge the two directions until they meet.
  */
module BlockStreams {
  import opened Prelude

  datatype ShortTxId = ShortTxId(account: string, lt: int, hash: string)

  ghost predicate Distinct<T>(s: seq<T>) {
    forall i, j :: 0 <= i < j < |s| ==> s[i] != s[j]
  }

  function Reverse<T>(s: seq<T>): (r: seq<T>)
    ensures |r| == |s| && forall i :: 0 <= i < |s| ==> r[i] == s[|s| - 1 - i]
  {
    seq(|s|, i requires 0 <= i < |s| => s[|s| - 1 - i])
  }

  // ----------------------------------------------------------- paged reads

  datatype Page = Page(txs: seq<ShortTxId>, incomplete: bool)

  datatype PageState = PageState(after: Option<ShortTxId>, incomplete: bool, exp: nat)

  const START: PageState := PageState(None, true, 5)

  function Count(exp: nat): nat {
    if exp == 0 then 1 else 2 * Count(exp - 1)
  }

  /** One `try_unfold` step: the state after a page has arrived. */
  function Next(st: PageState, page: Page): PageState {
    PageState(
      if page.txs == [] then None else Some(page.txs[|page.txs| - 1]),
      page.incomplete,
      if st.exp + 1 < 8 then st.exp + 1 else 8)
  }

  /** Where the server resumes: after the transaction named, or from the beginning. */
  ghost predicate ResumesAt(order: seq<ShortTxId>, after: Option<ShortTxId>, p: int) {
    0 <= p <= |order| && if after.None? then p == 0 else p > 0 && order[p - 1] == after.value
  }

  /** A page of at most `count` transactions from position `p`; a final page reaches the end. */
  ghost predicate Answers(order: seq<ShortTxId>, p: int, count: nat, page: Page) {
    && 0 <= p <= p + |page.txs| <= |order|
    && page.txs == order[p..p + |page.txs|]
    && |page.txs| <= count
    && (!page.incomplete ==> p + |page.txs| == |order|)
  }

  /** A finished exchange with a server that lists `order`: the pages read until one is final. */
  ghost predicate Exchange(order: seq<ShortTxId>, st: PageState, pages: seq<Page>)
    decreases |pages|
  {
    if !st.incomplete then pages == []
    else
      && pages != []
      && (exists p :: ResumesAt(order, st.after, p) && Answers(order, p, Count(st.exp), pages[0]))
      && Exchange(order, Next(st, pages[0]), pages[1..])
  }

  function Flatten(pages: seq<Page>): seq<ShortTxId> {
    if pages == [] then [] else pages[0].txs + Flatten(pages[1..])
  }

  /** No page is empty, yet declared incomplete, once something has been read. */
  predicate NeverStalls(st: PageState, pages: seq<Page>)
    decreases |pages|
  {
    pages != [] ==>
      && (pages[0].txs == [] && pages[0].incomplete ==> st.after.None?)
      && NeverStalls(Next(st, pages[0]), pages[1..])
  }

  /** A page is the stretch of `order` from where the server resumes, and the next one resumes behind it. */
  lemma {:induction false} PageStep(order: seq<ShortTxId>, st: PageState, pages: seq<Page>, p: int)
    requires Distinct(order) && Exchange(order, st, pages) && st.incomplete && ResumesAt(order, st.after, p)
    ensures pages != [] && Exchange(order, Next(st, pages[0]), pages[1..])
    ensures var page, q := pages[0], p + |pages[0].txs|;
            && 0 <= p <= q <= |order| && page.txs == order[p..q]
            && (if page.incomplete then ResumesAt(order, Next(st, page).after, if page.txs == [] then 0 else q)
                 else q == |order|)
  {
  }

  lemma {:induction false} ExchangeYields(order: seq<ShortTxId>, st: PageState, pages: seq<Page>, p: int)
    requires Distinct(order) && Exchange(order, st, pages)
    requires if st.incomplete then ResumesAt(order, st.after, p) else p == |order|
    ensures |Flatten(pages)| >= |order| - p
    ensures if NeverStalls(st, pages) then Flatten(pages) == order[p..] else |Flatten(pages)| > |order| - p
    decreases |pages|
  {
    if st.incomplete {
      hide Distinct, Exchange;
      PageStep(order, st, pages, p);
      var page, q := pages[0], p + |pages[0].txs|;
      var restart := page.txs == [] && page.incomplete;
      ExchangeYields(order, Next(st, page), pages[1..], if restart then 0 else q);
      assert order[p..] == order[p..q] + order[q..];
    }
  }

  /**
    * The whole stream lists the order the server keeps exactly when the server never sends an
    * empty page marked incomplete after the first transaction: such a page makes the reader
    * forget its position and start over.
    */
  lemma {:induction false} PagedStreamIsOrder(order: seq<ShortTxId>, pages: seq<Page>)
    requires Distinct(order) && Exchange(order, START, pages)
    ensures Flatten(pages) == order <==> NeverStalls(START, pages)
  {
    ExchangeYields(order, START, pages, 0);
    assert order[0..] == order;
  }

  /** A never-stalling exchange is finite: an unfinished one has at most one page per transaction. */
  lemma {:induction false} ExchangeEnds(order: seq<ShortTxId>, st: PageState, pages: seq<Page>, p: int)
    requires Distinct(order) && Unfinished(order, st, pages) && ResumesAt(order, st.after, p)
    ensures |pages| <= |order| - p
    decreases |pages|
  {
    if pages != [] {
      var page := pages[0];
      var p' :| ResumesAt(order, st.after, p') && Answers(order, p', Count(st.exp), page);
      assert p' == p;
      ExchangeEnds(order, Next(st, page), pages[1..], p + |page.txs|);
    }
  }

  /** The first pages of an exchange, every one of them non-empty and incomplete. */
  ghost predicate Unfinished(order: seq<ShortTxId>, st: PageState, pages: seq<Page>)
    decreases |pages|
  {
    pages != [] ==>
      && pages[0].incomplete && pages[0].txs != []
      && (exists p :: ResumesAt(order, st.after, p) && Answers(order, p, Count(st.exp), pages[0]))
      && Unfinished(order, Next(st, pages[0]), pages[1..])
  }

  /** Both directions of a block, read completely. */
  ghost predicate ReadBothWays(block: seq<ShortTxId>, fwd: seq<Page>, rev: seq<Page>) {
    && Exchange(block, START, fwd) && NeverStalls(START, fwd)
    && Exchange(Reverse(block), START, rev) && NeverStalls(START, rev)
  }

  lemma {:induction false} BothWays(block: seq<ShortTxId>, fwd: seq<Page>, rev: seq<Page>)
    requires Distinct(block) && ReadBothWays(block, fwd, rev)
    ensures Flatten(fwd) == block && Flatten(rev) == Reverse(block)
  {
    PagedStreamIsOrder(block, fwd);
    PagedStreamIsOrder(Reverse(block), rev);
  }

  // -------------------------------------------------------- merged streams

  /**
    * `i` items of the forward and `j` of the reverse stream have been taken, and `last` remembers the
    * latest of each.
    */
  ghost predicate Remembers<T>(keys: seq<T>, i: int, j: int, last: map<bool, T>) {
    && 0 <= i && 0 <= j && i + j <= |keys|
    && (false in last <==> i > 0) && (i > 0 ==> last[false] == keys[i - 1])
    && (true in last <==> j > 0) && (j > 0 ==> last[true] == keys[|keys| - j])
  }

  /** What has been yielded: the first `i` and the last `j` transactions. */
  ghost predicate Taken(block: seq<ShortTxId>, i: int, j: int, out: seq<ShortTxId>) {
    && 0 <= i && 0 <= j && i + j <= |block|
    && multiset(out) == multiset(block[..i]) + multiset(block[|block| - j..])
  }

  lemma {:induction false} TakenSoFar(block: seq<ShortTxId>, i: int, j: int, out: seq<ShortTxId>)
    requires Taken(block, i, j, out)
    ensures multiset(out) <= multiset(block)
    ensures i + j == |block| ==> multiset(out) == multiset(block)
  {
    var n := |block|;
    assert block == block[..i] + block[i..n - j] + block[n - j..];
    if i + j == n {
      assert block == block[..i] + block[n - j..];
    }
  }

  lemma {:induction false} TakeOne(block: seq<ShortTxId>, i: int, j: int, out: seq<ShortTxId>, key: bool, tx: ShortTxId)
    requires Taken(block, i, j, out) && i + j < |block|
    requires tx == if key then block[|block| - 1 - j] else block[i]
    ensures Taken(block, if key then i else i + 1, if key then j + 1 else j, out + [tx])
  {
    Extended(block, i, j, key);
  }

  lemma {:induction false} Extended<T>(keys: seq<T>, i: int, j: int, key: bool)
    requires 0 <= i && 0 <= j && i + j < |keys|
    ensures key ==> keys[|keys| - j - 1..] == [keys[|keys| - 1 - j]] + keys[|keys| - j..]
    ensures !key ==> keys[..i + 1] == keys[..i] + [keys[i]]
  {
  }

  /** The next item of one direction is the latest of the other exactly when nothing is left between them. */
  lemma {:induction false} MeetAtTheEnd(f: seq<ShortTxId>, i: int, j: int, last: map<bool, ShortTxId>, key: bool,
                                        tx: ShortTxId)
    requires Distinct(f) && Remembers(f, i, j, last)
    requires if key then j < |f| && tx == f[|f| - 1 - j] else i < |f| && tx == f[i]
    ensures (!key in last && last[!key] == tx) <==> i + j == |f|
    ensures i + j < |f| ==> Remembers(f, if key then i else i + 1, if key then j + 1 else j, last[key := tx])
  {
  }

  /** The loop that merges the two directions; which one delivers next is arbitrary, and either may fail. */
  method MergeTxs(f: seq<ShortTxId>, r: seq<ShortTxId>) returns (out: seq<ShortTxId>, failed: bool)
    requires Distinct(f) && r == Reverse(f)
    ensures !failed ==> multiset(out) == multiset(f)
    ensures failed ==> multiset(out) <= multiset(f)
  {
    var i, j := 0, 0;
    var last: map<bool, ShortTxId> := map[];
    out := [];
    while i < |f| || j < |r|
      invariant Remembers(f, i, j, last) && Taken(f, i, j, out)
      decreases |f| - i + |r| - j
    {
      if * {
        TakenSoFar(f, i, j, out);
        return out, true;
      }
      var key :| (key ==> j < |r|) && (!key ==> i < |f|);
      var tx := if key then r[j] else f[i];
      MeetAtTheEnd(f, i, j, last, key, tx);
      if !key in last && last[!key] == tx {
        TakenSoFar(f, i, j, out);
        return out, false;
      }
      TakeOne(f, i, j, out, key, tx);
      last := last[key := tx];
      out := out + [tx];
      i, j := if key then i else i + 1, if key then j + 1 else j;
    }
    TakenSoFar(f, i, j, out);
    return out, false;
  }

  /**
    * `get_block_tx_stream_unordered`: whatever the page boundaries and the interleaving, every
    * transaction of the block is yielded exactly once; after a failure, none was yielded twice.
    */
  method TxStreamUnordered(fwd: seq<Page>, rev: seq<Page>, ghost block: seq<ShortTxId>)
    returns (out: seq<ShortTxId>, failed: bool)
    requires Distinct(block) && ReadBothWays(block, fwd, rev)
    ensures !failed ==> multiset(out) == multiset(block)
    ensures failed ==> multiset(out) <= multiset(block)
  {
    BothWays(block, fwd, rev);
    out, failed := MergeTxs(Flatten(fwd), Flatten(rev));
  }

  // ---------------------------------------------------------- account stream

  function Accounts(block: seq<ShortTxId>): (keys: seq<string>)
    ensures |keys| == |block| && forall i :: 0 <= i < |keys| ==> keys[i] == block[i].account
  {
    seq(|block|, i requires 0 <= i < |block| => block[i].account)
  }

  /** Equal keys stand together. */
  ghost predicate Contiguous<T(!new)>(keys: seq<T>) {
    forall i, j, k :: 0 <= i <= j <= k < |keys| && keys[i] == keys[k] ==> keys[j] == keys[i]
  }

  /** What has been yielded: the keys taken from both ends, each once. */
  ghost predicate Yielded<T(!new)>(keys: seq<T>, i: int, j: int, out: seq<T>)
    requires 0 <= i && 0 <= j && i + j <= |keys|
  {
    && Distinct(out)
    && forall a :: a in out <==> a in keys[..i] || a in keys[|keys| - j..]
  }

  /** The directions have met: the next key of one is the latest of the other, so all keys are out. */
  lemma {:induction false} MetInTheMiddle<T(!new)>(keys: seq<T>, i: int, j: int, out: seq<T>, last: map<bool, T>,
                                                   key: bool)
    requires Contiguous(keys) && Remembers(keys, i, j, last) && Yielded(keys, i, j, out)
    requires if key then j < |keys| else i < |keys|
    requires !key in last && last[!key] == if key then keys[|keys| - 1 - j] else keys[i]
    ensures forall a :: a in keys ==> a in out
  {
    var n := |keys|;
    forall a | a in keys ensures a in out {
      var p :| 0 <= p < n && keys[p] == a;
      if p < i {
        assert keys[..i][p] == a;
      } else if p >= n - j {
        assert keys[n - j..][p - (n - j)] == a;
      } else if key {
        assert keys[i - 1] == keys[n - 1 - j];
        assert keys[p] == keys[i - 1] == keys[..i][i - 1];
      } else {
        assert keys[i] == keys[n - j];
        assert keys[p] == keys[i] == keys[n - j..][0];
      }
    }
  }

  /** A key unlike both remembered ones is new. */
  lemma {:induction false} NewKey<T(!new)>(keys: seq<T>, i: int, j: int, out: seq<T>, last: map<bool, T>, key: bool)
    requires Contiguous(keys) && Remembers(keys, i, j, last) && Yielded(keys, i, j, out)
    requires i + j < |keys|
    requires var x := if key then keys[|keys| - 1 - j] else keys[i]; forall b :: b in last ==> last[b] != x
    ensures var x := if key then keys[|keys| - 1 - j] else keys[i];
            x !in out && Yielded(keys, if key then i else i + 1, if key then j + 1 else j, out + [x])
  {
    var n := |keys|;
    var q := if key then n - 1 - j else i;
    var x := keys[q];
    assert forall p :: 0 <= p < i ==> keys[p] != x;
    assert forall p :: n - j <= p < n ==> keys[p] != x;
    Extended(keys, i, j, key);
  }

  /** A key equal to the direction's latest adds nothing. */
  lemma {:induction false} SameKey<T(!new)>(keys: seq<T>, i: int, j: int, out: seq<T>, last: map<bool, T>, key: bool)
    requires Remembers(keys, i, j, last) && Yielded(keys, i, j, out) && i + j < |keys|
    requires key in last && last[key] == if key then keys[|keys| - 1 - j] else keys[i]
    ensures Yielded(keys, if key then i else i + 1, if key then j + 1 else j, out)
  {
    var n := |keys|;
    Extended(keys, i, j, key);
    if key {
      assert keys[n - j..][0] == keys[n - 1 - j];
    } else {
      assert keys[..i][i - 1] == keys[i];
    }
  }

  method MergeAccounts(f: seq<ShortTxId>, r: seq<ShortTxId>) returns (out: seq<string>, failed: bool)
    requires Contiguous(Accounts(f)) && r == Reverse(f)
    ensures Distinct(out) && forall a :: a in out ==> a in Accounts(f)
    ensures !failed ==> forall a :: a in Accounts(f) ==> a in out
  {
    var i, j := 0, 0;
    var last: map<bool, string> := map[];
    out := [];
    ghost var keys := Accounts(f);
    while i < |f| || j < |r|
      invariant Remembers(keys, i, j, last)
      invariant Yielded(keys, i, j, out)
      decreases |f| - i + |r| - j
    {
      if * {
        return out, true;
      }
      var key :| (key ==> j < |r|) && (!key ==> i < |f|);
      var tx := if key then r[j] else f[i];
      assert tx.account == if key then keys[|keys| - 1 - j] else keys[i];
      if !key in last && last[!key] == tx.account {
        MetInTheMiddle(keys, i, j, out, last, key);
        return out, false;
      }
      assert i + j < |keys|;
      if key in last && last[key] == tx.account {
        SameKey(keys, i, j, out, last, key);
      } else {
        NewKey(keys, i, j, out, last, key);
        last := last[key := tx.account];
        out := out + [tx.account];
      }
      i, j := if key then i else i + 1, if key then j + 1 else j;
    }
    return out, false;
  }

  /** `get_accounts_in_block_stream`: every account of the block is yielded, and never twice. */
  method AccountStream(fwd: seq<Page>, rev: seq<Page>, ghost block: seq<ShortTxId>)
    returns (out: seq<string>, failed: bool)
    requires Distinct(block) && Contiguous(Accounts(block)) && ReadBothWays(block, fwd, rev)
    ensures Distinct(out) && forall a :: a in out ==> a in Accounts(block)
    ensures !failed ==> forall a :: a in Accounts(block) ==> a in out
  {
    BothWays(block, fwd, rev);
    out, failed := MergeAccounts(Flatten(fwd), Flatten(rev));
  }
}
