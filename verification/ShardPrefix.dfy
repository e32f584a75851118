/** Shard ids as address prefixes: the bits above the lowest set bit, the sentinel. */
module ShardPrefix {
  import opened Prelude
  import opened Bits

  const WORD: nat := 64
  const ADDRESS: nat := 256

  /** A `u64` by its bits, most significant first. */
  type Word = s: Bits | |s| == 64 witness seq(64, _ => false)

  type Address = s: Bits | |s| == 256 witness seq(256, _ => false)

  function TrailingZeros(s: Bits): (n: nat)
    ensures n <= |s|
  {
    if s == [] || s[|s| - 1] then 0 else 1 + TrailingZeros(s[..|s| - 1])
  }

  /** `None` is the panic: the end of the slice, `64 - 64 - 1`, is below zero. */
  function FromShardId(id: Word): (r: Option<Bits>)
    ensures r.Some? ==> |r.value| < WORD
  {
    var idx := TrailingZeros(id);
    if idx == WORD then None else Some(id[..WORD - idx - 1])
  }

  predicate Matches(prefix: Bits, address: Address) {
    prefix <= address
  }

  /** The id of a prefix: the prefix, the sentinel and zeros. */
  function IdOf(prefix: Bits): Word
    requires |prefix| < WORD
  {
    prefix + [true] + Zeros(WORD - |prefix| - 1)
  }

  lemma {:induction false} TrailingZerosAre(s: Bits)
    ensures var n := TrailingZeros(s); s[|s| - n..] == Zeros(n) && (n < |s| ==> s[|s| - n - 1])
  {
    if s != [] && !s[|s| - 1] {
      TrailingZerosAre(s[..|s| - 1]);
      var n := TrailingZeros(s[..|s| - 1]);
      assert s[|s| - n - 1..] == s[..|s| - 1][|s| - 1 - n..] + [false];
    }
  }

  lemma {:induction false} TrailingZerosUnique(s: Bits, n: nat)
    requires n < |s| && s[|s| - n..] == Zeros(n) && s[|s| - n - 1]
    ensures TrailingZeros(s) == n
  {
    if n > 0 {
      assert !s[|s| - 1] by { assert !s[|s| - n..][n - 1]; }
      assert s[..|s| - 1][|s| - n..] == s[|s| - n..][..n - 1];
      TrailingZerosUnique(s[..|s| - 1], n - 1);
    }
  }

  /** Decoding an id undoes `IdOf`. */
  lemma {:induction false} PrefixOfId(prefix: Bits)
    requires |prefix| < WORD
    ensures FromShardId(IdOf(prefix)) == Some(prefix)
  {
    var id := IdOf(prefix);
    var n := WORD - |prefix| - 1;
    assert id[|id| - n..] == Zeros(n);
    TrailingZerosUnique(id, n);
    assert id[..WORD - n - 1] == prefix;
  }

  /** Every id but zero is the id of the prefix it decodes to, and zero alone panics. */
  lemma {:induction false} IdOfPrefix(id: Word)
    ensures FromShardId(id).None? <==> id == Zeros(WORD)
    ensures FromShardId(id).Some? ==> IdOf(FromShardId(id).value) == id
  {
    TrailingZerosAre(id);
    var n := TrailingZeros(id);
    if n < WORD {
      var prefix := id[..WORD - n - 1];
      assert id == prefix + [id[WORD - n - 1]] + id[WORD - n..];
      assert id[WORD - n - 1] && !Zeros(WORD)[WORD - n - 1];
    } else {
      assert id[|id| - n..] == id;
    }
  }

  /** Two shards share an address exactly when one prefix extends the other. */
  lemma {:induction false} SharedAddressIff(a: Word, b: Word)
    requires FromShardId(a).Some? && FromShardId(b).Some?
    ensures (exists x: Address :: Matches(FromShardId(a).value, x) && Matches(FromShardId(b).value, x))
        <==> FromShardId(a).value <= FromShardId(b).value || FromShardId(b).value <= FromShardId(a).value
  {
    var p, q := FromShardId(a).value, FromShardId(b).value;
    if p <= q || q <= p {
      var longer := if p <= q then q else p;
      var x: Address := longer + Zeros(ADDRESS - |longer|);
      assert Matches(p, x) && Matches(q, x);
    }
    forall x: Address | Matches(p, x) && Matches(q, x) ensures p <= q || q <= p {
      assert p == x[..|p|] && q == x[..|q|];
    }
  }

  /** Moving the sentinel down one bit: the two shards a shard splits into. */
  function Child(id: Word, right: bool): Word
    requires 0 < TrailingZeros(id) < WORD
  {
    var sentinel := WORD - TrailingZeros(id) - 1;
    id[sentinel := right][sentinel + 1 := true]
  }

  lemma {:induction false} ChildPrefix(id: Word, right: bool)
    requires 0 < TrailingZeros(id) < WORD
    ensures FromShardId(id).Some?
    ensures FromShardId(Child(id, right)) == Some(FromShardId(id).value + [right])
  {
    IdOfPrefix(id);
    var p := FromShardId(id).value;
    assert Child(id, right) == IdOf(p + [right]) by {
      forall k | 0 <= k < WORD ensures Child(id, right)[k] == IdOf(p + [right])[k] {
        assert id[k] == IdOf(p)[k];
      }
    }
    PrefixOfId(p + [right]);
  }

  /** The addresses of a shard are those of its two halves, and no address is in both. */
  lemma {:induction false} SplitHalves(id: Word, x: Address)
    requires 0 < TrailingZeros(id) < WORD
    ensures FromShardId(id).Some? && FromShardId(Child(id, false)).Some? && FromShardId(Child(id, true)).Some?
    ensures Matches(FromShardId(id).value, x) <==>
            Matches(FromShardId(Child(id, false)).value, x) || Matches(FromShardId(Child(id, true)).value, x)
    ensures !(Matches(FromShardId(Child(id, false)).value, x) && Matches(FromShardId(Child(id, true)).value, x))
  {
    ChildPrefix(id, false);
    ChildPrefix(id, true);
    var p := FromShardId(id).value;
    if p <= x {
      assert x[..|p| + 1] == p + [x[|p|]];
    }
    assert forall b :: (p + [b])[..|p|] == p && (p + [b])[|p|] == b;
  }

  // ------------------------------------------------------------ shard_ident

  /** `pfxBits` comes from a 6-bit field. */
  datatype ShardIdent = ShardIdent(pfxBits: nat, workchain: int, prefix: Word)

  predicate ValidIdent(s: ShardIdent) {
    s.pfxBits < 64
  }

  /** The prefix with the sentinel or-ed in at position `63 - pfxBits` from below. */
  function ShardId(s: ShardIdent): Word
    requires ValidIdent(s)
  {
    s.prefix[s.pfxBits := true]
  }

  /** An ident decodes to exactly its first `pfxBits` bits if and only if nothing is set below the sentinel. */
  lemma {:induction false} IdentPrefixIff(s: ShardIdent)
    requires ValidIdent(s)
    ensures FromShardId(ShardId(s)) == Some(s.prefix[..s.pfxBits])
       <==> s.prefix[s.pfxBits + 1..] == Zeros(WORD - s.pfxBits - 1)
  {
    var p, id := s.prefix[..s.pfxBits], ShardId(s);
    assert id == p + [true] + s.prefix[s.pfxBits + 1..];
    PrefixOfId(p);
    IdOfPrefix(id);
    if FromShardId(id) == Some(p) {
      assert id[s.pfxBits + 1..] == IdOf(p)[s.pfxBits + 1..];
      assert IdOf(p)[s.pfxBits + 1..] == Zeros(WORD - s.pfxBits - 1);
      assert id[s.pfxBits + 1..] == s.prefix[s.pfxBits + 1..];
    }
  }

  // ------------------------------------------------------- look-up by time

  /** The address a look-up by logical time is routed with: the shard id and zeros. */
  function LookUpAddress(shard: Word): Address {
    shard + Zeros(ADDRESS - WORD)
  }

  /** The look-up reaches its own shard, every shard above it and, of its two halves, only the right one. */
  lemma {:induction false} LookUpMatches(shard: Word, other: Word)
    requires FromShardId(shard).Some? && FromShardId(other).Some?
    ensures Matches(FromShardId(shard).value, LookUpAddress(shard))
    ensures FromShardId(other).value <= FromShardId(shard).value ==>
              Matches(FromShardId(other).value, LookUpAddress(shard))
    ensures 0 < TrailingZeros(shard) < WORD && other == Child(shard, true) ==>
              Matches(FromShardId(other).value, LookUpAddress(shard))
    ensures 0 < TrailingZeros(shard) < WORD && other == Child(shard, false) ==>
              !Matches(FromShardId(other).value, LookUpAddress(shard))
  {
    IdOfPrefix(shard);
    var p := FromShardId(shard).value;
    var x := LookUpAddress(shard);
    assert p <= shard <= x;
    if TrailingZeros(shard) > 0 {
      ChildPrefix(shard, true);
      ChildPrefix(shard, false);
      assert x[|p|];
      assert x[..|p| + 1] == p + [true];
      assert (p + [false])[|p|] == false;
    }
  }
}
