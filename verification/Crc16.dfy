/**
  * CRC-16/XMODEM (polynomial 0x1021, initial value 0, nothing reflected, no final xor), one message bit at
  * a time. The register and the message are bit strings, most significant bit first.
  */
module Crc16 {
  import opened Bits

  const WIDTH: nat := 16

  type Reg = s: Bits | |s| == 16 witness seq(16, _ => false)

  function Poly(): Reg {
    [false, false, false, true, false, false, false, false, false, false, true, false, false, false, false, true]
  }

  function Xor(a: Bits, b: Bits): (r: Bits)
    requires |a| == |b|
    ensures |r| == |a| && forall i :: 0 <= i < |a| ==> r[i] == (a[i] != b[i])
  {
    seq(|a|, i requires 0 <= i < |a| => a[i] != b[i])
  }

  lemma {:induction false} XorZero(a: Bits)
    ensures Xor(Zeros(|a|), a) == a && Xor(a, Zeros(|a|)) == a
  {
  }

  lemma {:induction false} XorBack(a: Bits, b: Bits)
    requires |a| == |b|
    ensures Xor(Xor(a, b), b) == a
    ensures Xor(a, b) == Zeros(|a|) <==> a == b
  {
    if Xor(a, b) == Zeros(|a|) {
      forall i | 0 <= i < |a| ensures a[i] == b[i] {
        assert !Xor(a, b)[i];
      }
    }
  }

  function Shift(r: Reg): Reg {
    r[1..] + [false]
  }

  function Step(r: Reg, bit: bool): Reg {
    if r[0] != bit then Xor(Shift(r), Poly()) else Shift(r)
  }

  function Feed(r: Reg, m: Bits): Reg {
    if m == [] then r else Step(Feed(r, m[..|m| - 1]), m[|m| - 1])
  }

  function Crc(m: Bits): Reg {
    Feed(Zeros(WIDTH), m)
  }

  // -------------------------------------------------------------- linearity

  lemma {:induction false} StepLinear(r: Reg, s: Reg, a: bool, b: bool)
    ensures Step(Xor(r, s), a != b) == Xor(Step(r, a), Step(s, b))
  {
    assert Xor(Shift(r), Shift(s)) == Shift(Xor(r, s));
  }

  lemma {:induction false} FeedLinear(r: Reg, s: Reg, m: Bits, n: Bits)
    requires |m| == |n|
    ensures Feed(Xor(r, s), Xor(m, n)) == Xor(Feed(r, m), Feed(s, n))
  {
    if m != [] {
      var k := |m| - 1;
      assert Xor(m, n)[..k] == Xor(m[..k], n[..k]);
      FeedLinear(r, s, m[..k], n[..k]);
      StepLinear(Feed(r, m[..k]), Feed(s, n[..k]), m[k], n[k]);
    }
  }

  lemma {:induction false} FeedSplit(r: Reg, m: Bits, n: Bits)
    ensures Feed(r, m + n) == Feed(Feed(r, m), n)
  {
    if n == [] {
      assert m + n == m;
    } else {
      FeedSplit(r, m, n[..|n| - 1]);
      assert (m + n)[..|m + n| - 1] == m + n[..|n| - 1];
    }
  }

  // ---------------------------------------------------------------- residue

  /** A step on a zero bit loses nothing: only the zero register becomes zero. */
  lemma {:induction false} ZeroStep(r: Reg)
    ensures Step(r, false) == Zeros(WIDTH) <==> r == Zeros(WIDTH)
  {
    var s := Step(r, false);
    if s == Zeros(WIDTH) {
      assert !s[15];
      assert !r[0];
      forall i | 0 < i < 16 ensures !r[i] {
        assert s[i - 1] == Shift(r)[i - 1];
      }
    }
  }

  lemma {:induction false} ZerosKeep(r: Reg, n: nat)
    ensures Feed(r, Zeros(n)) == Zeros(WIDTH) <==> r == Zeros(WIDTH)
  {
    if n > 0 {
      assert Zeros(n)[..n - 1] == Zeros(n - 1);
      ZerosKeep(r, n - 1);
      ZeroStep(Feed(r, Zeros(n - 1)));
    }
  }

  /** Feeding the register its own leading bits shifts them out. */
  lemma {:induction false} OwnBits(r: Reg, k: nat)
    requires k <= WIDTH
    ensures Feed(r, r[..k]) == r[k..] + Zeros(k)
  {
    if k > 0 {
      assert r[..k][..k - 1] == r[..k - 1];
      OwnBits(r, k - 1);
      var s := Feed(r, r[..k - 1]);
      assert s[0] == r[k - 1];
      assert Shift(s) == r[k..] + Zeros(k);
    }
  }

  /** A register is cleared by exactly one 16-bit word: its own contents. */
  lemma {:induction false} ClearedIff(r: Reg, c: Reg)
    ensures Feed(r, c) == Zeros(WIDTH) <==> c == r
  {
    var d := Xor(r, c);
    XorBack(r, c);
    XorZero(c);
    assert c[..WIDTH] == c && c[WIDTH..] == [];
    OwnBits(c, WIDTH);
    assert [] + Zeros(WIDTH) == Zeros(WIDTH);
    FeedLinear(d, c, Zeros(WIDTH), c);
    XorZero(Feed(d, Zeros(WIDTH)));
    ZerosKeep(d, WIDTH);
  }

  /** A message carries its own checksum exactly when the whole of it divides. */
  lemma {:induction false} ResidueIff(m: Bits, c: Reg)
    ensures Crc(m + c) == Zeros(WIDTH) <==> c == Crc(m)
  {
    FeedSplit(Zeros(WIDTH), m, c);
    ClearedIff(Crc(m), c);
  }

  // ----------------------------------------------------------------- bursts

  /** `m` and `n` differ, and only within the 16 bits from `at`. */
  predicate Burst(m: Bits, n: Bits, at: nat) {
    && |m| == |n| && m != n
    && forall i :: 0 <= i < |m| && !(at <= i < at + WIDTH) ==> m[i] == n[i]
  }

  /** A non-zero word of at most 16 bits leaves a non-zero register. */
  lemma {:induction false} WordSeen(w: Bits)
    requires |w| <= WIDTH && w != Zeros(|w|)
    ensures Crc(w) != Zeros(WIDTH)
  {
    var rest := Zeros(WIDTH - |w|);
    var padded: Reg := w + rest;
    FeedSplit(Zeros(WIDTH), w, rest);
    ClearedIff(Zeros(WIDTH), padded);
    ZerosKeep(Crc(w), WIDTH - |w|);
    assert padded[..|w|] == w && Zeros(WIDTH)[..|w|] == Zeros(|w|);
  }

  /** Two messages that differ by a burst never both divide. */
  lemma {:induction false} BurstDetected(m: Bits, n: Bits, at: nat)
    requires Burst(m, n, at) && Crc(m) == Zeros(WIDTH)
    ensures Crc(n) != Zeros(WIDTH)
  {
    var lo := if at < |m| then at else |m|;
    var hi := if at + WIDTH < |m| then at + WIDTH else |m|;
    DifferenceShape(m, n, lo, hi);
    ErrorSeen(Xor(m, n), lo, hi);
    FeedLinear(Zeros(WIDTH), Zeros(WIDTH), m, n);
    XorZero(Zeros(WIDTH));
    XorZero(Crc(n));
  }

  lemma {:induction false} DifferenceShape(m: Bits, n: Bits, lo: nat, hi: nat)
    requires |m| == |n| && m != n && lo <= hi <= |m|
    requires forall i :: 0 <= i < |m| && !(lo <= i < hi) ==> m[i] == n[i]
    ensures var e := Xor(m, n); e[..lo] == Zeros(lo) && e[hi..] == Zeros(|m| - hi) && e[lo..hi] != Zeros(hi - lo)
  {
    var e := Xor(m, n);
    var i :| 0 <= i < |m| && m[i] != n[i];
    assert e[lo..hi][i - lo] && !Zeros(hi - lo)[i - lo];
  }

  /** A non-zero error within at most 16 bits leaves a non-zero remainder. */
  lemma {:induction false} ErrorSeen(e: Bits, lo: nat, hi: nat)
    requires lo <= hi <= |e| && hi - lo <= WIDTH
    requires e[..lo] == Zeros(lo) && e[hi..] == Zeros(|e| - hi) && e[lo..hi] != Zeros(hi - lo)
    ensures Crc(e) != Zeros(WIDTH)
  {
    hide Feed;
    var w := e[lo..hi];
    assert e == (Zeros(lo) + w) + Zeros(|e| - hi);
    FeedSplit(Zeros(WIDTH), Zeros(lo) + w, Zeros(|e| - hi));
    FeedSplit(Zeros(WIDTH), Zeros(lo), w);
    ZerosKeep(Zeros(WIDTH), lo);
    WordSeen(w);
    ZerosKeep(Crc(w), |e| - hi);
  }
}
