/** Most-significant-bit-first bit strings and the numbers they denote. */
module Bits {

  type Bits = seq<bool>

  function Pow2(n: nat): (p: nat)
    ensures p >= 1
  {
    if n == 0 then 1 else 2 * Pow2(n - 1)
  }

  function Bit(b: bool): (d: nat)
    ensures d <= 1
  {
    if b then 1 else 0
  }

  /** The fold `|a, b| (a << 1) | b`, on unbounded numbers. */
  function Value(s: Bits): nat {
    if s == [] then 0 else 2 * Value(s[..|s| - 1]) + Bit(s[|s| - 1])
  }

  lemma {:induction false} ValueBound(s: Bits)
    ensures Value(s) < Pow2(|s|)
  {
    if s != [] {
      ValueBound(s[..|s| - 1]);
    }
  }

  lemma {:induction false} ValueAppend(s: Bits, b: bool)
    ensures Value(s + [b]) == 2 * Value(s) + Bit(b)
  {
    assert (s + [b])[..|s|] == s;
  }

  /** On bit strings of one length, the number determines the bits. */
  lemma {:induction false} ValueInjective(s: Bits, t: Bits)
    requires |s| == |t| && Value(s) == Value(t)
    ensures s == t
    decreases |s|
  {
    if s != [] {
      var n := |s| - 1;
      ValueInjective(s[..n], t[..n]);
      assert s == s[..n] + [s[n]];
      assert t == t[..n] + [t[n]];
    }
  }

  function Zeros(n: nat): (s: Bits)
    ensures |s| == n
  {
    seq(n, _ => false)
  }

  /** `NBits<n>`: the low `n` bits of `v`, most significant first. */
  function Low(v: nat, n: nat): (s: Bits)
    ensures |s| == n
  {
    if n == 0 then [] else Low(v / 2, n - 1) + [v % 2 == 1]
  }

  lemma {:induction false} LowOfValue(s: Bits)
    ensures Low(Value(s), |s|) == s
  {
    if s != [] {
      LowOfValue(s[..|s| - 1]);
      assert s == s[..|s| - 1] + [s[|s| - 1]];
    }
  }

  lemma {:induction false} ValueOfLow(v: nat, n: nat)
    requires v < Pow2(n)
    ensures Value(Low(v, n)) == v
  {
    if n > 0 {
      ValueOfLow(v / 2, n - 1);
      ValueAppend(Low(v / 2, n - 1), v % 2 == 1);
    }
  }

  lemma {:induction false} Pow2Monotone(a: nat, b: nat)
    requires a <= b
    ensures Pow2(a) <= Pow2(b)
    decreases b
  {
    if a < b {
      Pow2Monotone(a, b - 1);
    }
  }

  lemma {:induction false} Pow2Nibble(n: nat)
    ensures Pow2(n + 4) == 16 * Pow2(n)
  {
    assert Pow2(n + 4) == 2 * Pow2(n + 3) && Pow2(n + 2) == 2 * Pow2(n + 1);
  }

  lemma {:induction false} ValueConcat(s: Bits, t: Bits)
    ensures Value(s + t) == Value(s) * Pow2(|t|) + Value(t)
  {
    if t == [] {
      assert s + t == s;
    } else {
      var n := |t| - 1;
      ValueConcat(s, t[..n]);
      assert s + t == (s + t[..n]) + [t[n]];
      ValueAppend(s + t[..n], t[n]);
      Double(Value(s), Pow2(n));
    }
  }

  lemma {:induction false} Double(a: nat, p: nat)
    ensures 2 * (a * p) == a * (2 * p)
  {
  }

  /** The leading bit carries the highest weight. */
  lemma {:induction false} ValueHead(b: bool, s: Bits)
    ensures Value([b] + s) == (if b then Pow2(|s|) else 0) + Value(s)
  {
    if s == [] {
      assert [b] + s == [] + [b];
      ValueAppend([], b);
    } else {
      var n := |s| - 1;
      ValueHead(b, s[..n]);
      assert [b] + s == ([b] + s[..n]) + [s[n]];
      ValueAppend([b] + s[..n], s[n]);
    }
  }
}
