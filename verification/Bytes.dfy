/** Bytes, little-endian words, and the bit operations the codecs apply to them. */
module Bytes {
  import opened Bits

  type Byte = x: nat | x < 256

  const P31: nat := 0x8000_0000
  const U32: nat := 0x1_0000_0000

  // ------------------------------------------------------------ arithmetic

  lemma {:induction false} MulMonotone(m: nat, a: int, b: int)
    requires a <= b
    ensures m * a <= m * b
  {
    assert m * b - m * a == m * (b - a);
  }

  /** A quotient and a remainder in range are the quotient and the remainder. */
  lemma {:induction false} DivModUnique(x: int, m: int, q: int, r: int)
    requires m > 0 && x == m * q + r && 0 <= r < m
    ensures x / m == q && x % m == r
  {
    var q' := x / m;
    assert x == m * q' + x % m;
    if q' < q {
      MulMonotone(m, q' + 1, q);
    } else if q < q' {
      MulMonotone(m, q + 1, q');
    }
  }

  /** A number modulo 256 * m, by its lowest byte and the rest. */
  lemma {:induction false} ModByByte(n: nat, m: nat)
    requires m > 0
    ensures n % (256 * m) == n % 256 + 256 * (n / 256 % m)
  {
    var q, r := n / 256 / m, n / 256 % m;
    assert n / 256 == m * q + r;
    Scale(m, q);
    assert n == (256 * m) * q + (256 * r + n % 256);
    assert 256 * r + n % 256 < 256 * m;
    DivModUnique(n, 256 * m, q, 256 * r + n % 256);
  }

  lemma {:induction false} Scale(m: nat, q: nat)
    ensures 256 * (m * q) == (256 * m) * q
  {
  }

  // --------------------------------------------------- little-endian words

  function Pow256(k: nat): (p: nat)
    ensures p >= 1
  {
    if k == 0 then 1 else 256 * Pow256(k - 1)
  }

  /** The low `k` bytes of a number, least significant first. */
  function LeBytes(n: nat, k: nat): (s: seq<Byte>)
    ensures |s| == k
  {
    if k == 0 then [] else [n % 256] + LeBytes(n / 256, k - 1)
  }

  function FromLe(s: seq<Byte>): nat {
    if s == [] then 0 else s[0] + 256 * FromLe(s[1..])
  }

  lemma {:induction false} LeRoundTrip(n: nat, k: nat)
    ensures FromLe(LeBytes(n, k)) == n % Pow256(k)
  {
    if k > 0 {
      LeRoundTrip(n / 256, k - 1);
      assert LeBytes(n, k)[1..] == LeBytes(n / 256, k - 1);
      ModByByte(n, Pow256(k - 1));
    }
  }

  // ---------------------------------------------------------- exclusive or

  function XorBits(a: nat, b: nat, n: nat): nat {
    if n == 0 then 0 else (a + b) % 2 + 2 * XorBits(a / 2, b / 2, n - 1)
  }

  lemma {:induction false} XorBitsBound(a: nat, b: nat, n: nat)
    ensures XorBits(a, b, n) < Pow2(n)
  {
    if n > 0 {
      XorBitsBound(a / 2, b / 2, n - 1);
    }
  }

  lemma {:induction false} XorBitsTwice(a: nat, b: nat, n: nat)
    requires a < Pow2(n)
    ensures XorBits(XorBits(a, b, n), b, n) == a
  {
    if n > 0 {
      XorBitsTwice(a / 2, b / 2, n - 1);
      XorStep((a + b) % 2, XorBits(a / 2, b / 2, n - 1));
      ParityTwice(a, b, XorBits(a / 2, b / 2, n - 1));
    }
  }

  lemma {:induction false} XorStep(bit: nat, rest: nat)
    requires bit < 2
    ensures (bit + 2 * rest) / 2 == rest
  {
  }

  lemma {:induction false} ParityTwice(a: nat, b: nat, rest: nat)
    ensures ((a + b) % 2 + 2 * rest + b) % 2 == a % 2
  {
    var q := (a + b) / 2;
    assert (a + b) % 2 + 2 * rest + b == a + 2 * (b + rest - q);
  }

  function Xor(a: Byte, b: Byte): Byte {
    XorBitsBound(a, b, 8);
    XorBits(a, b, 8)
  }

  lemma {:induction false} XorTwice(a: Byte, b: Byte)
    ensures Xor(Xor(a, b), b) == a
  {
    XorBitsTwice(a, b, 8);
  }

  // ------------------------------------------------------------- flag bits

  predicate HasBit(w: nat, k: nat) {
    if k == 0 then w % 2 == 1 else HasBit(w / 2, k - 1)
  }

  /** `w | (1 << k)`. */
  function SetBit(w: nat, k: nat): nat {
    if k == 0 then (if w % 2 == 1 then w else w + 1) else w % 2 + 2 * SetBit(w / 2, k - 1)
  }

  lemma {:induction false} SetBitHas(w: nat, k: nat, j: nat)
    ensures HasBit(SetBit(w, k), j) <==> j == k || HasBit(w, j)
  {
    if k > 0 && j > 0 {
      SetBitHas(w / 2, k - 1, j - 1);
    }
  }

  /** Dropping the bits from `n` on, as `& (2^n - 1)` does, leaves the lower ones. */
  lemma {:induction false} MaskedHas(w: nat, n: nat, k: nat)
    ensures HasBit(w % Pow2(n), k) <==> k < n && HasBit(w, k)
    decreases n
  {
    if n == 0 {
      ZeroHasNone(k);
    } else {
      var m := Pow2(n - 1);
      HalfOfMod(w, m);
      if k > 0 {
        MaskedHas(w / 2, n - 1, k - 1);
      }
    }
  }

  lemma {:induction false} ZeroHasNone(k: nat)
    ensures !HasBit(0, k)
  {
    if k > 0 {
      ZeroHasNone(k - 1);
    }
  }

  lemma {:induction false} HalfOfMod(w: nat, m: nat)
    requires m > 0
    ensures w % (2 * m) / 2 == w / 2 % m && w % (2 * m) % 2 == w % 2
  {
    var q, r := w / 2 / m, w / 2 % m;
    assert w / 2 == m * q + r;
    assert 2 * (m * q) == (2 * m) * q;
    DivModUnique(w, 2 * m, q, 2 * r + w % 2);
  }
}
