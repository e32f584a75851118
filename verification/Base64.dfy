/** Regrouping bits, and the base64 digits of RFC 4648, sections 4 and 5. */
module Base64 {
  import opened Prelude
  import opened Bits

  // --------------------------------------------------------------- grouping

  /** `k` groups of `n` bits. */
  function Size(n: nat, k: nat): nat {
    if k == 0 then 0 else Size(n, k - 1) + n
  }

  lemma {:induction false} SizeGrows(n: nat, j: nat, k: nat)
    requires j <= k
    ensures Size(n, j) <= Size(n, k)
  {
    if j < k {
      SizeGrows(n, j, k - 1);
    }
  }

  lemma {:induction false} SizeIs(k: nat)
    ensures Size(8, k) == 8 * k && Size(6, k) == 6 * k
  {
    if k > 0 {
      SizeIs(k - 1);
    }
  }

  /** Groups of `n` bits each. */
  predicate Even(n: nat, gs: seq<Bits>) {
    forall i :: 0 <= i < |gs| ==> |gs[i]| == n
  }

  function Flatten(n: nat, gs: seq<Bits>): (s: Bits)
    requires Even(n, gs)
    ensures |s| == Size(n, |gs|)
  {
    if gs == [] then [] else Flatten(n, gs[..|gs| - 1]) + gs[|gs| - 1]
  }

  function Chunks(n: nat, s: Bits, k: nat): (gs: seq<Bits>)
    requires |s| == Size(n, k)
    ensures |gs| == k && Even(n, gs)
    decreases k
  {
    if k == 0 then [] else Chunks(n, s[..|s| - n], k - 1) + [s[|s| - n..]]
  }

  lemma {:induction false} FlattenChunks(n: nat, s: Bits, k: nat)
    requires |s| == Size(n, k)
    ensures Flatten(n, Chunks(n, s, k)) == s
    decreases k
  {
    if k > 0 {
      FlattenChunks(n, s[..|s| - n], k - 1);
      assert Chunks(n, s, k)[..k - 1] == Chunks(n, s[..|s| - n], k - 1);
    }
  }

  lemma {:induction false} ChunksFlatten(n: nat, gs: seq<Bits>)
    requires Even(n, gs)
    ensures Chunks(n, Flatten(n, gs), |gs|) == gs
  {
    if gs != [] {
      var s, init := Flatten(n, gs), gs[..|gs| - 1];
      ChunksFlatten(n, init);
      assert s[..|s| - n] == Flatten(n, init) && s[|s| - n..] == gs[|gs| - 1];
    }
  }

  lemma {:induction false} FlattenSplit(n: nat, a: seq<Bits>, b: seq<Bits>)
    requires Even(n, a) && Even(n, b)
    ensures Flatten(n, a + b) == Flatten(n, a) + Flatten(n, b)
  {
    if b == [] {
      assert a + b == a;
    } else {
      var init, last := b[..|b| - 1], b[|b| - 1];
      FlattenSplit(n, a, init);
      assert (a + b)[..|a + b| - 1] == a + init && (a + b)[|a + b| - 1] == last;
      assert Flatten(n, a) + Flatten(n, init) + last == Flatten(n, a) + (Flatten(n, init) + last);
    }
  }

  /** Two group strings that differ at one place differ only in that group's bits. */
  lemma {:induction false} FlattenLocal(n: nat, a: seq<Bits>, b: seq<Bits>, at: nat)
    requires Even(n, a) && Even(n, b)
    requires |a| == |b| && at < |a| && forall i :: 0 <= i < |a| && i != at ==> a[i] == b[i]
    ensures forall i :: 0 <= i < Size(n, |a|) && !(Size(n, at) <= i < Size(n, at) + n) ==>
              Flatten(n, a)[i] == Flatten(n, b)[i]
  {
    var k := |a| - 1;
    if at < k {
      SizeGrows(n, at + 1, k);
      FlattenLocal(n, a[..k], b[..k], at);
    } else {
      assert a[..k] == b[..k];
    }
  }

  // ----------------------------------------------------------------- values

  predicate Below(n: nat, vs: seq<nat>) {
    forall i :: 0 <= i < |vs| ==> vs[i] < Pow2(n)
  }

  /** Each value as its `n` bits. */
  function BitsOf(n: nat, vs: seq<nat>): (gs: seq<Bits>)
    ensures |gs| == |vs| && Even(n, gs)
    ensures forall i :: 0 <= i < |vs| ==> gs[i] == Low(vs[i], n)
  {
    seq(|vs|, i requires 0 <= i < |vs| => Low(vs[i], n))
  }

  function ValuesOf(n: nat, gs: seq<Bits>): (vs: seq<nat>)
    requires Even(n, gs)
    ensures |vs| == |gs| && forall i :: 0 <= i < |gs| ==> vs[i] == Value(gs[i])
  {
    seq(|gs|, i requires 0 <= i < |gs| => Value(gs[i]))
  }

  lemma {:induction false} ValuesBack(n: nat, vs: seq<nat>)
    requires Below(n, vs)
    ensures ValuesOf(n, BitsOf(n, vs)) == vs
  {
    forall i | 0 <= i < |vs| ensures ValuesOf(n, BitsOf(n, vs))[i] == vs[i] {
      ValueOfLow(vs[i], n);
    }
  }

  lemma {:induction false} BitsBack(n: nat, gs: seq<Bits>)
    requires Even(n, gs)
    ensures BitsOf(n, ValuesOf(n, gs)) == gs && Below(n, ValuesOf(n, gs))
  {
    forall i | 0 <= i < |gs| ensures BitsOf(n, ValuesOf(n, gs))[i] == gs[i] && Value(gs[i]) < Pow2(n) {
      LowOfValue(gs[i]);
      ValueBound(gs[i]);
    }
  }

  /** A string of `n`-bit values as one bit string, and back. */
  function Ungroup(n: nat, vs: seq<nat>): (s: Bits)
    ensures |s| == Size(n, |vs|)
  {
    Flatten(n, BitsOf(n, vs))
  }

  function Groups(n: nat, s: Bits, k: nat): (vs: seq<nat>)
    requires |s| == Size(n, k)
    ensures |vs| == k
  {
    ValuesOf(n, Chunks(n, s, k))
  }

  lemma {:induction false} UngroupGroups(n: nat, s: Bits, k: nat)
    requires |s| == Size(n, k)
    ensures Ungroup(n, Groups(n, s, k)) == s && Below(n, Groups(n, s, k))
  {
    BitsBack(n, Chunks(n, s, k));
    FlattenChunks(n, s, k);
  }

  lemma {:induction false} GroupsUngroup(n: nat, vs: seq<nat>)
    requires Below(n, vs)
    ensures Groups(n, Ungroup(n, vs), |vs|) == vs
  {
    ChunksFlatten(n, BitsOf(n, vs));
    ValuesBack(n, vs);
  }

  lemma {:induction false} UngroupSplit(n: nat, vs: seq<nat>, ws: seq<nat>)
    ensures Ungroup(n, vs + ws) == Ungroup(n, vs) + Ungroup(n, ws)
  {
    assert BitsOf(n, vs + ws) == BitsOf(n, vs) + BitsOf(n, ws);
    FlattenSplit(n, BitsOf(n, vs), BitsOf(n, ws));
  }

  // ----------------------------------------------------------------- digits

  /** The URL-safe digit of a value below 64. */
  function Digit(v: nat): char
    requires v < 64
  {
    if v < 26 then 'A' + v as char
    else if v < 52 then 'a' + (v - 26) as char
    else if v < 62 then '0' + (v - 52) as char
    else if v == 62 then '-'
    else '_'
  }

  /** `-` and `_` are read as `+` and `/`, then the standard alphabet applies. */
  function DigitValue(c: char): (r: Option<nat>)
    ensures r.Some? ==> r.value < 64
  {
    if 'A' <= c <= 'Z' then Some((c - 'A') as nat)
    else if 'a' <= c <= 'z' then Some((c - 'a') as nat + 26)
    else if '0' <= c <= '9' then Some((c - '0') as nat + 52)
    else if c == '+' || c == '-' then Some(62)
    else if c == '/' || c == '_' then Some(63)
    else None
  }

  /** The same digit in the URL-safe alphabet. */
  function UrlSafe(c: char): char {
    if c == '+' then '-' else if c == '/' then '_' else c
  }

  lemma {:induction false} DigitRoundTrip(v: nat, c: char)
    requires v < 64
    ensures DigitValue(Digit(v)) == Some(v)
    ensures DigitValue(c).Some? ==> Digit(DigitValue(c).value) == UrlSafe(c)
  {
  }

  function Digits(vs: seq<nat>): (s: string)
    requires forall i :: 0 <= i < |vs| ==> vs[i] < 64
    ensures |s| == |vs| && forall i :: 0 <= i < |vs| ==> s[i] == Digit(vs[i])
  {
    seq(|vs|, i requires 0 <= i < |vs| => Digit(vs[i]))
  }

  /** Values of the digits; `None` if a character is not a digit. */
  function DigitValues(s: string): (r: Option<seq<nat>>)
    ensures r.Some? <==> forall i :: 0 <= i < |s| ==> DigitValue(s[i]).Some?
    ensures r.Some? ==> |r.value| == |s| && forall i :: 0 <= i < |s| ==> DigitValue(s[i]) == Some(r.value[i])
  {
    if s == [] then Some([])
    else
      var r := DigitValues(s[..|s| - 1]);
      var v := DigitValue(s[|s| - 1]);
      if r.None? || v.None? then None else Some(r.value + [v.value])
  }
}
