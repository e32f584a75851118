/** Tag strings such as `$01`, `#8_` or `0x1c`, per the constructor section of the TL-B language. */
module Tags {
  import opened Prelude
  import opened Bits
  import opened Numerals

  datatype TagFormat = Binary | Hex

  datatype TagValue = TagValue(bits: Bits, format: TagFormat)

  /** `ShiftOverflow` is the panic of `val >> i` for a hex tag of more than 16 digits. */
  datatype TagError = BadPrefix | BadBinaryDigit | BadHex | ShiftOverflow

  // ----------------------------------------------------------- digit strings

  /** `from_str_radix(digits, 16)` for words of `w` bits: a leading plus sign is accepted. */
  function ParseWord(digits: string, w: nat): Option<nat> {
    var d := if |digits| > 0 && digits[0] == '+' then digits[1..] else digits;
    if d == "" then None
    else match HexValue(d)
      case None => None
      case Some(v) => if v >= Pow2(w) then None else Some(v)
  }

  /** The digits as one word of `w` bits, cut into four bits per digit. */
  function HexBits(digits: string, w: nat): Result<Bits, TagError> {
    if digits == "" then Ok([])
    else match ParseWord(digits, w)
      case None => Err(BadHex)
      case Some(v) => if 4 * |digits| > w then Err(ShiftOverflow) else Ok(Low(v, 4 * |digits|))
  }

  function BinaryBits(s: string): (b: Option<Bits>)
    ensures b.Some? ==> |b.value| == |s| && forall i :: 0 <= i < |s| ==> s[i] == if b.value[i] then '1' else '0'
    ensures b.None? ==> exists i :: 0 <= i < |s| && s[i] !in "01"
  {
    if s == "" then Some([])
    else
      var n := |s| - 1;
      match BinaryBits(s[..n])
      case None => None
      case Some(b) => if s[n] == '0' then Some(b + [false]) else if s[n] == '1' then Some(b + [true]) else None
  }

  function DigitBits(format: TagFormat, digits: string): Result<Bits, TagError> {
    match format
    case Binary => (match BinaryBits(digits) case Some(b) => Ok(b) case None => Err(BadBinaryDigit))
    case Hex => HexBits(digits, 64)
  }

  // ------------------------------------------------------------- the parser

  /** Trailing zeros, then one trailing one, removed. */
  function Unpad(b: Bits): Bits {
    if b == [] then [] else if b[|b| - 1] then b[..|b| - 1] else Unpad(b[..|b| - 1])
  }

  function Split(s: string): Option<(TagFormat, string)> {
    if "0b" <= s then Some((Binary, s[2..]))
    else if "$" <= s then Some((Binary, s[1..]))
    else if "0x" <= s then Some((Hex, s[2..]))
    else if "#" <= s then Some((Hex, s[1..]))
    else None
  }

  predicate EndsWithUnderscore(s: string) {
    |s| > 0 && s[|s| - 1] == '_'
  }

  function TagOf(s: string): Result<TagValue, TagError> {
    match Split(s)
    case None => Err(BadPrefix)
    case Some((format, rest)) =>
      var padded := EndsWithUnderscore(rest);
      match DigitBits(format, if padded then rest[..|rest| - 1] else rest)
      case Err(e) => Err(e)
      case Ok(b) => Ok(TagValue(if padded then Unpad(b) else b, format))
  }

  /** `TagValue::parse_str`. */
  method ParseStr(s: string) returns (r: Result<TagValue, TagError>)
    ensures r == TagOf(s)
  {
    var split := Split(s);
    if split.None? {
      return Err(BadPrefix);
    }
    var (format, rest) := split.value;
    var digits, padded := rest, false;
    if EndsWithUnderscore(rest) {
      digits, padded := rest[..|rest| - 1], true;
    }
    var parsed := DigitBits(format, digits);
    if parsed.Err? {
      return Err(parsed.error);
    }
    var bits := parsed.value;
    if padded {
      while |bits| > 0 && !bits[|bits| - 1]
        invariant Unpad(bits) == Unpad(parsed.value)
        decreases |bits|
      {
        bits := bits[..|bits| - 1];
      }
      if |bits| > 0 {
        bits := bits[..|bits| - 1];
      }
    }
    return Ok(TagValue(bits, format));
  }

  /** `v << 1` on words of `w` bits: the bit shifted out is lost. */
  function Shl1(v: nat, w: nat): nat
    requires w > 0
  {
    if v >= Pow2(w - 1) then 2 * v - Pow2(w) else 2 * v
  }

  function Last(b: Bits, w: nat): Bits {
    if |b| <= w then b else b[|b| - w..]
  }

  /** The fold over words of `w` bits: the number denoted by the bits, by the last `w` of them when there are more. */
  method Fold(bits: Bits, w: nat) returns (v: nat)
    requires w > 0
    ensures v == Value(Last(bits, w))
  {
    hide Value, Last;
    FoldNone(bits, w);
    v := 0;
    for i := 0 to |bits|
      invariant v == Value(Last(bits[..i], w))
    {
      FoldStep(bits, i, w);
      v := Shl1(v, w) + Bit(bits[i]);
    }
    assert bits[..|bits|] == bits;
  }

  lemma {:induction false} FoldNone(bits: Bits, w: nat)
    ensures Value(Last(bits[..0], w)) == 0
  {
  }

  lemma {:induction false} FoldStep(bits: Bits, i: nat, w: nat)
    requires i < |bits| && w > 0
    ensures Value(Last(bits[..i + 1], w)) == Shl1(Value(Last(bits[..i], w)), w) + Bit(bits[i])
  {
    SlideWindow(bits[..i], bits[i], w);
    assert bits[..i + 1] == bits[..i] + [bits[i]];
  }

  lemma {:induction false} SlideWindow(b: Bits, bit: bool, w: nat)
    requires w > 0
    ensures Value(Last(b + [bit], w)) == Shl1(Value(Last(b, w)), w) + Bit(bit)
  {
    if |b| < w {
      Pow2Monotone(|b|, w - 1);
      ValueBound(b);
      ValueAppend(b, bit);
    } else {
      var win := Last(b, w);
      assert Last(b + [bit], w) == win[1..] + [bit];
      ShiftOut(win, bit);
    }
  }

  lemma {:induction false} ShiftOut(win: Bits, bit: bool)
    requires win != []
    ensures Value(win[1..] + [bit]) == Shl1(Value(win), |win|) + Bit(bit)
  {
    var tail := win[1..];
    ValueAppend(tail, bit);
    ValueBound(tail);
    ValueHead(win[0], tail);
    assert win == [win[0]] + tail;
  }

  /** `as_u64`. */
  method AsU64(tag: TagValue) returns (v: nat)
    ensures v == Value(Last(tag.bits, 64))
  {
    v := Fold(tag.bits, 64);
  }

  // ------------------------------------------------------------ round trips

  /** Unpadding recovers exactly what stands before the last one-bit. */
  lemma {:induction false} UnpadExact(b: Bits, x: Bits)
    ensures Unpad(b) == x <==> Padded(b, x) || (x == [] && b == Zeros(|b|))
    decreases |b|
  {
    if b != [] {
      var n := |b| - 1;
      if !b[n] {
        UnpadExact(b[..n], x);
      }
    }
  }

  /** `b` is `x`, a one and then only zeros. */
  predicate Padded(b: Bits, x: Bits) {
    x + [true] <= b && forall i :: |x| < i < |b| ==> !b[i]
  }

  lemma {:induction false} NibbleBound(d: Bits)
    requires |d| == 4
    ensures Value(d) < 16
  {
    ValueBound(d);
    Pow2Nibble(0);
  }

  /** The nibbles of a bit string, as hexadecimal digits. */
  function HexDigits(b: Bits): (s: string)
    requires |b| % 4 == 0
    ensures 4 * |s| == |b| && forall c :: c in s ==> HexDigit(c).Some? && c != '_' && c != '+'
  {
    if b == [] then ""
    else
      var n := |b| - 4;
      NibbleBound(b[n..]);
      HexDigits(b[..n]) + [HexChar(Value(b[n..]))]
  }

  lemma {:induction false} NoDigits()
    ensures HexValue("") == Some(Value([]))
  {
  }

  lemma {:induction false} NibbleValue(b: Bits, d: Bits)
    requires |d| == 4
    ensures Value(b + d) == 16 * Value(b) + Value(d)
  {
    ValueConcat(b, d);
    Pow2Nibble(0);
  }

  predicate AllHex(s: string) {
    forall c :: c in s ==> HexDigit(c).Some?
  }

  /** The four bits of each digit, of either case, most significant first. */
  function Nibbles(s: string): (b: Bits)
    requires AllHex(s)
    ensures |b| == 4 * |s|
  {
    if s == "" then []
    else
      assert s[|s| - 1] in s;
      Nibbles(s[..|s| - 1]) + Low(HexDigit(s[|s| - 1]).value, 4)
  }

  lemma {:induction false} NibblesValue(s: string)
    requires AllHex(s)
    ensures HexValue(s) == Some(Value(Nibbles(s)))
  {
    hide Value, Low;
    if s == "" {
      NoDigits();
    } else {
      var n := |s| - 1;
      assert s[n] in s;
      var d := HexDigit(s[n]).value;
      NibblesValue(s[..n]);
      NibbleOfDigit(d);
      NibbleValue(Nibbles(s[..n]), Low(d, 4));
    }
  }

  lemma {:induction false} NibbleOfDigit(d: nat)
    requires d < 16
    ensures Value(Low(d, 4)) == d
  {
    Pow2Nibble(0);
    ValueOfLow(d, 4);
  }

  lemma {:induction false} HexBitsAre(s: string, w: nat)
    requires AllHex(s) && 4 * |s| <= w
    ensures HexBits(s, w) == Ok(Nibbles(s))
  {
    var b := Nibbles(s);
    NibblesValue(s);
    ValueBound(b);
    Pow2Monotone(|b|, w);
    LowOfValue(b);
    if s != "" {
      assert s[0] in s;
    }
  }

  /**
    * A hex tag without underscore denotes the four bits of each of its digits, of either case;
    * with more than sixteen digits it is refused.
    */
  lemma {:induction false} HexTagBits(s: string)
    requires AllHex(s)
    ensures |s| <= 16 ==> TagOf("#" + s) == TagOf("0x" + s) == Ok(TagValue(Nibbles(s), Hex))
    ensures |s| > 16 ==> TagOf("#" + s).Err? && TagOf("0x" + s).Err?
  {
    if |s| <= 16 {
      HexBitsAre(s, 64);
    }
    SplitHex(s);
    assert !EndsWithUnderscore(s) by {
      if |s| > 0 { assert s[|s| - 1] in s; }
    }
  }

  lemma {:induction false} SplitHex(d: string)
    ensures Split("#" + d) == Some((Hex, d)) && Split("0x" + d) == Some((Hex, d))
  {
    assert ("#" + d)[1..] == d && ("0x" + d)[2..] == d;
    assert ("#" + d)[0] == '#' && ("0x" + d)[0] == '0' && ("0x" + d)[1] == 'x';
  }

  /** A hex tag, up to its digits. */
  lemma {:induction false} HexTag(rest: string)
    ensures TagOf("#" + rest) ==
            match DigitBits(Hex, if EndsWithUnderscore(rest) then rest[..|rest| - 1] else rest)
            case Err(e) => Err(e)
            case Ok(b) => Ok(TagValue(if EndsWithUnderscore(rest) then Unpad(b) else b, Hex))
  {
    SplitHex(rest);
  }

  /** With an underscore, the digits' trailing zeros and one 1 are dropped. */
  lemma {:induction false} UnderscoreTagBits(s: string)
    requires AllHex(s) && |s| <= 16
    ensures TagOf("#" + (s + "_")) == Ok(TagValue(Unpad(Nibbles(s)), Hex))
  {
    var rest := s + "_";
    HexTag(rest);
    assert EndsWithUnderscore(rest) && rest[..|rest| - 1] == s;
    HexBitsAre(s, 64);
  }

  lemma {:induction false} NibblesOfDigits(b: Bits)
    requires |b| % 4 == 0
    ensures AllHex(HexDigits(b)) && Nibbles(HexDigits(b)) == b
  {
    if b != [] {
      hide Value, Low;
      var n := |b| - 4;
      NibblesOfDigits(b[..n]);
      NibbleBound(b[n..]);
      LowOfValue(b[n..]);
      var d := HexDigits(b);
      assert d[..|d| - 1] == HexDigits(b[..n]);
      assert b[..n] + b[n..] == b;
    }
  }

  /** Every bit string has a hex tag: a one and zeros complete the last nibble, and `_` marks them. */
  lemma {:induction false} UnderscoreTagRoundTrip(x: Bits, b: Bits)
    requires |b| % 4 == 0 && |b| <= 64 && Padded(b, x)
    ensures TagOf("#" + (HexDigits(b) + "_")) == Ok(TagValue(x, Hex))
  {
    NibblesOfDigits(b);
    UnderscoreTagBits(HexDigits(b));
    UnpadExact(b, x);
  }
}
