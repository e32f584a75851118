/**
  * Decimal and hexadecimal text. Where the length of a text matters it is its length in UTF-8
  * bytes: a character then stands for one byte.
  */
module Numerals {
  import opened Prelude
  import opened Bytes

  // ---------------------------------------------------------------- decimal

  function DigitChar(d: nat): char
    requires d < 10
  {
    '0' + d as char
  }

  predicate IsDigit(c: char) {
    '0' <= c <= '9'
  }

  function Decimal(n: nat): (s: string)
    ensures s != ""
  {
    if n < 10 then [DigitChar(n)] else Decimal(n / 10) + [DigitChar(n % 10)]
  }

  /** `None` if there is a character other than a digit. */
  function DecimalValue(s: string): (v: Option<nat>)
    ensures v.Some? <==> forall i :: 0 <= i < |s| ==> IsDigit(s[i])
  {
    if s == "" then Some(0)
    else
      var high, c := DecimalValue(s[..|s| - 1]), s[|s| - 1];
      if high.None? || !IsDigit(c) then None else Some(10 * high.value + (c - '0') as nat)
  }

  lemma {:induction false} DecimalRoundTrip(n: nat)
    ensures DecimalValue(Decimal(n)) == Some(n)
  {
    if n >= 10 {
      DecimalRoundTrip(n / 10);
      var s := Decimal(n);
      assert s[..|s| - 1] == Decimal(n / 10);
    } else {
      assert [DigitChar(n)][..0] == [];
    }
  }

  function PrintInt(w: int): string {
    if w < 0 then "-" + Decimal(-w) else Decimal(w)
  }

  function InI32(v: int): Option<int> {
    if -(P31 as int) <= v < P31 then Some(v) else None
  }

  /** `str::parse::<i32>`: an optional sign, at least one digit, a value in range. */
  function ParseInt(s: string): Option<int> {
    if s == "" then None
    else
      var digits := if s[0] == '-' || s[0] == '+' then s[1..] else s;
      var v := DecimalValue(digits);
      if digits == "" || v.None? then None else InI32(if s[0] == '-' then 0 - v.value else v.value)
  }

  lemma {:induction false} IntRoundTrip(w: int)
    requires InI32(w).Some?
    ensures ParseInt(PrintInt(w)) == Some(w) && ':' !in PrintInt(w)
  {
    var s, digits := PrintInt(w), Decimal(if w < 0 then -w else w);
    DecimalRoundTrip(if w < 0 then -w else w);
    assert forall i :: 0 <= i < |digits| ==> IsDigit(digits[i]);
    if w < 0 {
      assert s[1..] == digits;
    }
  }

  // ------------------------------------------------------------ hexadecimal

  function HexDigit(c: char): (d: Option<nat>)
    ensures d.Some? ==> d.value < 16
  {
    if '0' <= c <= '9' then Some(c as int - '0' as int)
    else if 'a' <= c <= 'f' then Some(c as int - 'a' as int + 10)
    else if 'A' <= c <= 'F' then Some(c as int - 'A' as int + 10)
    else None
  }

  function HexChar(d: nat): (c: char)
    requires d < 16
    ensures HexDigit(c) == Some(d) && c != '_' && c != '+'
  {
    if d < 10 then '0' + d as char else 'a' + (d - 10) as char
  }

  /** `None` if there is a character other than a hexadecimal digit. */
  function HexValue(s: string): (v: Option<nat>)
    ensures v.Some? <==> forall i :: 0 <= i < |s| ==> HexDigit(s[i]).Some?
  {
    if s == "" then Some(0)
    else
      var high, d := HexValue(s[..|s| - 1]), HexDigit(s[|s| - 1]);
      if high.None? || d.None? then None else Some(16 * high.value + d.value)
  }

  function HexEncode(bs: seq<Byte>): (s: string)
    ensures |s| == 2 * |bs|
  {
    if bs == [] then []
    else
      var b := bs[|bs| - 1];
      HexEncode(bs[..|bs| - 1]) + [HexChar(b / 16), HexChar(b % 16)]
  }

  function HexDecode(s: string): Option<seq<Byte>> {
    if s == "" then Some([])
    else if |s| == 1 then None
    else
      var bs, hi, lo := HexDecode(s[..|s| - 2]), HexDigit(s[|s| - 2]), HexDigit(s[|s| - 1]);
      if bs.None? || hi.None? || lo.None? then None else Some(bs.value + [16 * hi.value + lo.value])
  }

  lemma {:induction false} HexRoundTrip(bs: seq<Byte>)
    ensures HexDecode(HexEncode(bs)) == Some(bs)
  {
    hide HexChar, HexDigit;
    if bs != [] {
      var init, b := bs[..|bs| - 1], bs[|bs| - 1];
      HexRoundTrip(init);
      var s := HexEncode(bs);
      assert s[..|s| - 2] == HexEncode(init);
      assert init + [b] == bs;
    }
  }

  // -------------------------------------------------------------- split_once

  function Find(s: string, c: char): (i: nat)
    ensures i <= |s| && c !in s[..i] && (i < |s| ==> s[i] == c)
  {
    if s == "" then 0
    else
      var i := Find(s[..|s| - 1], c);
      assert s[..|s| - 1][..i] == s[..i];
      if i < |s| - 1 || s[|s| - 1] == c then i else |s|
  }

  lemma {:induction false} FindFirst(a: string, c: char, b: string)
    requires c !in a
    ensures Find(a + [c] + b, c) == |a|
  {
    var s := a + [c] + b;
    assert s[|a|] == c && forall i :: 0 <= i < |a| ==> s[i] == a[i];
  }
}
