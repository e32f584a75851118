/** Smart-contract addresses: the raw form and the user-friendly form of TEP-2. */
module Address {
  import opened Prelude
  import opened Bits
  import opened Bytes
  import opened Base64
  import opened Numerals
  import C = Crc16

  datatype Address = Raw(workchain: int, data: seq<Byte>) | UserFriendly(flags: Byte, workchain: int, data: seq<Byte>)

  predicate Valid(a: Address) {
    |a.data| == 32 && InI32(a.workchain).Some?
  }

  // --------------------------------------------------------------- printing

  /** `as u8`, with 255 for the masterchain. */
  function WorkchainByte(w: int): Byte {
    if w == -1 then 255 else w % 256
  }

  function Payload(flags: Byte, w: int, data: seq<Byte>): seq<Byte> {
    [flags, WorkchainByte(w)] + data
  }

  /** A payload of 34 bytes with its checksum, most significant byte first. */
  function Sealed(payload: seq<Byte>): (buf: seq<Byte>)
    ensures |buf| == |payload| + 2
  {
    payload + CrcBytes(C.Crc(Ungroup(8, payload)))
  }

  function CrcBytes(c: C.Reg): (bs: seq<Byte>)
    ensures |bs| == 2 && Ungroup(8, bs) == c
  {
    SizeIs(2);
    UngroupGroups(8, c, 2);
    assert Pow2(8) == 256;
    Groups(8, c, 2)
  }

  /** Without padding: 36 bytes are 48 digits. */
  function Encode64(buf: seq<Byte>): (s: string)
    requires |buf| == 36
    ensures |s| == 48
  {
    SizeIs(36);
    SizeIs(48);
    UngroupGroups(6, Ungroup(8, buf), 48);
    assert Pow2(6) == 64;
    Digits(Groups(6, Ungroup(8, buf), 48))
  }

  function Print(a: Address): string
    requires Valid(a)
  {
    match a
    case Raw(w, data) => PrintInt(w) + ":" + HexEncode(data)
    case UserFriendly(flags, w, data) => Encode64(Sealed(Payload(flags, w, data)))
  }

  // ---------------------------------------------------------------- parsing

  /** 48 digits are 36 bytes; anything else, padding included, gives fewer or none. */
  function Decode64(s: string): (r: Option<seq<Byte>>)
    requires |s| == 48
    ensures r.Some? ==> |r.value| == 36
    ensures r.Some? <==> DigitValues(s).Some?
    ensures r.Some? ==> Ungroup(8, r.value) == Ungroup(6, DigitValues(s).value)
  {
    var ds := DigitValues(s);
    if ds.None? then None
    else
      SizeIs(36);
      SizeIs(48);
      UngroupGroups(8, Ungroup(6, ds.value), 36);
      assert Pow2(8) == 256;
      Some(Groups(8, Ungroup(6, ds.value), 36))
  }

  function Workchain(b: Byte): int {
    if b == 255 then -1 else b
  }

  predicate ChecksumHolds(buf: seq<Byte>)
    requires |buf| == 36
  {
    C.Crc(Ungroup(8, buf[..34])) == Ungroup(8, buf[34..])
  }

  function ParseFriendly(s: string): Option<Address>
    requires |s| == 48
  {
    var buf := Decode64(s);
    if buf.None? || !ChecksumHolds(buf.value) then None
    else Some(UserFriendly(buf.value[0], Workchain(buf.value[1]), buf.value[2..34]))
  }

  function Parse(s: string): Option<Address> {
    if |s| == 48 then ParseFriendly(s)
    else
      var i := Find(s, ':');
      if i == |s| || |s| - i - 1 != 64 then None
      else
        var w, data := ParseInt(s[..i]), HexDecode(s[i + 1..]);
        if w.None? || data.None? then None else Some(Raw(w.value, data.value))
  }

  // ------------------------------------------------------------ round trips

  /** Every raw address is read back as printed. */
  lemma {:induction false} RawRoundTrip(a: Address)
    requires Valid(a) && a.Raw?
    ensures Parse(Print(a)) == Some(a)
  {
    var w, h, s := PrintInt(a.workchain), HexEncode(a.data), Print(a);
    IntRoundTrip(a.workchain);
    HexRoundTrip(a.data);
    FindFirst(w, ':', h);
    assert s[..|w|] == w && s[|w| + 1..] == h;
  }

  lemma {:induction false} Decode64Encode64(buf: seq<Byte>)
    requires |buf| == 36
    ensures Decode64(Encode64(buf)) == Some(buf)
  {
    SizeIs(36);
    SizeIs(48);
    var bits := Ungroup(8, buf);
    var vs := Groups(6, bits, 48);
    UngroupGroups(6, bits, 48);
    assert Pow2(6) == 64 && Pow2(8) == 256;
    DigitsBack(vs);
    GroupsUngroup(8, buf);
  }

  lemma {:induction false} DigitsBack(vs: seq<nat>)
    requires forall i :: 0 <= i < |vs| ==> vs[i] < 64
    ensures DigitValues(Digits(vs)) == Some(vs)
  {
    forall i | 0 <= i < |vs| ensures DigitValue(Digits(vs)[i]) == Some(vs[i]) {
      DigitRoundTrip(vs[i], '0');
    }
    assert DigitValues(Digits(vs)).value == vs;
  }

  lemma {:induction false} SealedHolds(payload: seq<Byte>)
    requires |payload| == 34
    ensures ChecksumHolds(Sealed(payload)) && Sealed(payload)[..34] == payload
  {
    assert Sealed(payload)[34..] == CrcBytes(C.Crc(Ungroup(8, payload)));
  }

  /** A user-friendly address is read back as printed exactly when its workchain is -1 or fits a byte below 255. */
  lemma {:induction false} FriendlyRoundTripIff(a: Address)
    requires Valid(a) && a.UserFriendly?
    ensures Parse(Print(a)) == Some(a) <==> -1 <= a.workchain <= 254
  {
    ParsePrinted(a);
    WorkchainIff(a.workchain);
  }

  lemma {:induction false} WorkchainIff(w: int)
    ensures Workchain(WorkchainByte(w)) == w <==> -1 <= w <= 254
  {
  }

  lemma {:induction false} ParsePrinted(a: Address)
    requires Valid(a) && a.UserFriendly?
    ensures Parse(Print(a)) == Some(a.(workchain := Workchain(WorkchainByte(a.workchain))))
  {
    hide Parse, Encode64, Sealed;
    var payload := Payload(a.flags, a.workchain, a.data);
    ParseSealed(payload);
    assert payload[2..34] == a.data;
  }

  lemma {:induction false} ParseSealed(payload: seq<Byte>)
    requires |payload| == 34
    ensures Parse(Encode64(Sealed(payload))) == Some(UserFriendly(payload[0], Workchain(payload[1]), payload[2..34]))
  {
    SealedHolds(payload);
    Decode64Encode64(Sealed(payload));
    SealedFields(payload);
  }

  lemma {:induction false} SealedFields(payload: seq<Byte>)
    requires |payload| == 34
    ensures var buf := Sealed(payload); buf[0] == payload[0] && buf[1] == payload[1] && buf[2..34] == payload[2..34]
  {
  }

  lemma {:induction false} Encode64Decode64(s: string, i: nat)
    requires |s| == 48 && Decode64(s).Some? && i < 48
    ensures Encode64(Decode64(s).value)[i] == UrlSafe(s[i])
  {
    assert Pow2(6) == 64;
    SizeIs(48);
    GroupsUngroup(6, DigitValues(s).value);
    DigitRoundTrip(0, s[i]);
  }

  lemma {:induction false} PayloadOf(buf: seq<Byte>)
    requires |buf| == 36
    ensures Payload(buf[0], Workchain(buf[1]), buf[2..34]) == buf[..34]
  {
    assert [buf[0], buf[1]] + buf[2..34] == buf[..34];
  }

  lemma {:induction false} PrintSealed(buf: seq<Byte>)
    requires |buf| == 36 && ChecksumHolds(buf)
    ensures var a := UserFriendly(buf[0], Workchain(buf[1]), buf[2..34]); Valid(a) && Print(a) == Encode64(buf)
  {
    PayloadOf(buf);
    SealedUnique(buf);
  }

  /** Printing what was read gives the text back, in the URL-safe alphabet. */
  lemma {:induction false} PrintParsed(s: string, i: nat)
    requires |s| == 48 && ParseFriendly(s).Some? && i < 48
    ensures Valid(ParseFriendly(s).value) && |Print(ParseFriendly(s).value)| == 48
    ensures Print(ParseFriendly(s).value)[i] == UrlSafe(s[i])
  {
    PrintSealed(Decode64(s).value);
    Encode64Decode64(s, i);
  }

  lemma {:induction false} SealedUnique(buf: seq<Byte>)
    requires |buf| == 36 && ChecksumHolds(buf)
    ensures Sealed(buf[..34]) == buf
  {
    hide Groups, Ungroup, C.Crc;
    var c := CrcBytes(C.Crc(Ungroup(8, buf[..34])));
    assert Pow2(8) == 256;
    GroupsUngroup(8, c);
    GroupsUngroup(8, buf[34..]);
    assert buf[..34] + buf[34..] == buf;
  }

  // --------------------------------------------------------- error detection

  /** A text of 48 characters is an address exactly when all are digits and their bits divide by the polynomial. */
  lemma {:induction false} AcceptedIff(s: string)
    requires |s| == 48
    ensures ParseFriendly(s).Some? <==>
              DigitValues(s).Some? && C.Crc(Ungroup(6, DigitValues(s).value)) == Zeros(C.WIDTH)
  {
    if DigitValues(s).Some? {
      var buf := Decode64(s).value;
      UngroupSplit(8, buf[..34], buf[34..]);
      assert buf[..34] + buf[34..] == buf;
      SizeIs(2);
      C.ResidueIff(Ungroup(8, buf[..34]), Ungroup(8, buf[34..]));
    }
  }

  /** The texts agree but for two neighbouring characters, of which one at least stands for another digit. */
  predicate Mistyped(s: string, t: string, at: nat) {
    && |s| == |t| && at + 1 < |s|
    && (forall i :: 0 <= i < |s| && i != at && i != at + 1 ==> s[i] == t[i])
    && (DigitValue(s[at]) != DigitValue(t[at]) || DigitValue(s[at + 1]) != DigitValue(t[at + 1]))
  }

  lemma {:induction false} MistypedIsBurst(v: seq<nat>, w: seq<nat>, at: nat)
    requires Below(6, v) && Below(6, w) && |v| == |w| && at + 1 < |v| && v != w
    requires forall i :: 0 <= i < |v| && i != at && i != at + 1 ==> v[i] == w[i]
    ensures C.Burst(Ungroup(6, v), Ungroup(6, w), Size(6, at))
  {
    hide Groups, Low;
    GroupsUngroup(6, v);
    GroupsUngroup(6, w);
    var mid := v[at := w[at]];
    FlattenLocal(6, BitsOf(6, v), BitsOf(6, mid), at);
    FlattenLocal(6, BitsOf(6, mid), BitsOf(6, w), at + 1);
  }

  lemma {:induction false} MistypedDivides(v: seq<nat>, w: seq<nat>, at: nat)
    requires Below(6, v) && Below(6, w) && |v| == |w| && at + 1 < |v| && v != w
    requires forall i :: 0 <= i < |v| && i != at && i != at + 1 ==> v[i] == w[i]
    requires C.Crc(Ungroup(6, v)) == Zeros(C.WIDTH)
    ensures C.Crc(Ungroup(6, w)) != Zeros(C.WIDTH)
  {
    MistypedIsBurst(v, w, at);
    C.BurstDetected(Ungroup(6, v), Ungroup(6, w), Size(6, at));
  }

  lemma {:induction false} MistypedValues(s: string, t: string, at: nat)
    requires Mistyped(s, t, at) && DigitValues(s).Some? && DigitValues(t).Some?
    ensures var v, w := DigitValues(s).value, DigitValues(t).value;
            Below(6, v) && Below(6, w) && v != w && forall i :: 0 <= i < |v| && i != at && i != at + 1 ==> v[i] == w[i]
  {
    assert Pow2(6) == 64;
    var v, w := DigitValues(s).value, DigitValues(t).value;
    assert v[at] != w[at] || v[at + 1] != w[at + 1];
  }

  /** No slip of one digit, nor of two neighbouring ones, turns an address into another. */
  lemma {:induction false} MistypedRejected(s: string, t: string, at: nat)
    requires |s| == 48 && ParseFriendly(s).Some? && Mistyped(s, t, at)
    ensures ParseFriendly(t).None? && Parse(t).None?
  {
    AcceptedIff(s);
    AcceptedIff(t);
    if DigitValues(t).Some? {
      MistypedValues(s, t, at);
      MistypedDivides(DigitValues(s).value, DigitValues(t).value, at);
    }
  }

  // ---------------------------------------------------------------- methods

  /** `Display`. */
  method Display(a: Address) returns (s: string)
    requires Valid(a)
    ensures s == Print(a)
  {
    match a {
      case Raw(w, data) =>
        s := PrintInt(w) + ":" + HexEncode(data);
      case UserFriendly(flags, w, data) =>
        var buf: seq<Byte> := [];
        buf := buf + [flags];
        buf := buf + [if w == -1 then 255 else w % 256];
        buf := buf + data;
        assert buf == Payload(flags, w, data);
        buf := buf + CrcBytes(C.Crc(Ungroup(8, buf)));
        s := Encode64(buf);
    }
  }

  /** `copy_from_slice` into a fresh array. */
  method CopySlice(src: seq<Byte>) returns (r: seq<Byte>)
    ensures r == src
  {
    var bytes := new Byte[|src|](_ => 0);
    for k := 0 to |src|
      invariant bytes[..k] == src[..k]
    {
      bytes[k] := src[k];
    }
    return bytes[..];
  }

  /** The branch for 48 characters. */
  method FromFriendly(s: string) returns (r: Option<Address>)
    requires |s| == 48
    ensures r == ParseFriendly(s)
  {
    hide Decode64, Ungroup, C.Crc;
    var data := Decode64(s);
    if data.None? {
      return None;
    }
    var buf := data.value;
    var crc := C.Crc(Ungroup(8, buf[..34]));
    if Ungroup(8, buf[34..]) != crc {
      return None;
    }
    var bytes := CopySlice(buf[2..34]);
    return Some(UserFriendly(buf[0], if buf[1] == 255 then -1 else buf[1], bytes));
  }

  /** `FromStr`. */
  method FromStr(s: string) returns (r: Option<Address>)
    ensures r == Parse(s)
  {
    if |s| == 48 {
      r := FromFriendly(s);
      return;
    }
    var i := Find(s, ':');
    if i < |s| && |s| - i - 1 == 64 {
      var w := ParseInt(s[..i]);
      if w.None? {
        return None;
      }
      var data := HexDecode(s[i + 1..]);
      if data.None? {
        return None;
      }
      return Some(Raw(w.value, data.value));
    }
    return None;
  }
}
