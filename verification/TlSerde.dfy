/**
  * The TL binary form: byte strings with two length forms and padding to four bytes, little-endian
  * numbers, vectors, and boxed values led by a constructor number.
  */
module TlSerde {
  import opened Prelude
  import opened Bytes

  /** Outcome of a parse. `Panics` is a read beyond the end of the input. */
  datatype Parse<+T> =
    | Done(value: T, rest: seq<Byte>)
    | UnexpectedNumber(number: nat, rest: seq<Byte>)
    | Malformed(rest: seq<Byte>)
    | Panics

  const LEN_BYTES: nat := 3
  const P24: nat := 0x100_0000

  // ----------------------------------------------------------- byte strings

  function Zeros(n: nat): (z: seq<Byte>)
    ensures |z| == n
  {
    seq(n, _ => 0)
  }

  /** How many zero bytes complete `n` bytes to a multiple of four. */
  function Padding(n: nat): (p: nat)
    ensures p < 4 && (n + p) % 4 == 0
  {
    if n % 4 > 0 then 4 - n % 4 else 0
  }

  /** `write_bytes`. */
  function EncBytes(b: seq<Byte>): seq<Byte> {
    if |b| <= 253 then [|b|] + b + Zeros(Padding(|b| + 1))
    else [254] + LeBytes(|b|, LEN_BYTES) + b + Zeros(Padding(|b| + 4))
  }

  /** `copy_to_slice` of `len` bytes, then `advance` over the padding. */
  function TakePadded(s: seq<Byte>, len: nat, pad: nat): Parse<seq<Byte>> {
    if |s| < len + pad then Panics else Done(s[..len], s[len + pad..])
  }

  /** `parse_bytes`; a leading 255 is read like 254. */
  function DecBytes(s: seq<Byte>): Parse<seq<Byte>> {
    if s == [] then Panics
    else if s[0] <= 253 then TakePadded(s[1..], s[0], Padding(s[0] + 1))
    else if |s| < 4 then Panics
    else TakePadded(s[4..], FromLe(s[1..4]), Padding(FromLe(s[1..4])))
  }

  lemma {:induction false} TakePaddedBack(b: seq<Byte>, pad: nat, t: seq<Byte>)
    ensures TakePadded(b + Zeros(pad) + t, |b|, pad) == Done(b, t)
  {
    var s := b + Zeros(pad) + t;
    assert s[..|b|] == b && s[|b| + pad..] == t;
  }

  /** Every encoded byte string fills whole four-byte groups. */
  lemma {:induction false} BytesAligned(b: seq<Byte>)
    ensures |EncBytes(b)| % 4 == 0
  {
  }

  /** The long form, for any three length bytes. */
  lemma {:induction false} LongForm(len: seq<Byte>, body: seq<Byte>)
    requires |len| == 3
    ensures DecBytes([254] + len + body) == TakePadded(body, FromLe(len), Padding(FromLe(len)))
  {
    var s := [254] + len + body;
    assert s[1..4] == len && s[4..] == body;
  }

  lemma {:induction false} ShortForm(n: Byte, body: seq<Byte>)
    requires n <= 253
    ensures DecBytes([n] + body) == TakePadded(body, n, Padding(n + 1))
  {
    assert ([n] + body)[1..] == body;
  }

  lemma {:induction false} Regroup(head: seq<Byte>, b: seq<Byte>, z: seq<Byte>, t: seq<Byte>)
    ensures head + b + z + t == head + (b + z + t)
  {
  }

  lemma {:induction false} ShortBytesBack(b: seq<Byte>, t: seq<Byte>)
    requires |b| <= 253
    ensures DecBytes(EncBytes(b) + t) == Done(b, t)
  {
    hide DecBytes, Padding, Zeros;
    var z := Zeros(Padding(|b| + 1));
    Regroup([|b|], b, z, t);
    ShortForm(|b|, b + z + t);
    TakePaddedBack(b, Padding(|b| + 1), t);
  }

  lemma {:induction false} LongBytesBackIff(b: seq<Byte>, t: seq<Byte>)
    requires |b| > 253
    ensures DecBytes(EncBytes(b) + t) == Done(b, t) <==> |b| < P24
  {
    hide DecBytes, Zeros, LeBytes, FromLe;
    var z := Zeros(Padding(|b| + 4));
    Regroup([254] + LeBytes(|b|, LEN_BYTES), b, z, t);
    LongForm(LeBytes(|b|, LEN_BYTES), b + z + t);
    LeRoundTrip(|b|, LEN_BYTES);
    Pow256Three();
    if |b| < P24 {
      TakePaddedBack(b, Padding(|b| + 4), t);
    }
  }

  /** A byte string is recovered, and nothing of what follows is touched, exactly when it is shorter than 2^24. */
  lemma {:induction false} BytesRoundTripIff(b: seq<Byte>, t: seq<Byte>)
    ensures DecBytes(EncBytes(b) + t) == Done(b, t) <==> |b| < P24
  {
    hide DecBytes, EncBytes;
    if |b| <= 253 {
      ShortBytesBack(b, t);
    } else {
      LongBytesBackIff(b, t);
    }
  }

  lemma {:induction false} Pow256Three()
    ensures Pow256(LEN_BYTES) == P24
  {
  }

  // ---------------------------------------------------------------- numbers

  /** `put_u32`: big-endian. */
  function Be32(n: nat): seq<Byte> {
    var le := LeBytes(n, 4);
    [le[3], le[2], le[1], le[0]]
  }

  function FromBe32(s: seq<Byte>): nat
    requires |s| == 4
  {
    FromLe([s[3], s[2], s[1], s[0]])
  }

  lemma {:induction false} Be32RoundTrip(n: nat)
    requires n < 2 * P31
    ensures FromBe32(Be32(n)) == n
  {
    var le := LeBytes(n, 4);
    assert [le[0], le[1], le[2], le[3]] == le;
    LeRoundTrip(n, 4);
  }

  /** `write_i31` of a bit pattern: the sign bit is cleared. */
  function EncI31(w: nat): seq<Byte> {
    LeBytes(w % P31, 4)
  }

  function DecI31(s: seq<Byte>): Parse<nat> {
    if |s| < 4 then Panics else Done(FromLe(s[..4]) % P31, s[4..])
  }

  lemma {:induction false} Pow256Four()
    ensures Pow256(4) == 2 * P31
  {
    assert Pow256(2) == 0x1_0000;
  }

  lemma {:induction false} I31RoundTrip(w: nat, t: seq<Byte>)
    ensures DecI31(EncI31(w) + t) == Done(w % P31, t)
  {
    hide LeBytes, FromLe;
    var s := EncI31(w) + t;
    assert s[..4] == EncI31(w) && s[4..] == t;
    LeRoundTrip(w % P31, 4);
    Pow256Four();
  }

  // ---------------------------------------------------------------- vectors

  /** A bare type: what it writes for a value, how it reads, and which values it can carry. */
  datatype Tl<!V> = Tl(put: V -> seq<Byte>, get: seq<Byte> -> Parse<V>, carries: V -> bool)

  ghost predicate Sound<V(!new)>(c: Tl<V>) {
    forall v, t :: c.carries(v) ==> c.get(c.put(v) + t) == Done(v, t)
  }

  function EncAll<V>(c: Tl<V>, vs: seq<V>): seq<Byte> {
    if vs == [] then [] else EncAll(c, vs[..|vs| - 1]) + c.put(vs[|vs| - 1])
  }

  function EncVector<V>(c: Tl<V>, vs: seq<V>): seq<Byte> {
    EncI31(|vs|) + EncAll(c, vs)
  }

  /** Reads `n` more elements behind those in `buf`. */
  function DecMany<V>(c: Tl<V>, buf: seq<V>, n: nat, s: seq<Byte>): (r: Parse<seq<V>>)
    ensures r.Done? ==> |r.value| == |buf| + n
    decreases n
  {
    if n == 0 then Done(buf, s)
    else
      match c.get(s)
      case Done(v, rest) => DecMany(c, buf + [v], n - 1, rest)
      case UnexpectedNumber(m, rest) => UnexpectedNumber(m, rest)
      case Malformed(rest) => Malformed(rest)
      case Panics => Panics
  }

  function DecVector<V>(c: Tl<V>, s: seq<Byte>): Parse<seq<V>> {
    match DecI31(s)
    case Done(n, rest) => DecMany(c, [], n, rest)
    case _ => Panics
  }

  lemma {:induction false} EncAllHead<V>(c: Tl<V>, vs: seq<V>)
    requires vs != []
    ensures EncAll(c, vs) == c.put(vs[0]) + EncAll(c, vs[1..])
  {
    var n := |vs| - 1;
    if n == 0 {
      assert vs[..0] == [] && vs[1..] == [];
    } else {
      EncAllHead(c, vs[..n]);
      assert vs[..n][1..] == vs[1..][..n - 1];
      assert c.put(vs[0]) + EncAll(c, vs[..n][1..]) + c.put(vs[n]) ==
          c.put(vs[0]) + (EncAll(c, vs[..n][1..]) + c.put(vs[n]));
    }
  }

  lemma {:induction false} DecManyBack<V(!new)>(c: Tl<V>, buf: seq<V>, vs: seq<V>, t: seq<Byte>)
    requires Sound(c) && forall v :: v in vs ==> c.carries(v)
    ensures DecMany(c, buf, |vs|, EncAll(c, vs) + t) == Done(buf + vs, t)
    decreases |vs|
  {
    if vs == [] {
      assert EncAll(c, vs) + t == t && buf + vs == buf;
    } else {
      EncAllHead(c, vs);
      assert EncAll(c, vs) + t == c.put(vs[0]) + (EncAll(c, vs[1..]) + t);
      DecManyBack(c, buf + [vs[0]], vs[1..], t);
      assert buf + [vs[0]] + vs[1..] == buf + vs;
    }
  }

  /** A vector is recovered exactly when it has fewer than 2^31 elements. */
  lemma {:induction false} VectorRoundTripIff<V(!new)>(c: Tl<V>, vs: seq<V>, t: seq<Byte>)
    requires Sound(c) && forall v :: v in vs ==> c.carries(v)
    ensures DecVector(c, EncVector(c, vs) + t) == Done(vs, t) <==> |vs| < P31
  {
    assert EncVector(c, vs) + t == EncI31(|vs|) + (EncAll(c, vs) + t);
    I31RoundTrip(|vs|, EncAll(c, vs) + t);
    if |vs| < P31 {
      DecManyBack(c, [], vs, t);
      assert [] + vs == vs;
    }
  }

  // ------------------------------------------------------------- boxed sums

  /** One constructor of a boxed type: its number and its bare form. */
  datatype Ctor<!V> = Ctor(number: nat, bare: Tl<V>)

  ghost predicate ValidCtors<V(!new)>(cs: seq<Ctor<V>>) {
    forall i :: 0 <= i < |cs| ==> cs[i].number < 2 * P31 && Sound(cs[i].bare)
  }

  /** The first arm that matches, |cs| when none does. */
  function Arm<V>(cs: seq<Ctor<V>>, number: nat, i: nat): (k: nat)
    requires i <= |cs|
    ensures i <= k <= |cs| && (k < |cs| ==> cs[k].number == number)
    ensures forall j :: i <= j < k ==> cs[j].number != number
    decreases |cs| - i
  {
    if i == |cs| || cs[i].number == number then i else Arm(cs, number, i + 1)
  }

  /** `serialize_boxed`. */
  function EncBoxed<V>(cs: seq<Ctor<V>>, i: nat, v: V): seq<Byte>
    requires i < |cs|
  {
    Be32(cs[i].number) + cs[i].bare.put(v)
  }

  /** `deserialize_boxed`: the constructor number is already known. */
  function DecBody<V>(cs: seq<Ctor<V>>, number: nat, s: seq<Byte>): Parse<(nat, V)> {
    var k := Arm(cs, number, 0);
    if k == |cs| then UnexpectedNumber(number, s)
    else
      match cs[k].bare.get(s)
      case Done(v, rest) => Done((k, v), rest)
      case UnexpectedNumber(m, rest) => UnexpectedNumber(m, rest)
      case Malformed(rest) => Malformed(rest)
      case Panics => Panics
  }

  /** `deserialize`: reads the number first. */
  function DecBoxed<V>(cs: seq<Ctor<V>>, s: seq<Byte>): Parse<(nat, V)> {
    if |s| < 4 then Panics else DecBody(cs, FromBe32(s[..4]), s[4..])
  }

  /** None of the first `n` constructors has the number. */
  predicate Unclaimed<V>(cs: seq<Ctor<V>>, n: nat, number: nat)
    requires n <= |cs|
  {
    forall k :: 0 <= k < n ==> cs[k].number != number
  }

  lemma {:induction false} NumberFirst<V>(cs: seq<Ctor<V>>, i: nat, v: V, t: seq<Byte>)
    requires i < |cs| && cs[i].number < 2 * P31
    ensures var s := EncBoxed(cs, i, v) + t;
            |s| >= 4 && FromBe32(s[..4]) == cs[i].number && s[4..] == cs[i].bare.put(v) + t
  {
    Be32RoundTrip(cs[i].number);
    var s := EncBoxed(cs, i, v) + t;
    assert s[..4] == Be32(cs[i].number);
  }

  /** A boxed value is recovered exactly when no earlier constructor of the type has its number. */
  lemma {:induction false} BoxedRoundTripIff<V(!new)>(cs: seq<Ctor<V>>, i: nat, v: V, t: seq<Byte>)
    requires ValidCtors(cs) && i < |cs| && cs[i].bare.carries(v)
    ensures DecBoxed(cs, EncBoxed(cs, i, v) + t) == Done((i, v), t) <==> Unclaimed(cs, i, cs[i].number)
  {
    NumberFirst(cs, i, v, t);
    var k := Arm(cs, cs[i].number, 0);
    assert k <= i;
    assert Sound(cs[i].bare);
  }

  /** `from_bytes_boxed`: the value must use up the input. */
  function FromBytesBoxed<V>(cs: seq<Ctor<V>>, s: seq<Byte>): Option<(nat, V)> {
    match DecBoxed(cs, s)
    case Done(x, rest) => if rest == [] then Some(x) else None
    case _ => None
  }

  /** Whole messages: a value's own bytes give it back, and any surplus byte is refused. */
  lemma {:induction false} WholeMessage<V(!new)>(cs: seq<Ctor<V>>, i: nat, v: V, surplus: seq<Byte>)
    requires ValidCtors(cs) && i < |cs| && cs[i].bare.carries(v)
    requires Unclaimed(cs, i, cs[i].number)
    ensures FromBytesBoxed(cs, EncBoxed(cs, i, v) + surplus) == if surplus == [] then Some((i, v)) else None
  {
    BoxedRoundTripIff(cs, i, v, surplus);
  }

  // ------------------------------------------------------- answer or error

  /** `Result<T, E>`: the error type is tried when the answer type does not expect the number. */
  function DecResultBody<V, W>(ts: seq<Ctor<V>>, es: seq<Ctor<W>>, number: nat, s: seq<Byte>): Parse<Result<(nat,
                               V), (nat, W)>> {
    match DecBody(ts, number, s)
    case Done(v, rest) => Done(Ok(v), rest)
    case Malformed(rest) => Malformed(rest)
    case Panics => Panics
    case UnexpectedNumber(_, rest) =>
      match DecBody(es, number, rest)
      case Done(e, rest') => Done(Err(e), rest')
      case UnexpectedNumber(m, rest') => UnexpectedNumber(m, rest')
      case Malformed(rest') => Malformed(rest')
      case Panics => Panics
  }

  function DecResult<V, W>(ts: seq<Ctor<V>>, es: seq<Ctor<W>>, s: seq<Byte>): Parse<Result<(nat, V), (nat, W)>> {
    if |s| < 4 then Panics else DecResultBody(ts, es, FromBe32(s[..4]), s[4..])
  }

  /** No constructor number belongs to both types. */
  ghost predicate Apart<V(!new), W(!new)>(ts: seq<Ctor<V>>, es: seq<Ctor<W>>) {
    forall i, j :: 0 <= i < |ts| && 0 <= j < |es| ==> ts[i].number != es[j].number
  }

  /** Whatever the input, an accepted message is attributed to the type its leading number belongs to. */
  lemma {:induction false} ResultAttribution<V(!new), W(!new)>(ts: seq<Ctor<V>>, es: seq<Ctor<W>>, s: seq<Byte>)
    requires Apart(ts, es) && DecResult(ts, es, s).Done?
    ensures var number := FromBe32(s[..4]);
            match DecResult(ts, es, s).value
            case Ok((i, _)) => i < |ts| && ts[i].number == number && Unclaimed(es, |es|, number)
            case Err((j, _)) => j < |es| && es[j].number == number && Unclaimed(ts, |ts|, number)
  {
  }

  /** An answer is recovered exactly when no earlier constructor of its type has its number, whatever the error type. */
  lemma {:induction false} ResultOkIff<V(!new), W>(ts: seq<Ctor<V>>, es: seq<Ctor<W>>, i: nat, v: V, t: seq<Byte>)
    requires ValidCtors(ts) && i < |ts| && ts[i].bare.carries(v)
    ensures DecResult(ts, es, EncBoxed(ts, i, v) + t) == Done(Ok((i, v)), t)
       <==> Unclaimed(ts, i, ts[i].number)
  {
    BoxedRoundTripIff(ts, i, v, t);
  }

  /** A reader that meets an unexpected number has read that number. */
  ghost predicate Consumes<V(!new)>(c: Tl<V>) {
    forall s :: c.get(s).UnexpectedNumber? ==> |c.get(s).rest| < |s|
  }

  /** No encoding of a value that the reader accepts is shorter than the one written. */
  ghost predicate Shortest<V(!new)>(c: Tl<V>) {
    forall s :: c.get(s).Done? ==> |c.put(c.get(s).value)| + |c.get(s).rest| <= |s|
  }

  /**
    * An error is recovered exactly when neither the answer type nor an earlier constructor of the
    * error type has its number. With a shared number the answer type is tried first, and even
    * where it gives up on a number inside, the error type starts behind what was read.
    */
  lemma {:induction false} ResultErrIff<V(!new), W(!new)>(ts: seq<Ctor<V>>, es: seq<Ctor<W>>, j: nat, e: W,
                                                          t: seq<Byte>)
    requires ValidCtors(es) && j < |es| && es[j].bare.carries(e) && Shortest(es[j].bare)
    requires forall i :: 0 <= i < |ts| ==> Consumes(ts[i].bare)
    ensures DecResult(ts, es, EncBoxed(es, j, e) + t) == Done(Err((j, e)), t)
       <==> Unclaimed(ts, |ts|, es[j].number) && Unclaimed(es, j, es[j].number)
  {
    var number, body := es[j].number, es[j].bare.put(e) + t;
    NumberFirst(es, j, e, t);
    BoxedRoundTripIff(es, j, e, t);
    var k := Arm(ts, number, 0);
    if k < |ts| {
      FallsBehind(ts, es, k, j, e, t);
    }
  }

  lemma {:induction false} FallsBehind<V(!new), W(!new)>(ts: seq<Ctor<V>>, es: seq<Ctor<W>>, k: nat, j: nat, e: W,
                                                         t: seq<Byte>)
    requires k < |ts| && j < |es| && k == Arm(ts, es[j].number, 0) && Consumes(ts[k].bare) && Shortest(es[j].bare)
    ensures DecResultBody(ts, es, es[j].number, es[j].bare.put(e) + t) != Done(Err((j, e)), t)
  {
    var body := es[j].bare.put(e) + t;
    var first := ts[k].bare.get(body);
    if first.UnexpectedNumber? {
      assert |first.rest| < |body|;
      var m := Arm(es, es[j].number, 0);
      if m == j {
        assert es[j].bare.get(first.rest) != Done(e, t);
      }
    }
  }

  /** With numbers apart both kinds of message are recovered under their own side. */
  lemma {:induction false} ResultRoundTrip<V(!new), W(!new)>(ts: seq<Ctor<V>>, es: seq<Ctor<W>>, i: nat, v: V, j: nat,
                                                             e: W, t: seq<Byte>)
    requires ValidCtors(ts) && ValidCtors(es) && Apart(ts, es)
    requires i < |ts| && ts[i].bare.carries(v) && Unclaimed(ts, i, ts[i].number)
    requires j < |es| && es[j].bare.carries(e) && Unclaimed(es, j, es[j].number)
    ensures DecResult(ts, es, EncBoxed(ts, i, v) + t) == Done(Ok((i, v)), t)
    ensures DecResult(ts, es, EncBoxed(es, j, e) + t) == Done(Err((j, e)), t)
  {
    ResultOkIff(ts, es, i, v, t);
    BoxedRoundTripIff(es, j, e, t);
    NumberFirst(es, j, e, t);
  }
}
