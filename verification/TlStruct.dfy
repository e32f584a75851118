/**
  * The serializers generated for TL records: flag words are completed from the optional fields
  * that are present, and decide on reading which optional fields follow.
  */
module TlStruct {
  import opened Prelude
  import opened Bits
  import opened Bytes
  import opened TlSerde
  import opened TlStreams

  /** A field: a flag word, a field that is always there, or one there when a bit of an earlier flag word is set. */
  datatype Field<!V> = Flags | Always(ty: Tl<V>) | When(flags: nat, bit: nat, ty: Tl<V>)

  /** A flag word is given by its 32-bit pattern. */
  datatype Val<+V> = Word(w: nat) | Plain(v: V) | Opt(o: Option<V>)

  /** Conditions refer to flag words declared before, and the shift stays within 32 bits. */
  predicate ValidSchema<V>(fs: seq<Field<V>>) {
    forall i :: 0 <= i < |fs| && fs[i].When? ==> fs[i].flags < i && fs[fs[i].flags].Flags? && fs[i].bit < 32
  }

  predicate HasType<V>(f: Field<V>, v: Val<V>) {
    match f
    case Flags => v.Word? && v.w < 2 * P31
    case Always(ty) => v.Plain? && ty.carries(v.v)
    case When(_, _, ty) => v.Opt? && (v.o.Some? ==> ty.carries(v.o.value))
  }

  predicate HasTypes<V>(fs: seq<Field<V>>, vs: seq<Val<V>>) {
    |vs| == |fs| && forall i :: 0 <= i < |fs| ==> HasType(fs[i], vs[i])
  }

  ghost predicate AllSound<V(!new)>(fs: seq<Field<V>>) {
    forall i :: 0 <= i < |fs| && !fs[i].Flags? ==> Sound(fs[i].ty)
  }

  // -------------------------------------------------------------- writing

  predicate Raises<V>(f: Field<V>, v: Val<V>, j: nat) {
    f.When? && f.flags == j && v.Opt? && v.o.Some?
  }

  /** Flag word `j` after the definitions of the first `k` fields have run. */
  function WordAfter<V>(fs: seq<Field<V>>, vs: seq<Val<V>>, j: nat, k: nat): nat
    requires |fs| == |vs| && j < |fs| && k <= |fs| && vs[j].Word?
    decreases k
  {
    if k <= j + 1 then vs[j].w
    else
      var w := WordAfter(fs, vs, j, k - 1);
      if Raises(fs[k - 1], vs[k - 1], j) then SetBit(w, fs[k - 1].bit) else w
  }

  /** The word that goes out: the caller's flags with the bits of all present fields. */
  function FinalWord<V>(fs: seq<Field<V>>, vs: seq<Val<V>>, j: nat): nat
    requires |fs| == |vs| && j < |fs| && vs[j].Word?
  {
    WordAfter(fs, vs, j, |fs|)
  }

  /** The word that goes out has a bit exactly when the caller set it or a field present stands for it. */
  lemma {:induction false} WordHas<V>(fs: seq<Field<V>>, vs: seq<Val<V>>, j: nat, k: nat, bit: nat)
    requires |fs| == |vs| && j < |fs| && k <= |fs| && vs[j].Word?
    ensures HasBit(WordAfter(fs, vs, j, k), bit) <==>
            HasBit(vs[j].w, bit) || exists i :: j < i < k && Raises(fs[i], vs[i], j) && fs[i].bit == bit
    decreases k
  {
    if k > j + 1 {
      WordHas(fs, vs, j, k - 1, bit);
      if Raises(fs[k - 1], vs[k - 1], j) {
        SetBitHas(WordAfter(fs, vs, j, k - 1), fs[k - 1].bit, bit);
      }
    }
  }

  function EncField<V>(fs: seq<Field<V>>, vs: seq<Val<V>>, i: nat): seq<Byte>
    requires HasTypes(fs, vs) && i < |fs|
  {
    match fs[i]
    case Flags => (assert HasType(fs[i], vs[i]); EncI31(FinalWord(fs, vs, i)))
    case Always(ty) => (assert HasType(fs[i], vs[i]); ty.put(vs[i].v))
    case When(_, _, ty) => (assert HasType(fs[i], vs[i]); if vs[i].o.Some? then ty.put(vs[i].o.value) else [])
  }

  /** The fields from `i` on. */
  function EncFrom<V>(fs: seq<Field<V>>, vs: seq<Val<V>>, i: nat): seq<Byte>
    requires HasTypes(fs, vs) && i <= |fs|
    decreases |fs| - i
  {
    if i == |fs| then [] else EncField(fs, vs, i) + EncFrom(fs, vs, i + 1)
  }

  // -------------------------------------------------------------- reading

  /** Whether a decoded flag word asks for the field. */
  predicate Asked<V>(env: seq<Val<V>>, flags: nat, bit: nat) {
    flags < |env| && env[flags].Word? && HasBit(env[flags].w, bit)
  }

  function DecField<V>(f: Field<V>, env: seq<Val<V>>, s: seq<Byte>): Parse<Val<V>> {
    match f
    case Flags => (match DecI31(s) case Done(w, rest) => Done(Word(w), rest) case _ => Panics)
    case Always(ty) =>
      (match ty.get(s)
       case Done(v, rest) => Done(Plain(v), rest)
       case UnexpectedNumber(m, rest) => UnexpectedNumber(m, rest)
       case Malformed(rest) => Malformed(rest)
       case Panics => Panics)
    case When(flags, bit, ty) =>
      if !Asked(env, flags, bit) then Done(Opt(None), s)
      else
        match ty.get(s)
        case Done(v, rest) => Done(Opt(Some(v)), rest)
        case UnexpectedNumber(m, rest) => UnexpectedNumber(m, rest)
        case Malformed(rest) => Malformed(rest)
        case Panics => Panics
  }

  /** Reads the fields behind those already in `env`. */
  function DecFrom<V>(fs: seq<Field<V>>, env: seq<Val<V>>, s: seq<Byte>): Parse<seq<Val<V>>>
    requires |env| <= |fs|
    decreases |fs| - |env|
  {
    if |env| == |fs| then Done(env, s)
    else
      match DecField(fs[|env|], env, s)
      case Done(v, rest) => DecFrom(fs, env + [v], rest)
      case UnexpectedNumber(m, rest) => UnexpectedNumber(m, rest)
      case Malformed(rest) => Malformed(rest)
      case Panics => Panics
  }

  // ----------------------------------------------------------- round trip

  /** What comes back: flag words completed and cut to 31 bits, everything else as it was. */
  function Completed<V>(fs: seq<Field<V>>, vs: seq<Val<V>>, i: nat): Val<V>
    requires HasTypes(fs, vs) && i < |fs|
  {
    assert HasType(fs[i], vs[i]);
    if fs[i].Flags? then Word(FinalWord(fs, vs, i) % P31) else vs[i]
  }

  function CompletedAll<V>(fs: seq<Field<V>>, vs: seq<Val<V>>): (r: seq<Val<V>>)
    requires HasTypes(fs, vs)
    ensures |r| == |fs| && forall i :: 0 <= i < |fs| ==> r[i] == Completed(fs, vs, i)
  {
    seq(|fs|, i requires 0 <= i < |fs| => Completed(fs, vs, i))
  }

  /** A field is present exactly when its bit, one of the lower 31, is set in the word that goes out. */
  predicate Consistent<V>(fs: seq<Field<V>>, vs: seq<Val<V>>)
    requires ValidSchema(fs) && HasTypes(fs, vs)
  {
    forall i :: 0 <= i < |fs| && fs[i].When? ==> ConsistentAt(fs, vs, i)
  }

  predicate ConsistentAt<V>(fs: seq<Field<V>>, vs: seq<Val<V>>, i: nat)
    requires ValidSchema(fs) && HasTypes(fs, vs) && i < |fs| && fs[i].When?
  {
    assert HasType(fs[i], vs[i]) && HasType(fs[fs[i].flags], vs[fs[i].flags]);
    vs[i].o.Some? <==> fs[i].bit < 31 && HasBit(FinalWord(fs, vs, fs[i].flags), fs[i].bit)
  }

  lemma {:induction false} AskedIffConsistent<V>(fs: seq<Field<V>>, vs: seq<Val<V>>, i: nat, env: seq<Val<V>>)
    requires ValidSchema(fs) && HasTypes(fs, vs) && i < |fs| && fs[i].When?
    requires fs[i].flags < |env| <= |fs| && env == CompletedAll(fs, vs)[..|env|]
    ensures Asked(env, fs[i].flags, fs[i].bit) <==> fs[i].bit < 31 && HasBit(FinalWord(fs, vs, fs[i].flags), fs[i].bit)
  {
    var j := fs[i].flags;
    assert HasType(fs[j], vs[j]);
    assert env[j] == Completed(fs, vs, j);
    P31IsPower();
    MaskedHas(FinalWord(fs, vs, j), BITS, fs[i].bit);
  }

  const BITS: nat := 31

  lemma {:induction false} P31IsPower()
    ensures Pow2(BITS) == P31
  {
    assert Pow2(3) == 8;
    Pow2Nibble(3); Pow2Nibble(7); Pow2Nibble(11); Pow2Nibble(15); Pow2Nibble(19); Pow2Nibble(23); Pow2Nibble(27);
  }

  lemma {:induction false} FieldBack<V(!new)>(fs: seq<Field<V>>, vs: seq<Val<V>>, i: nat, t: seq<Byte>)
    requires ValidSchema(fs) && HasTypes(fs, vs) && AllSound(fs) && Consistent(fs, vs) && i < |fs|
    ensures DecField(fs[i], CompletedAll(fs, vs)[..i], EncField(fs, vs, i) + t) == Done(Completed(fs, vs, i), t)
  {
    var env := CompletedAll(fs, vs)[..i];
    assert HasType(fs[i], vs[i]);
    match fs[i] {
      case Flags =>
        I31RoundTrip(FinalWord(fs, vs, i), t);
      case Always(ty) =>
        assert Sound(ty);
      case When(flags, bit, ty) =>
        assert Sound(ty) && ConsistentAt(fs, vs, i);
        AskedIffConsistent(fs, vs, i, env);
        if vs[i].o.None? {
          assert EncField(fs, vs, i) + t == t;
        }
    }
  }

  lemma {:induction false} FieldsBack<V(!new)>(fs: seq<Field<V>>, vs: seq<Val<V>>, i: nat, t: seq<Byte>)
    requires ValidSchema(fs) && HasTypes(fs, vs) && AllSound(fs) && Consistent(fs, vs) && i <= |fs|
    ensures DecFrom(fs, CompletedAll(fs, vs)[..i], EncFrom(fs, vs, i) + t) == Done(CompletedAll(fs, vs), t)
    decreases |fs| - i
  {
    hide DecField, EncField, Completed, CompletedAll, Consistent, AllSound, ValidSchema, HasType;
    var all := CompletedAll(fs, vs);
    if i == |fs| {
      assert all[..i] == all && EncFrom(fs, vs, i) + t == t;
    } else {
      assert EncFrom(fs, vs, i) + t == EncField(fs, vs, i) + (EncFrom(fs, vs, i + 1) + t);
      FieldBack(fs, vs, i, EncFrom(fs, vs, i + 1) + t);
      assert all[..i] + [Completed(fs, vs, i)] == all[..i + 1];
      FieldsBack(fs, vs, i + 1, t);
    }
  }

  /** Whatever is decoded, an optional field is there exactly when the decoded flags ask for it. */
  lemma {:induction false} DecodedAsAsked<V>(fs: seq<Field<V>>, env: seq<Val<V>>, s: seq<Byte>, i: nat)
    requires ValidSchema(fs) && |env| <= |fs| && i < |fs| && fs[i].When?
    requires DecFrom(fs, env, s).Done?
    requires i < |env| ==> env[i].Opt? && (env[i].o.Some? <==> Asked(env, fs[i].flags, fs[i].bit))
    ensures var r := DecFrom(fs, env, s).value;
            && env <= r && |r| == |fs|
            && r[i].Opt? && (r[i].o.Some? <==> Asked(r, fs[i].flags, fs[i].bit))
    decreases |fs| - |env|
  {
    if |env| < |fs| {
      var v := DecField(fs[|env|], env, s).value;
      var env' := env + [v];
      assert forall k :: 0 <= k < |env| ==> env'[k] == env[k];
      DecodedAsAsked(fs, env', DecField(fs[|env|], env, s).rest, i);
    }
  }

  /**
    * Decoding what was encoded gives the fields back, with the flag words completed, and leaves
    * what follows untouched, exactly when every optional field is present if and only if its bit
    * is set in the completed flags.
    */
  lemma {:induction false} StructRoundTripIff<V(!new)>(fs: seq<Field<V>>, vs: seq<Val<V>>, t: seq<Byte>)
    requires ValidSchema(fs) && HasTypes(fs, vs) && AllSound(fs)
    ensures DecFrom(fs, [], EncFrom(fs, vs, 0) + t) == Done(CompletedAll(fs, vs), t) <==> Consistent(fs, vs)
  {
    var all := CompletedAll(fs, vs);
    if Consistent(fs, vs) {
      assert all[..0] == [];
      FieldsBack(fs, vs, 0, t);
    } else if DecFrom(fs, [], EncFrom(fs, vs, 0) + t) == Done(all, t) {
      forall i | 0 <= i < |fs| && fs[i].When? ensures ConsistentAt(fs, vs, i) {
        DecodedAsAsked(fs, [], EncFrom(fs, vs, 0) + t, i);
        assert all[..|all|] == all;
        AskedIffConsistent(fs, vs, i, all);
        assert all[i] == Completed(fs, vs, i);
      }
    }
  }

  // ------------------------------------------------- the generated methods

  /** `serialize`: first the definitions, which complete the flag words, then the writes. */
  method Serialize<V>(fs: seq<Field<V>>, vs: seq<Val<V>>, se: Serializer)
    requires ValidSchema(fs) && HasTypes(fs, vs)
    modifies se
    ensures se.output == old(se.output) + EncFrom(fs, vs, 0)
  {
    var words := CompleteFlags(fs, vs);
    for i := 0 to |fs|
      invariant se.output + EncFrom(fs, vs, i) == old(se.output) + EncFrom(fs, vs, 0)
    {
      Regroup(se.output, EncField(fs, vs, i), EncFrom(fs, vs, i + 1));
      SerializeField(fs, vs, words, i, se);
    }
    assert se.output + [] == se.output;
  }

  lemma {:induction false} Regroup(a: seq<Byte>, b: seq<Byte>, c: seq<Byte>)
    ensures a + (b + c) == a + b + c
  {
  }

  method SerializeField<V>(fs: seq<Field<V>>, vs: seq<Val<V>>, words: seq<nat>, i: nat, se: Serializer)
    requires HasTypes(fs, vs) && i < |fs| == |words|
    requires vs[i].Word? ==> words[i] == FinalWord(fs, vs, i)
    modifies se
    ensures se.output == old(se.output) + EncField(fs, vs, i)
  {
    assert HasType(fs[i], vs[i]);
    match fs[i] {
      case Flags => se.WriteI31(words[i]);
      case Always(ty) => se.PutSlice(ty.put(vs[i].v));
      case When(_, _, ty) =>
        if vs[i].o.Some? {
          se.PutSlice(ty.put(vs[i].o.value));
        } else {
          assert se.output + [] == se.output;
        }
    }
  }

  /** The local flag words after all definitions; entries of other fields are not used. */
  method CompleteFlags<V>(fs: seq<Field<V>>, vs: seq<Val<V>>) returns (words: seq<nat>)
    requires ValidSchema(fs) && HasTypes(fs, vs)
    ensures |words| == |fs|
    ensures forall j :: 0 <= j < |fs| && vs[j].Word? ==> words[j] == FinalWord(fs, vs, j)
  {
    words := [];
    var k := 0;
    while k < |fs|
      invariant 0 <= k <= |fs| == |vs| && |words| == k
      invariant forall j :: 0 <= j < k && vs[j].Word? ==> words[j] == WordAfter(fs, vs, j, k)
    {
      assert HasType(fs[k], vs[k]);
      if fs[k].Flags? {
        words := words + [vs[k].w];
      } else {
        if fs[k].When? && vs[k].o.Some? {
          var j := fs[k].flags;
          assert HasType(fs[j], vs[j]);
          words := words[j := SetBit(words[j], fs[k].bit)];
        }
        words := words + [0];
      }
      k := k + 1;
    }
  }

  /** `deserialize`. */
  method Deserialize<V>(fs: seq<Field<V>>, de: Deserializer) returns (r: Parse<seq<Val<V>>>)
    modifies de
    ensures r == DecFrom(fs, [], old(de.input)) && (r.Done? ==> de.input == r.rest)
  {
    var env: seq<Val<V>> := [];
    while |env| < |fs|
      invariant |env| <= |fs|
      invariant DecFrom(fs, env, de.input) == DecFrom(fs, [], old(de.input))
      decreases |fs| - |env|
    {
      match DecField(fs[|env|], env, de.input) {
        case Done(v, rest) =>
          env := env + [v];
          de.input := rest;
        case UnexpectedNumber(m, rest) => return UnexpectedNumber(m, rest);
        case Malformed(rest) => return Malformed(rest);
        case Panics => return Panics;
      }
    }
    return Done(env, de.input);
  }
}
