/** The derived codecs for whole types: tagged sums and optionally tagged records. */
module Derive {
  import opened Prelude
  import opened Bits
  import opened CellCodec
  import R = CellRoundTrip
  import D = TagDispatch

  /** `gen_tag_store`: packs the tag's number into as many bits as the tag has. */
  function StoreTag(tag: Bits): Cell {
    Cell(Low(Value(tag), |tag|), [])
  }

  /** `gen_tag_check`: unpacks that many bits and compares numbers. */
  function CheckTag(tag: Bits, s: Cell): Option<Cell> {
    if |s.bits| < |tag| || Value(s.bits[..|tag|]) != Value(tag) then None
    else Some(Cell(s.bits[|tag|..], s.refs))
  }

  lemma {:induction false} CheckTagExact(tag: Bits, s: Cell, t: Cell)
    ensures CheckTag(tag, s) == Some(t) <==> s == StoreTag(tag).Then(t)
  {
    LowOfValue(tag);
    if CheckTag(tag, s).Some? {
      ValueInjective(s.bits[..|tag|], tag);
      assert s.bits == tag + s.bits[|tag|..];
      assert s == StoreTag(tag).Then(CheckTag(tag, s).value);
    }
    if s == StoreTag(tag).Then(t) {
      assert s.bits[..|tag|] == tag && s.bits[|tag|..] == t.bits && s.refs == t.refs;
    }
  }

  // ------------------------------------------------------------ tagged sums

  datatype Variant<!V> = Variant(tag: Bits, fields: seq<Entry<V>>)

  function Tags<V>(vs: seq<Variant<V>>): (tags: seq<Bits>)
    ensures |tags| == |vs| && forall i :: 0 <= i < |vs| ==> tags[i] == vs[i].tag
  {
    seq(|vs|, i requires 0 <= i < |vs| => vs[i].tag)
  }

  /** The writer's `expand_enum` succeeds. */
  ghost predicate WriterGenerates<V>(vs: seq<Variant<V>>) {
    && vs != []
    && forall v :: v in vs ==> |v.tag| <= D.MAX_TAG_BITS && WritePlan(v.fields, 0, false).Ok?
  }

  /** The reader's `expand_enum` succeeds within some stack. */
  ghost predicate ReaderGenerates<V>(vs: seq<Variant<V>>, stack: nat) {
    && vs != []
    && D.Build(D.FromTags(Tags(vs)), stack).Done?
    && forall v :: v in vs ==> ReadPlan(v.fields, 0, false).Ok?
  }

  ghost function WriteEnum<V>(vs: seq<Variant<V>>, i: nat, vals: seq<V>): Option<Cell>
    requires WriterGenerates(vs) && i < |vs|
  {
    match R.Write(vs[i].fields, vals)
    case None => None
    case Some(w) => Some(StoreTag(vs[i].tag).Then(w))
  }

  ghost function ReadEnum<V>(vs: seq<Variant<V>>, stack: nat, s: Cell): Option<(nat, seq<V>, Cell)>
    requires ReaderGenerates(vs, stack)
  {
    match D.Run(D.Build(D.FromTags(Tags(vs)), stack).value, s.bits)
    case None => None
    case Some((i, rest)) =>
      if i >= |vs| then None
      else match R.Read(vs[i].fields, Cell(rest, s.refs))
        case None => None
        case Some((vals, t)) => Some((i, vals, t))
  }

  /**
    * Once the writer generates, the reader generates exactly when no tag properly extends
    * another; the stack needed is the depth of the tag tree.
    */
  lemma {:induction false} ReaderGeneratesIff<V>(vs: seq<Variant<V>>)
    requires WriterGenerates(vs)
    ensures (exists stack :: ReaderGenerates(vs, stack)) <==> !D.HasProperPrefix(Tags(vs))
  {
    var tags := Tags(vs);
    forall v | v in vs ensures ReadPlan(v.fields, 0, false).Ok? {
      SameMarkersAccepted(v.fields);
    }
    if D.HasProperPrefix(tags) {
      forall stack ensures !ReaderGenerates(vs, stack) {
        D.PrefixedTagsNeverGenerate(tags, stack);
      }
    } else {
      forall i | 0 <= i < |tags| ensures |tags[i]| <= D.MAX_TAG_BITS {
        assert vs[i] in vs;
      }
      var stack := D.FromTags(tags).Height();
      D.PrefixFreeTagsGenerate(tags, stack);
      assert ReaderGenerates(vs, stack);
    }
  }

  /** Every field type reads back what it writes. */
  ghost predicate AllSound<V(!new)>(es: seq<Entry<V>>) {
    forall e :: e in es ==> Sound(e.codec)
  }

  /** Every field type accepts nothing but what it writes. */
  ghost predicate AllExact<V(!new)>(es: seq<Entry<V>>) {
    forall e :: e in es ==> Exact(e.codec)
  }

  /**
    * What was written as variant i is read back as variant i, with the trailing bits and
    * references untouched, exactly when no later variant repeats its tag. Field types may
    * accept further encodings, and those of the other variants do not matter.
    */
  lemma {:induction false} EnumWrittenReadsBack<V(!new)>(vs: seq<Variant<V>>, stack: nat, i: nat, vals: seq<V>, t: Cell)
    requires WriterGenerates(vs) && ReaderGenerates(vs, stack)
    requires i < |vs| && |vals| == |vs[i].fields| && AllSound(vs[i].fields)
    requires WriteEnum(vs, i, vals).Some?
    ensures ReadEnum(vs, stack, WriteEnum(vs, i, vals).value.Then(t)) == Some((i, vals, t)) <==> D.Owns(Tags(vs), i)
  {
    var es, tag := vs[i].fields, vs[i].tag;
    assert vs[i] in vs;
    SameMarkersAccepted(es);
    var w := R.Write(es, vals).value;
    var s := WriteEnum(vs, i, vals).value.Then(t);
    R.ThenAssociates(StoreTag(tag), w, t);
    LowOfValue(tag);
    D.DispatchCorrect(Tags(vs), stack, s.bits, i, w.Then(t).bits);
    R.WrittenReadsBack(es, vals, t);
    assert s.refs == w.Then(t).refs;
    if ReadEnum(vs, stack, s) == Some((i, vals, t)) {
      var rest := D.Run(D.Build(D.FromTags(Tags(vs)), stack).value, s.bits).value.1;
      D.DispatchCorrect(Tags(vs), stack, s.bits, i, rest);
    }
  }

  /** What is read as variant i was written as variant i, by the type's own writer. */
  lemma {:induction false} EnumReadWasWritten<V(!new)>(vs: seq<Variant<V>>, stack: nat, i: nat, vals: seq<V>, s: Cell,
                                                       t: Cell)
    requires WriterGenerates(vs) && ReaderGenerates(vs, stack)
    requires i < |vs| && |vals| == |vs[i].fields| && AllExact(vs[i].fields)
    requires ReadEnum(vs, stack, s) == Some((i, vals, t))
    ensures D.Owns(Tags(vs), i) && WriteEnum(vs, i, vals).Some? && s == WriteEnum(vs, i, vals).value.Then(t)
  {
    var es, tag := vs[i].fields, vs[i].tag;
    assert vs[i] in vs;
    SameMarkersAccepted(es);
    var rest := D.Run(D.Build(D.FromTags(Tags(vs)), stack).value, s.bits).value.1;
    D.DispatchCorrect(Tags(vs), stack, s.bits, i, rest);
    R.ReadWasWritten(es, vals, Cell(rest, s.refs), t);
    LowOfValue(tag);
    var w := R.Write(es, vals).value;
    R.ThenAssociates(StoreTag(tag), w, t);
    assert s == StoreTag(tag).Then(w.Then(t));
  }

  /**
    * Reading a sum yields variant i with `vals` and leaves `t` exactly when the input is what
    * writing that variant produces, followed by `t`. A variant whose tag a later one repeats
    * is never produced by the reader.
    */
  lemma {:induction false} EnumRoundTrip<V(!new)>(vs: seq<Variant<V>>, stack: nat, i: nat, vals: seq<V>, s: Cell,
                                                  t: Cell)
    requires WriterGenerates(vs) && ReaderGenerates(vs, stack)
    requires i < |vs| && |vals| == |vs[i].fields| && AllSound(vs[i].fields) && AllExact(vs[i].fields)
    ensures ReadEnum(vs, stack, s) == Some((i, vals, t))
       <==> D.Owns(Tags(vs), i) && WriteEnum(vs, i, vals).Some? && s == WriteEnum(vs, i, vals).value.Then(t)
  {
    if ReadEnum(vs, stack, s) == Some((i, vals, t)) {
      EnumReadWasWritten(vs, stack, i, vals, s, t);
    }
    if D.Owns(Tags(vs), i) && WriteEnum(vs, i, vals).Some? && s == WriteEnum(vs, i, vals).value.Then(t) {
      EnumWrittenReadsBack(vs, stack, i, vals, t);
    }
  }

  // --------------------------------------------------------------- records

  predicate ShortTag(tag: Option<Bits>) {
    tag.Some? ==> |tag.value| <= D.MAX_TAG_BITS
  }

  /** The writer's `expand_struct` succeeds. */
  predicate StructWriterGenerates<V>(tag: Option<Bits>, es: seq<Entry<V>>) {
    ShortTag(tag) && WritePlan(es, 0, false).Ok?
  }

  /** The reader's `expand_struct` succeeds. */
  predicate StructReaderGenerates<V>(tag: Option<Bits>, es: seq<Entry<V>>) {
    ShortTag(tag) && ReadPlan(es, 0, false).Ok?
  }

  function WriteStruct<V>(tag: Option<Bits>, es: seq<Entry<V>>, vals: seq<V>): Option<Cell>
    requires StructWriterGenerates(tag, es)
  {
    match R.Write(es, vals)
    case None => None
    case Some(w) => Some(if tag.Some? then StoreTag(tag.value).Then(w) else w)
  }

  function ReadStruct<V>(tag: Option<Bits>, es: seq<Entry<V>>, s: Cell): Option<(seq<V>, Cell)>
    requires StructReaderGenerates(tag, es)
  {
    match (if tag.Some? then CheckTag(tag.value, s) else Some(s))
    case None => None
    case Some(rest) => R.Read(es, rest)
  }

  /** Reader and writer of a record generate together: for balanced markers and a tag of at most 32 bits. */
  lemma {:induction false} StructGeneratesIff<V>(tag: Option<Bits>, es: seq<Entry<V>>)
    ensures StructWriterGenerates(tag, es) <==> ShortTag(tag) && Balanced(Markers(es))
    ensures StructReaderGenerates(tag, es) <==> ShortTag(tag) && Balanced(Markers(es))
  {
    SameMarkersAccepted(es);
  }

  /** A written record is read back with the trailing bits and references untouched. */
  lemma {:induction false} StructWrittenReadsBack<V(!new)>(tag: Option<Bits>, es: seq<Entry<V>>, vals: seq<V>, t: Cell)
    requires StructWriterGenerates(tag, es) && AllSound(es) && |vals| == |es|
    requires WriteStruct(tag, es, vals).Some?
    ensures StructReaderGenerates(tag, es)
    ensures ReadStruct(tag, es, WriteStruct(tag, es, vals).value.Then(t)) == Some((vals, t))
  {
    StructGeneratesIff(tag, es);
    R.WrittenReadsBack(es, vals, t);
    var w := R.Write(es, vals).value;
    if tag.Some? {
      CheckTagExact(tag.value, StoreTag(tag.value).Then(w.Then(t)), w.Then(t));
      R.ThenAssociates(StoreTag(tag.value), w, t);
    }
  }

  /** A record that is read was written by the type's own writer. */
  lemma {:induction false} StructReadWasWritten<V(!new)>(tag: Option<Bits>, es: seq<Entry<V>>, vals: seq<V>, s: Cell,
                                                         t: Cell)
    requires StructReaderGenerates(tag, es) && AllExact(es) && |vals| == |es|
    requires ReadStruct(tag, es, s) == Some((vals, t))
    ensures StructWriterGenerates(tag, es)
    ensures WriteStruct(tag, es, vals).Some? && s == WriteStruct(tag, es, vals).value.Then(t)
  {
    StructGeneratesIff(tag, es);
    if tag.Some? {
      var rest := CheckTag(tag.value, s).value;
      CheckTagExact(tag.value, s, rest);
      R.ReadWasWritten(es, vals, rest, t);
      R.ThenAssociates(StoreTag(tag.value), R.Write(es, vals).value, t);
    } else {
      R.ReadWasWritten(es, vals, s, t);
    }
  }

  /** Over self-inverse field types reading and writing a record are inverse to each other. */
  lemma {:induction false} StructRoundTrip<V(!new)>(tag: Option<Bits>, es: seq<Entry<V>>, vals: seq<V>, s: Cell,
                                                    t: Cell)
    requires StructWriterGenerates(tag, es) && AllSound(es) && AllExact(es) && |vals| == |es|
    ensures StructReaderGenerates(tag, es)
    ensures ReadStruct(tag, es, s) == Some((vals, t))
       <==> WriteStruct(tag, es, vals).Some? && s == WriteStruct(tag, es, vals).value.Then(t)
  {
    StructGeneratesIff(tag, es);
    if ReadStruct(tag, es, s) == Some((vals, t)) {
      StructReadWasWritten(tag, es, vals, s, t);
    }
    if WriteStruct(tag, es, vals).Some? && s == WriteStruct(tag, es, vals).value.Then(t) {
      StructWrittenReadsBack(tag, es, vals, t);
    }
  }
}
