/** Reading back printed declarations, one and many. */
module TlRoundTrip {
  import opened Prelude
  import opened TlText
  import opened TlGrammar
  import opened TlPrinter

  /** Optional fields print like fields, and so are read as fields. */
  function AsFields(os: seq<OptionalField>): (fs: seq<Field>)
    ensures |fs| == |os| && forall k :: 0 <= k < |os| ==> fs[k] == Field(Some(os[k].name), Plain(os[k].ty, None), false)
  {
    seq(|os|, k requires 0 <= k < |os| => Field(Some(os[k].name), Plain(os[k].ty, None), false))
  }

  /** What is left of a declaration in its printed form. */
  function Canonical(c: Combinator, functional: bool): Combinator {
    Combinator(functional, false, c.id, c.ty, None, [], AsFields(c.optionals) + Bare(c.fields, 0))
  }

  /** Named plain fields, and a boxed result type with simple parameters. */
  predicate Readable(c: Combinator, name: string, ps: seq<string>) {
    && GoodId(c.id) && AllGood(c.fields) && AllGood(AsFields(c.optionals))
    && Boxed(name) && AllSimple(ps) && c.ty == name + Params(ps, 0)
  }

  // ---------------------------------------------------- shape of the print

  lemma {:induction false} PrintsSomething(f: Field)
    requires Good(f)
    ensures PrintField(f) != "" && PrintField(f.(bang := false)) == PrintField(f)
  {
  }

  lemma {:induction false} BarePrints(fs: seq<Field>, k: nat)
    requires k <= |fs|
    ensures PrintFields(Bare(fs, k)) == PrintFields(fs[k..])
    decreases |fs| - k
  {
    if k < |fs| {
      BarePrints(fs, k + 1);
      assert Bare(fs, k)[1..] == Bare(fs, k + 1) && fs[k..][1..] == fs[k + 1..];
      assert PrintField(fs[k].(bang := false)) == PrintField(fs[k]);
    }
  }

  lemma {:induction false} OptionalsPrint(os: seq<OptionalField>)
    ensures PrintFields(AsFields(os)) == PrintOptionals(os)
  {
    if os != [] {
      OptionalsPrint(os[1..]);
      assert AsFields(os)[1..] == AsFields(os[1..]);
      assert PrintField(AsFields(os)[0]) == PrintOptional(os[0]) by {
        var o := os[0];
        assert "" + o.ty == o.ty;
        assert o.name + ":" + o.ty == PrintOptional(o);
      }
    }
  }

  lemma {:induction false} FieldsPrint(fs: seq<Field>)
    requires AllGood(fs) && fs != []
    ensures PrintFields(fs) != ""
  {
    PrintsSomething(fs[0]);
  }

  lemma {:induction false} GlueFields(a: seq<Field>, b: seq<Field>)
    requires AllGood(a) && AllGood(b)
    ensures PrintFields(a + b) == Glue(PrintFields(a), PrintFields(b))
  {
    hide Good, PrintField;
    if a == [] {
      assert a + b == b;
    } else {
      FieldsPrint(a);
      assert (a + b)[1..] == a[1..] + b;
      GlueFields(a[1..], b);
      if b == [] {
        assert a + b == a;
      } else {
        FieldsPrint(b);
        if |a| > 1 {
          FieldsPrint(a[1..]);
          GlueStep(PrintField(a[0]), PrintFields(a[1..]), PrintFields(b));
        }
      }
    }
  }

  lemma {:induction false} GlueStep(x: string, y: string, z: string)
    ensures x + " " + (y + " " + z) == x + " " + y + " " + z
  {
  }

  lemma {:induction false} GlueAssoc(x: string, y: string, z: string)
    ensures Glue(Glue(x, y), z) == Glue(x, Glue(y, z))
  {
    GlueStep(x, y, z);
  }

  lemma {:induction false} BareGood(fs: seq<Field>)
    requires AllGood(fs)
    ensures AllGood(Bare(fs, 0))
  {
    forall k | 0 <= k < |fs| ensures Good(Bare(fs, 0)[k]) {
      assert Good(fs[k]);
    }
  }

  /** Printing does not see what reading back forgets. */
  lemma {:induction false} PrintCanonical(c: Combinator, functional: bool)
    requires AllGood(c.fields) && AllGood(AsFields(c.optionals))
    ensures Print(Canonical(c, functional)) == Print(c)
  {
    hide PrintFields, PrintOptionals, Good;
    OptionalsPrint(c.optionals);
    BarePrints(c.fields, 0);
    assert c.fields[0..] == c.fields;
    BareGood(c.fields);
    GlueFields(AsFields(c.optionals), Bare(c.fields, 0));
    GlueAssoc(c.id, PrintOptionals(c.optionals), PrintFields(c.fields));
    NoOptionalsPrint(c.id);
  }

  lemma {:induction false} NoOptionalsPrint(id: string)
    ensures Glue(id, PrintOptionals([])) == id
  {
  }

  lemma {:induction false} SpacedIs(fs: seq<Field>, k: nat)
    requires k < |fs|
    ensures " " + PrintFields(fs[k..]) == Spaced(fs, k)
    decreases |fs| - k
  {
    hide PrintField;
    assert fs[k..][1..] == fs[k + 1..];
    if k + 1 < |fs| {
      SpacedIs(fs, k + 1);
      Rejoin(PrintField(fs[k]), PrintFields(fs[k + 1..]));
    } else {
      assert Spaced(fs, k + 1) == "";
      assert PrintField(fs[k]) + "" == PrintField(fs[k]);
    }
  }

  lemma {:induction false} Rejoin(x: string, y: string)
    ensures " " + (x + " " + y) == " " + (x + (" " + y))
  {
    assert x + " " + y == x + (" " + y);
  }

  /** The printed form of a canonical declaration, put together from the left. */
  lemma {:induction false} PrintShape(c: Combinator, name: string, ps: seq<string>)
    requires c.id != "" && c.optionals == [] && AllGood(c.fields) && c.ty == name + Params(ps, 0)
    ensures Print(c) + ";" == Shape(c.id, c.fields, name, ps)
  {
    hide PrintFields, PrintOptionals, Good, Params, Spaced;
    NoOptionalsPrint(c.id);
    var front := Glue(c.id, PrintFields(c.fields));
    assert front == c.id + Spaced(c.fields, 0) by {
      FrontIs(c.id, c.fields);
    }
    ShapeJoin(c.id, Spaced(c.fields, 0), name, Params(ps, 0));
  }

  lemma {:induction false} FrontIs(id: string, fs: seq<Field>)
    requires id != "" && AllGood(fs)
    ensures Glue(id, PrintFields(fs)) == id + Spaced(fs, 0)
  {
    hide Good;
    if fs == [] {
      assert id + "" == id;
    } else {
      FieldsPrint(fs);
      SpacedIs(fs, 0);
      assert fs[0..] == fs;
      assert id + " " + PrintFields(fs) == id + (" " + PrintFields(fs));
    }
  }

  lemma {:induction false} ShapeJoin(id: string, front: string, name: string, rest: string)
    ensures id + front + " = " + (name + rest) + ";" == id + ((front + " = ") + (name + (rest + ";")))
  {
    assert name + rest + ";" == name + (rest + ";");
    assert id + front + " = " == id + (front + " = ");
  }

  // ------------------------------------------------------------ round trip

  /** A printed declaration, wherever it stands, is read back as its canonical form. */
  lemma {:induction false} PrintedReadsBack(s: string, i: nat, c: Combinator, name: string, ps: seq<string>,
                                            functional: bool)
    requires Readable(c, name, ps) && At(s, i, Print(c) + ";")
    ensures Decl(s, i, functional) == Done(i + |Print(c)| + 1, Canonical(c, functional))
  {
    hide Decl, Good, Boxed, Simple, Print, Shape, At;
    var d := Canonical(c, functional);
    CanonicalGood(c, functional);
    PrintCanonical(c, functional);
    PrintShape(d, name, ps);
    ShapeBack(s, i, d.id, d.fields, name, ps, functional);
    BareTwice(d.fields);
  }

  lemma {:induction false} CanonicalGood(c: Combinator, functional: bool)
    requires AllGood(c.fields) && AllGood(AsFields(c.optionals))
    ensures AllGood(Canonical(c, functional).fields) && NoBang(Canonical(c, functional).fields)
  {
    hide Good;
    BareGood(c.fields);
  }

  predicate NoBang(fs: seq<Field>) {
    forall k :: 0 <= k < |fs| ==> !fs[k].bang
  }

  lemma {:induction false} BareTwice(fs: seq<Field>)
    requires NoBang(fs)
    ensures Bare(fs, 0) == fs
  {
  }

  /** Nothing to forget: neither a number, nor optional fields, nor exclamation marks, and of the kind asked for. */
  predicate IsCanonical(c: Combinator, functional: bool) {
    c.functional == functional && !c.builtin && c.number.None? && c.optionals == [] && NoBang(c.fields)
  }

  lemma {:induction false} CanonicalIff(c: Combinator, functional: bool)
    ensures Canonical(c, functional) == c <==> IsCanonical(c, functional)
  {
    if IsCanonical(c, functional) {
      BareTwice(c.fields);
      assert AsFields([]) == [];
      assert [] + c.fields == c.fields;
    }
    assert [] + Bare(c.fields, 0) == Bare(c.fields, 0);
  }

  /** A readable declaration is read back as it was exactly when it is canonical; what follows is not touched. */
  lemma {:induction false} RoundTripIff(c: Combinator, name: string, ps: seq<string>, t: string, functional: bool)
    requires Readable(c, name, ps)
    ensures Decl(Print(c) + ";" + t, 0, functional) == Done(|Print(c)| + 1, c) <==> IsCanonical(c, functional)
  {
    hide Decl, Readable, Print;
    var s := Print(c) + ";" + t;
    assert At(s, 0, Print(c) + ";");
    PrintedReadsBack(s, 0, c, name, ps, functional);
    CanonicalIff(c, functional);
  }

  // ----------------------------------------------------------- whole files

  /** The declarations from `k` on, one to a line. */
  function File(cs: seq<Combinator>, k: nat): string
    requires k <= |cs|
    decreases |cs| - k
  {
    if k == |cs| then "" else (Print(cs[k]) + ";") + ("\n" + File(cs, k + 1))
  }

  function Canonicals(cs: seq<Combinator>, k: nat): seq<Combinator>
    requires k <= |cs|
    decreases |cs| - k
  {
    if k == |cs| then [] else [Canonical(cs[k], false)] + Canonicals(cs, k + 1)
  }

  ghost predicate AllReadable(cs: seq<Combinator>) {
    forall k :: 0 <= k < |cs| ==> exists name, ps :: Readable(cs[k], name, ps)
  }

  lemma {:induction false} PrintHead(c: Combinator)
    requires GoodId(c.id)
    ensures Print(c) != "" && In(Print(c)[0], Ident)
  {
    hide MoreParts;
    assert In(c.id[0], Ident);
    assert Print(c)[0] == c.id[0];
  }

  lemma {:induction false} AtHead(s: string, i: nat, t: string)
    requires At(s, i, t) && t != ""
    ensures i < |s| && s[i] == t[0]
  {
    assert s[i + 0] == t[0];
  }

  /** Declaration `k` starts at `i`, or the text ends there. */
  lemma {:induction false} DeclAhead(s: string, i: nat, cs: seq<Combinator>, k: nat)
    requires k <= |cs| && AllReadable(cs) && At(s, i, File(cs, k)) && i + |File(cs, k)| == |s|
    ensures if k == |cs| then i == |s| else i < |s| && In(s[i], Ident)
    ensures k < |cs| ==> var e := i + |Print(cs[k])| + 1;
                         At(s, i, Print(cs[k]) + ";") && Is(s, e, '\n') && At(s, e + 1, File(cs, k + 1))
                           && e + 1 + |File(cs, k + 1)| == |s|
  {
    hide Print, GoodId, AllGood, Boxed, AllSimple, Params, At;
    if k < |cs| {
      var first, rest := Print(cs[k]) + ";", File(cs, k + 1);
      AtSplit(s, i, first, "\n" + rest);
      AtSplit(s, i + |first|, "\n", rest);
      AtChar(s, i + |first|, '\n');
      var name, ps :| Readable(cs[k], name, ps);
      PrintHead(cs[k]);
      AtSplit(s, i, Print(cs[k]), ";");
      AtHead(s, i, Print(cs[k]));
    }
  }

  lemma {:induction false} SkipWord(s: string, i: nat)
    requires i <= |s| && (i < |s| ==> In(s[i], Ident))
    ensures Skip(s, i) == i
    ensures i > 0 && s[i - 1] == '\n' ==> Skip(s, i - 1) == i
  {
    if i > 0 && s[i - 1] == '\n' {
      RunIs(s, i - 1, Multi, i);
    }
  }

  lemma {:induction false} NoDecl(s: string, functional: bool)
    ensures AnyDecl(s, |s|, functional) == Error
  {
    assert FullId(s, |s|) == Error;
  }

  lemma {:induction false} DeclsBack(s: string, i: nat, cs: seq<Combinator>, k: nat, acc: seq<Combinator>)
    requires k <= |cs| && AllReadable(cs) && At(s, i, File(cs, k)) && i + |File(cs, k)| == |s|
    ensures Decls(s, i, false, acc) == Done(|s|, acc + Canonicals(cs, k))
    decreases |cs| - k
  {
    hide Decl, Builtin, Skip, Print, File, At, Readable;
    DeclAhead(s, i, cs, k);
    SkipWord(s, i);
    if k == |cs| {
      NoDecl(s, false);
      assert acc + [] == acc;
    } else {
      var e := i + |Print(cs[k])| + 1;
      var name, ps :| Readable(cs[k], name, ps);
      PrintedReadsBack(s, i, cs[k], name, ps, false);
      DeclAhead(s, e + 1, cs, k + 1);
      SkipWord(s, e + 1);
      var d := Canonical(cs[k], false);
      DeclsBack(s, e + 1, cs, k + 1, acc + [d]);
      assert acc + [d] + Canonicals(cs, k + 1) == acc + ([d] + Canonicals(cs, k + 1));
    }
  }

  lemma {:induction false} NoTitle(s: string, i: nat, functional: bool)
    requires i <= |s| && (i < |s| ==> In(s[i], Ident))
    ensures !At(s, i, Title(functional))
  {
    assert Title(functional)[0] == '-';
    assert i < |s| ==> s[i + 0] != Title(functional)[0];
  }

  /** A whole file of readable declarations parses to their canonical forms, in order. */
  lemma {:induction false} FileReadsBack(cs: seq<Combinator>)
    requires AllReadable(cs)
    ensures Rounds(File(cs, 0), 0, []) == Some(Canonicals(cs, 0))
  {
    hide Decls, Skip, File, Canonicals, AllReadable, Title;
    var s := File(cs, 0);
    assert At(s, 0, s);
    DeclAhead(s, 0, cs, 0);
    SkipWord(s, 0);
    NoTitle(s, 0, false);
    DeclsBack(s, 0, cs, 0, []);
    assert [] + Canonicals(cs, 0) == Canonicals(cs, 0);
    SkipWord(s, |s|);
    NoTitle(s, |s|, true);
    NothingLeft(s, Canonicals(cs, 0));
  }

  lemma {:induction false} NothingLeft(s: string, acc: seq<Combinator>)
    ensures Decls(s, |s|, true, acc) == Done(|s|, acc)
  {
    hide AnyDecl;
    SkipWord(s, |s|);
    NoDecl(s, true);
  }
}
