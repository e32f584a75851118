/** The printed form of a TL declaration, and reading it back. */
module TlPrinter {
  import opened Prelude
  import opened Numerals
  import opened TlText
  import Bytes
  import opened TlGrammar

  // --------------------------------------------------------------- printing

  function PrintCondition(c: Condition): string {
    c.flags + if c.bit.None? then "" else "." + Decimal(c.bit.value)
  }

  function PrintType(ty: FieldType): string
    decreases ty
  {
    match ty
    case Plain(name, condition) => (if condition.None? then "" else PrintCondition(condition.value) + "?") + name
    case Repetition(multiplicity, fields) =>
      (if multiplicity.None? then "" else multiplicity.value + "*") + "[ " + PrintFields(fields) + " ]"
  }

  function PrintField(f: Field): string
    decreases f
  {
    (if f.name.None? then "" else f.name.value + ":") + PrintType(f.ty)
  }

  function PrintFields(fs: seq<Field>): string
    decreases fs
  {
    if fs == [] then ""
    else if |fs| == 1 then PrintField(fs[0])
    else PrintField(fs[0]) + " " + PrintFields(fs[1..])
  }

  function PrintOptional(o: OptionalField): string {
    o.name + ":" + o.ty
  }

  function PrintOptionals(os: seq<OptionalField>): string {
    if os == [] then ""
    else if |os| == 1 then PrintOptional(os[0])
    else PrintOptional(os[0]) + " " + PrintOptionals(os[1..])
  }

  /** Joins with a blank, leaving out what is empty. */
  function Glue(a: string, b: string): string {
    if a == "" then b else if b == "" then a else a + " " + b
  }

  /** `constructor_number_form`. */
  function Print(c: Combinator): string {
    Glue(Glue(c.id, PrintOptionals(c.optionals)), PrintFields(c.fields)) + " = " + c.ty
  }

  // ---------------------------------------------------- what can be read back

  /** A type name, or a type name with arguments. */
  predicate Simple(t: string) {
    t != "" && (GenericEnd(t, 0) == |t| || TypeEnd(t, 0) == |t|)
  }

  predicate GoodCondition(c: Condition) {
    c.flags != "" && VarEnd(c.flags, 0) == |c.flags| && (c.bit.Some? ==> c.bit.value < Bytes.U32)
  }

  /** A named plain field. */
  predicate Good(f: Field) {
    && f.name.Some? && f.name.value != "" && VarOptEnd(f.name.value, 0) == |f.name.value|
    && f.ty.Plain? && Simple(f.ty.name)
    && (f.ty.condition.Some? ==> GoodCondition(f.ty.condition.value))
  }

  lemma {:induction false} AtSplit(s: string, i: nat, a: string, b: string)
    requires At(s, i, a + b)
    ensures At(s, i, a) && At(s, i + |a|, b)
  {
    forall k | 0 <= k < |a| ensures s[i + k] == a[k] {
      assert s[i + k] == (a + b)[k];
    }
    forall k | 0 <= k < |b| ensures s[i + |a| + k] == b[k] {
      assert s[i + (|a| + k)] == (a + b)[|a| + k];
    }
  }

  lemma {:induction false} AtChar(s: string, i: nat, c: char)
    requires At(s, i, [c])
    ensures Is(s, i, c)
  {
    assert s[i + 0] == [c][0];
  }

  lemma {:induction false} AtText(s: string, i: nat, t: string)
    requires At(s, i, t)
    ensures s[i..i + |t|] == t
  {
  }

  // ------------------------------------------------------------------ types

  lemma {:induction false} SimpleHead(t: string)
    requires Simple(t)
    ensures In(t[0], Lower) || In(t[0], Upper) || t[0] == '#'
  {
    hide MoreParts, MoreTypes;
    assert TypeEnd(t, 0) > 0;
    if UcNsEnd(t, 0) > 0 {
      assert LcNsEnd(t, 0) > 0 || UcEnd(t, 0) > 0;
    }
  }

  lemma {:induction false} AtomBack(s: string, i: nat, t: string)
    requires At(s, i, t) && Closed(s, i + |t|) && Simple(t)
    ensures Atom(s, i) == Done(i + |t|, t)
  {
    hide TypeEnd, MoreTypes;
    GenericShift(s, i, t);
    TypeShift(s, i, t, 0);
    AtText(s, i, t);
  }

  lemma {:induction false} TermBack(s: string, i: nat, t: string)
    requires At(s, i, t) && Closed(s, i + |t|) && Simple(t)
    ensures Term(s, i) == Done(i + |t|, t) && Subexpr(s, i) == Done(i + |t|, t)
    ensures TypeTerm(s, i) == Done(i + |t|, (false, t))
  {
    hide Atom, Simple;
    AtomBack(s, i, t);
    SimpleHead(t);
    assert s[i + 0] == t[0];
    SubexprIsTerm(s, i);
  }

  // ------------------------------------------------------------- conditions

  /** In a type name a dot behind the first word is followed by a letter. */
  lemma {:induction false} DotBeforeLetter(t: string)
    requires Simple(t)
    ensures var j := VarEnd(t, 0); j < |t| ==>
              t[j] == '<' || (t[j] == '.' && j + 1 < |t| && !In(t[j + 1], Digit)) || t[0] == '#'
  {
    hide MoreTypes;
    SimpleHead(t);
    var j := VarEnd(t, 0);
    if j < |t| && t[0] != '#' && t[j] != '<' {
      assert TypeEnd(t, 0) > j;
      assert LcEnd(t, 0) == j > 0;
      assert Is(t, j, '.');
    }
  }

  lemma {:induction false} VarShift(s: string, i: nat, t: string)
    requires At(s, i, t) && Cut(s, i + |t|)
    ensures VarEnd(s, i) == i + VarEnd(t, 0)
    ensures (i + |t| < |s| ==> s[i + |t|] != '_') ==> VarOptEnd(s, i) == i + VarOptEnd(t, 0)
  {
    hide LcEnd, UcEnd;
    WordShift(s, i, t, 0);
    if t != "" {
      assert s[i + 0] == t[0];
    }
  }

  /** A type name is not taken for a condition. */
  lemma {:induction false} NoCondition(s: string, i: nat, t: string)
    requires At(s, i, t) && Closed(s, i + |t|) && Simple(t)
    ensures ConditionalDef(s, i) == Error
  {
    hide VarEnd, Simple;
    VarShift(s, i, t);
    DotBeforeLetter(t);
    SimpleHead(t);
    var j := VarEnd(t, 0);
    if j < |t| {
      assert s[i + j] == t[j];
      if j + 1 < |t| {
        assert s[i + (j + 1)] == t[j + 1];
      }
      if t[0] == '#' {
        HashIsNoVar(t);
      }
    }
  }

  lemma {:induction false} HashIsNoVar(t: string)
    requires t != "" && t[0] == '#'
    ensures VarEnd(t, 0) == 0
  {
  }

  /** The reference of a condition, up to what cannot continue it. */
  lemma {:induction false} FlagsBack(s: string, i: nat, flags: string)
    requires flags != "" && VarEnd(flags, 0) == |flags| && At(s, i, flags) && Cut(s, i + |flags|)
    ensures VarEnd(s, i) == i + |flags| > i && s[i..i + |flags|] == flags
  {
    hide VarEnd;
    VarShift(s, i, flags);
    AtText(s, i, flags);
  }

  lemma {:induction false} BareConditionBack(s: string, i: nat, flags: string)
    requires flags != "" && VarEnd(flags, 0) == |flags| && At(s, i, flags) && Is(s, i + |flags|, '?')
    ensures ConditionalDef(s, i) == Done(i + |flags| + 1, Condition(flags, None))
  {
    hide VarEnd, At;
    FlagsBack(s, i, flags);
  }

  lemma {:induction false} BitConditionBack(s: string, i: nat, flags: string, bit: nat)
    requires flags != "" && VarEnd(flags, 0) == |flags| && bit < Bytes.U32
    requires At(s, i, flags) && Is(s, i + |flags|, '.')
    requires At(s, i + |flags| + 1, Decimal(bit)) && Is(s, i + |flags| + 1 + |Decimal(bit)|, '?')
    ensures ConditionalDef(s, i) == Done(i + |flags| + 1 + |Decimal(bit)| + 1, Condition(flags, Some(bit)))
  {
    hide VarEnd, At, Decimal, DecimalValue, Run;
    var dot := i + |flags|;
    FlagsBack(s, i, flags);
    NumberBack(s, dot + 1, bit);
    RunIs(s, dot + 1, Digit, dot + 1 + |Decimal(bit)|);
  }

  lemma {:induction false} ConditionBack(s: string, i: nat, c: Condition)
    requires At(s, i, PrintCondition(c) + "?") && GoodCondition(c)
    ensures ConditionalDef(s, i) == Done(i + |PrintCondition(c)| + 1, c)
  {
    hide VarEnd, ConditionalDef, At, Decimal;
    var t := PrintCondition(c);
    AtSplit(s, i, t, "?");
    AtChar(s, i + |t|, '?');
    if c.bit.None? {
      assert t == c.flags;
      BareConditionBack(s, i, c.flags);
    } else {
      var n := Decimal(c.bit.value);
      assert t == c.flags + ("." + n);
      AtSplit(s, i, c.flags, "." + n);
      AtSplit(s, i + |c.flags|, ".", n);
      AtChar(s, i + |c.flags|, '.');
      BitConditionBack(s, i, c.flags, c.bit.value);
    }
  }

  // ----------------------------------------------------------------- fields

  lemma {:induction false} FieldHead(s: string, i: nat, f: Field)
    requires At(s, i, PrintField(f)) && Good(f)
    ensures At(s, i, f.name.value) && Is(s, i + |f.name.value|, ':') && VarOptEnd(s, i) == i + |f.name.value|
    ensures At(s, i + |f.name.value| + 1, PrintType(f.ty)) && |PrintField(f)| == |f.name.value| + 1 + |PrintType(f.ty)|
    ensures i < |s| && In(s[i], Ident)
  {
    hide VarOptEnd, PrintType, Simple, GoodCondition;
    var name := f.name.value;
    assert PrintField(f) == name + (":" + PrintType(f.ty));
    AtSplit(s, i, name, ":" + PrintType(f.ty));
    AtSplit(s, i + |name|, ":", PrintType(f.ty));
    AtChar(s, i + |name|, ':');
    VarShift(s, i, name);
    assert s[i + 0] == name[0];
    NameHead(name);
  }

  lemma {:induction false} NameHead(name: string)
    requires name != "" && VarOptEnd(name, 0) == |name|
    ensures In(name[0], Ident)
  {
  }

  lemma {:induction false} TypeBack(s: string, i: nat, ty: FieldType)
    requires ty.Plain? && Simple(ty.name) && (ty.condition.Some? ==> GoodCondition(ty.condition.value))
    requires At(s, i, PrintType(ty)) && Closed(s, i + |PrintType(ty)|)
    ensures var cond := ConditionalDef(s, i);
            && (ty.condition.None? ==> cond == Error)
            && (ty.condition.Some? ==> cond == Done(i + |PrintCondition(ty.condition.value)| + 1, ty.condition.value))
            && TypeTerm(s, if cond.Done? then cond.at else i) == Done(i + |PrintType(ty)|, (false, ty.name))
  {
    hide ConditionalDef, TypeTerm, Simple, GoodCondition;
    if ty.condition.None? {
      assert PrintType(ty) == ty.name;
      NoCondition(s, i, ty.name);
      TermBack(s, i, ty.name);
    } else {
      var c := PrintCondition(ty.condition.value) + "?";
      assert PrintType(ty) == c + ty.name;
      AtSplit(s, i, c, ty.name);
      ConditionBack(s, i, ty.condition.value);
      TermBack(s, i + |c|, ty.name);
    }
  }

  /** A named plain field is read back as printed, without its exclamation mark. */
  lemma {:induction false} FieldBack(s: string, i: nat, f: Field)
    requires At(s, i, PrintField(f)) && Good(f) && Closed(s, i + |PrintField(f)|)
    ensures Args(s, i) == Done(i + |PrintField(f)|, [f.(bang := false)])
  {
    hide ConditionalDef, TypeTerm, VarOptEnd, Simple, GoodCondition, PrintField, PrintType, At;
    FieldHead(s, i, f);
    AtText(s, i, f.name.value);
    TypeBack(s, i + |f.name.value| + 1, f.ty);
  }

  lemma {:induction false} NoArgs(s: string, i: nat)
    requires Is(s, i, '=')
    ensures Args(s, i) == Error
  {
    NoTerm(s, i);
    assert VarOptEnd(s, i) == i;
  }

  lemma {:induction false} NoTerm(s: string, i: nat)
    requires Is(s, i, '=') || Is(s, i, ';')
    ensures Term(s, i) == Error && Subexpr(s, i) == Error
  {
    assert Run(s, i, Digit) == i && LcEnd(s, i) == i && UcEnd(s, i) == i;
    assert Atom(s, i) == Error;
    SubexprIsTerm(s, i);
  }

  // ---------------------------------------------------------- field lists

  predicate AllGood(fs: seq<Field>) {
    forall k :: 0 <= k < |fs| ==> Good(fs[k])
  }

  /** The fields from `k` on, each with a blank before it. */
  function Spaced(fs: seq<Field>, k: nat): string
    requires k <= |fs|
    decreases |fs| - k
  {
    if k == |fs| then "" else " " + (PrintField(fs[k]) + Spaced(fs, k + 1))
  }

  /** The fields from `k` on without exclamation marks. */
  function Bare(fs: seq<Field>, k: nat): (r: seq<Field>)
    requires k <= |fs|
    ensures |r| == |fs| - k && forall i :: 0 <= i < |r| ==> r[i] == fs[k + i].(bang := false)
  {
    seq(|fs| - k, i requires 0 <= i < |fs| - k => fs[k + i].(bang := false))
  }

  /** Field `k`, or the equals sign, stands behind one blank. */
  lemma {:induction false} ItemAhead(s: string, b: nat, fs: seq<Field>, k: nat)
    requires k <= |fs| && AllGood(fs) && At(s, b, Spaced(fs, k) + " = ")
    ensures b + 1 < |s| && s[b] == ' ' && (if k == |fs| then s[b + 1] == '=' else In(s[b + 1], Ident))
    ensures k < |fs| ==> Good(fs[k]) && At(s, b + 1, PrintField(fs[k]))
    ensures k < |fs| ==> At(s, b + 1 + |PrintField(fs[k])|, Spaced(fs, k + 1) + " = ")
  {
    hide Good, PrintField;
    if k == |fs| {
      assert Spaced(fs, k) + " = " == " " + ("=" + " ");
      AtSplit(s, b, " ", "=" + " ");
      AtChar(s, b, ' ');
      AtSplit(s, b + 1, "=", " ");
      AtChar(s, b + 1, '=');
    } else {
      var rest := Spaced(fs, k + 1) + " = ";
      assert Spaced(fs, k) + " = " == " " + (PrintField(fs[k]) + rest);
      AtSplit(s, b, " ", PrintField(fs[k]) + rest);
      AtChar(s, b, ' ');
      AtSplit(s, b + 1, PrintField(fs[k]), rest);
      FieldHead(s, b + 1, fs[k]);
    }
  }

  lemma {:induction false} BlankAhead(s: string, b: nat)
    requires b + 1 < |s| && s[b] == ' ' && (s[b + 1] == '=' || In(s[b + 1], Ident))
    ensures Lead(s, b, false) == b + 1 && Lead(s, b + 1, false) == b + 1
    ensures Lead(s, b, true) == b + 1 && Lead(s, b + 1, true) == b + 1
    ensures Skip(s, b) == b + 1 && Run(s, b, Multi) == b + 1 && Run(s, b + 1, Multi) == b + 1
  {
    SkipBlank(s, b);
  }

  lemma {:induction false} FieldsBack(s: string, b: nat, p: nat, fs: seq<Field>, k: nat, functional: bool,
                                      acc: seq<Field>)
    requires k <= |fs| && AllGood(fs) && At(s, b, Spaced(fs, k) + " = ") && b <= p <= b + 1 <= |s|
    ensures var r := Fields(s, p, functional, acc);
            r.Done? && r.v == acc + Bare(fs, k) && Mark(s, r.at, '=') == Some(b + |Spaced(fs, k)| + 2)
    decreases |fs| - k
  {
    hide Args, Skip, Run, Good, AllGood, PrintField, At, Bare, In, Lead;
    ItemAhead(s, b, fs, k);
    BlankAhead(s, b);
    if k == |fs| {
      NoArgs(s, b + 1);
    } else {
      var e := b + 1 + |PrintField(fs[k])|;
      ItemAhead(s, e, fs, k + 1);
      BlankAhead(s, e);
      FieldBack(s, b + 1, fs[k]);
      var f := fs[k].(bang := false);
      FieldsBack(s, e, e + 1, fs, k + 1, functional, acc + [f]);
      assert acc + [f] + Bare(fs, k + 1) == acc + Bare(fs, k);
    }
  }

  // ------------------------------------------------------------ result type

  predicate AllSimple(ps: seq<string>) {
    forall k :: 0 <= k < |ps| ==> Simple(ps[k])
  }

  function Params(ps: seq<string>, k: nat): string
    requires k <= |ps|
    decreases |ps| - k
  {
    if k == |ps| then "" else " " + (ps[k] + Params(ps, k + 1))
  }

  /** Parameter `k`, or the semicolon, comes next. */
  lemma {:induction false} ParamAhead(s: string, b: nat, ps: seq<string>, k: nat)
    requires k <= |ps| && AllSimple(ps) && At(s, b, Params(ps, k) + ";")
    ensures b < |s| && (if k == |ps| then s[b] == ';' else s[b] == ' ')
    ensures k < |ps| ==> At(s, b + 1, ps[k]) && Simple(ps[k]) && At(s, b + 1 + |ps[k]|, Params(ps, k + 1) + ";")
    ensures k < |ps| ==> b + 1 < |s| && !In(s[b + 1], Multi) && s[b + 1] != '/'
  {
    hide Simple;
    if k == |ps| {
      assert Params(ps, k) + ";" == ";";
      AtChar(s, b, ';');
    } else {
      var rest := Params(ps, k + 1) + ";";
      assert Params(ps, k) + ";" == " " + (ps[k] + rest);
      AtSplit(s, b, " ", ps[k] + rest);
      AtChar(s, b, ' ');
      AtSplit(s, b + 1, ps[k], rest);
      SimpleHead(ps[k]);
      SimpleSome(ps[k]);
      assert s[b + 1 + 0] == ps[k][0];
    }
  }

  lemma {:induction false} SimpleSome(t: string)
    requires Simple(t)
    ensures t != ""
  {
  }

  lemma {:induction false} SemiAhead(s: string, b: nat)
    requires b < |s| && s[b] == ';'
    ensures Skip(s, b) == b && Run(s, b, Space) == b && Mark(s, b, ';') == Some(b + 1)
  {
  }

  /** Reading one parameter: the next one starts behind its blank, the semicolon is left where it is. */
  lemma {:induction false} ParamStep(s: string, b: nat, p: nat, ps: seq<string>, k: nat, acc: string)
    requires k < |ps| && AllSimple(ps) && At(s, b, Params(ps, k) + ";") && b <= p <= b + 1 <= |s|
    ensures b + 1 + |ps[k]| < |s|
    ensures ResultArgs(s, p, acc) ==
            ResultArgs(s, b + 1 + |ps[k]| + if k + 1 < |ps| then 1 else 0, acc + " " + ps[k])
  {
    hide Subexpr, Term, TypeTerm, Skip, Run, Simple, AllSimple, At, Params, In;
    var e := b + 1 + |ps[k]|;
    ParamAhead(s, b, ps, k);
    SkipBlank(s, b);
    ParamAhead(s, e, ps, k + 1);
    TermBack(s, b + 1, ps[k]);
    if k + 1 == |ps| {
      SemiAhead(s, e);
    } else {
      SkipBlank(s, e);
    }
  }

  lemma {:induction false} NoParams(s: string, b: nat, acc: string)
    requires Is(s, b, ';')
    ensures ResultArgs(s, b, acc) == Done(b, acc)
  {
    hide Skip, Term;
    SemiAhead(s, b);
    NoTerm(s, b);
  }

  lemma {:induction false} ParamsBack(s: string, b: nat, p: nat, ps: seq<string>, k: nat, acc: string)
    requires k <= |ps| && AllSimple(ps) && At(s, b, Params(ps, k) + ";")
    requires b <= p <= |s| && (p == b || (p == b + 1 && k < |ps|))
    ensures ResultArgs(s, p, acc) == Done(b + |Params(ps, k)|, acc + Params(ps, k))
    decreases |ps| - k
  {
    hide ResultArgs, AllSimple, At, In;
    ParamAhead(s, b, ps, k);
    if k == |ps| {
      NoParams(s, b, acc);
      assert acc + "" == acc;
    } else {
      var e := b + 1 + |ps[k]|;
      ParamStep(s, b, p, ps, k, acc);
      ParamsBack(s, e, e + if k + 1 < |ps| then 1 else 0, ps, k + 1, acc + " " + ps[k]);
      assert acc + " " + ps[k] + Params(ps, k + 1) == acc + (" " + (ps[k] + Params(ps, k + 1)));
    }
  }

  /** The name of a boxed type. */
  predicate Boxed(t: string) {
    t != "" && UcNsEnd(t, 0) == |t|
  }

  lemma {:induction false} BoxedHead(t: string)
    requires Boxed(t)
    ensures In(t[0], Lower) || In(t[0], Upper)
  {
    hide MoreParts;
    assert LcNsEnd(t, 0) > 0 || UcEnd(t, 0) > 0;
  }

  lemma {:induction false} ResultBack(s: string, i: nat, name: string, ps: seq<string>)
    requires Boxed(name) && AllSimple(ps) && At(s, i, name + (Params(ps, 0) + ";"))
    ensures ResultType(s, i) == Done(i + |name| + |Params(ps, 0)|, (false, name + Params(ps, 0)))
    ensures Mark(s, i + |name| + |Params(ps, 0)|, ';') == Some(i + |name| + |Params(ps, 0)| + 1)
    ensures !In(s[i], Multi) && s[i] != '/'
  {
    hide ResultArgs, Simple, UcNsEnd;
    var e := i + |name|;
    AtSplit(s, i, name, Params(ps, 0) + ";");
    AtSplit(s, e, Params(ps, 0), ";");
    AtChar(s, e + |Params(ps, 0)|, ';');
    SemiAhead(s, e + |Params(ps, 0)|);
    ParamAhead(s, e, ps, 0);
    UcNsShift(s, i, name, 0);
    AtText(s, i, name);
    BoxedHead(name);
    assert s[i + 0] == name[0];
    ParamsBack(s, e, e, ps, 0, name);
  }

  lemma {:induction false} TailBack(s: string, r: nat, q: nat, name: string, ps: seq<string>, functional: bool)
    requires Boxed(name) && AllSimple(ps) && r <= |s| && Mark(s, r, '=') == Some(q)
    requires At(s, q, " " + (name + (Params(ps, 0) + ";")))
    ensures Tail(s, r, functional) == Done(q + 1 + |name| + |Params(ps, 0)| + 1, (false, name + Params(ps, 0)))
  {
    hide ResultType, Skip, Run, Simple, Boxed, Mark, Params;
    AtSplit(s, q, " ", name + (Params(ps, 0) + ";"));
    AtChar(s, q, ' ');
    ResultBack(s, q + 1, name, ps);
    SkipBlank(s, q);
  }

  // ----------------------------------------------------------- declarations

  predicate GoodId(id: string) {
    id == "_" || (id != "" && LcNsEnd(id, 0) == |id|)
  }

  lemma {:induction false} IdBack(s: string, i: nat, id: string)
    requires GoodId(id) && At(s, i, id) && Is(s, i + |id|, ' ')
    ensures Run(s, i, Multi) == i && FullId(s, i) == Done(i + |id|, (id, None))
  {
    hide MoreParts;
    assert s[i + 0] == id[0];
    NsShift(s, i, id, 0);
    AtText(s, i, id);
    if id == "_" {
      assert LcNsEnd(s, i) == i;
    }
  }

  lemma {:induction false} NoOptionals(s: string, b: nat, functional: bool)
    requires b + 1 < |s| && s[b] == ' ' && (s[b + 1] == '=' || In(s[b + 1], Ident))
    ensures Optionals(s, b, functional) == Done(b, [])
  {
    hide Skip, Run;
    BlankAhead(s, b);
  }

  /** The printed form of a declaration without optional fields, with the semicolon. */
  function Shape(id: string, fs: seq<Field>, name: string, ps: seq<string>): string {
    id + ((Spaced(fs, 0) + " = ") + (name + (Params(ps, 0) + ";")))
  }

  lemma {:induction false} ShapeBack(s: string, i: nat, id: string, fs: seq<Field>, name: string, ps: seq<string>,
                                     functional: bool)
    requires GoodId(id) && AllGood(fs) && Boxed(name) && AllSimple(ps) && At(s, i, Shape(id, fs, name, ps))
    ensures Decl(s, i, functional) ==
            Done(i + |Shape(id, fs, name, ps)|,
                Combinator(functional, false, id, name + Params(ps, 0), None, [], Bare(fs, 0)))
  {
    hide FullId, Optionals, Fields, Tail, Run, GoodId, Good, Boxed, Simple, At, Mark, Params;
    var b := i + |id|;
    var tail := name + (Params(ps, 0) + ";");
    AtSplit(s, i, id, (Spaced(fs, 0) + " = ") + tail);
    AtSplit(s, b, Spaced(fs, 0) + " = ", tail);
    EqualsAhead(s, b, Spaced(fs, 0), tail);
    ItemAhead(s, b, fs, 0);
    IdBack(s, i, id);
    NoOptionals(s, b, functional);
    FieldsBack(s, b, b, fs, 0, functional, []);
    assert [] + Bare(fs, 0) == Bare(fs, 0);
    TailBack(s, Fields(s, b, functional, []).at, b + |Spaced(fs, 0)| + 2, name, ps, functional);
  }

  lemma {:induction false} EqualsAhead(s: string, b: nat, front: string, tail: string)
    requires At(s, b, front + " = ") && At(s, b + |front| + 3, tail)
    ensures At(s, b + |front| + 2, " " + tail)
  {
    AtSplit(s, b, front, " = ");
    assert s[b + |front| + 2] == " = "[2];
    forall k | 0 <= k < |tail| + 1 ensures s[b + |front| + 2 + k] == (" " + tail)[k] {
      if k > 0 {
        assert s[b + |front| + 3 + (k - 1)] == tail[k - 1];
      }
    }
  }
}
