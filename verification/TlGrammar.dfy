/** The TL schema parser: alternatives are tried in order, and a failure that is not recoverable ends the parse. */
module TlGrammar {
  import opened Prelude
  import opened Numerals
  import opened TlText
  import Bytes

  datatype P<+T> = Done(at: nat, v: T) | Error | Failure

  datatype Condition = Condition(flags: string, bit: Option<nat>)

  datatype FieldType = Plain(name: string, condition: Option<Condition>)
      | Repetition(multiplicity: Option<string>, fields: seq<Field>)

  datatype Field = Field(name: Option<string>, ty: FieldType, bang: bool)

  datatype OptionalField = OptionalField(name: string, ty: string)

  datatype Combinator = Combinator(functional: bool, builtin: bool, id: string, ty: string, number: Option<nat>,
                                   optionals: seq<OptionalField>, fields: seq<Field>)

  predicate Moves<T>(s: string, i: nat, p: P<T>) {
    p.Done? ==> i < p.at <= |s|
  }

  // ------------------------------------------------------------------ types

  function Text(s: string, i: nat, j: nat): P<string>
    requires i <= j <= |s|
  {
    if i == j then Error else Done(j, s[i..j])
  }

  function Atom(s: string, i: nat): (p: P<string>)
    requires i <= |s|
    ensures Moves(s, i, p) && !p.Failure?
  {
    if GenericEnd(s, i) > i then Text(s, i, GenericEnd(s, i))
    else if TypeEnd(s, i) > i then Text(s, i, TypeEnd(s, i))
    else if VarEnd(s, i) > i then Text(s, i, VarEnd(s, i))
    else Text(s, i, Run(s, i, Digit))
  }

  /** `term`: the parentheses and the percent sign are dropped. */
  function Term(s: string, i: nat): (p: P<string>)
    requires i <= |s|
    ensures Moves(s, i, p) && !p.Failure?
    decreases |s| - i, 0
  {
    var inner := if Is(s, i, '(') then Expr(s, i + 1) else Error;
    if inner.Done? && Is(s, inner.at, ')') then Done(inner.at + 1, inner.v)
    else if Atom(s, i).Done? then Atom(s, i)
    else if Is(s, i, '%') then Term(s, i + 1)
    else Error
  }

  /** `subexpr`: a term, or else sums of terms. */
  function Subexpr(s: string, i: nat): (p: P<string>)
    requires i <= |s|
    ensures Moves(s, i, p) && !p.Failure?
    decreases |s| - i, 4
  {
    if Term(s, i).Done? then Term(s, i)
    else
      var first := Sum(s, i);
      if first.Done? then MoreSums(s, first.at, first.v) else Error
  }

  function TermOrNumber(s: string, i: nat): (p: P<string>)
    requires i <= |s|
    ensures Moves(s, i, p) && !p.Failure?
    decreases |s| - i, 1
  {
    if Term(s, i).Done? then Term(s, i) else Text(s, i, Run(s, i, Digit))
  }

  function Sum(s: string, i: nat): (p: P<string>)
    requires i <= |s|
    ensures Moves(s, i, p) && !p.Failure?
    decreases |s| - i, 2
  {
    var a := TermOrNumber(s, i);
    if !a.Done? || !Is(s, a.at, '+') then Error
    else
      var b := TermOrNumber(s, a.at + 1);
      if b.Done? then Done(b.at, a.v + " + " + b.v) else Error
  }

  function MoreSums(s: string, i: nat, acc: string): (p: P<string>)
    requires i <= |s|
    ensures p.Done? && i <= p.at <= |s|
    decreases |s| - i, 3
  {
    var next := Sum(s, i);
    if next.Done? then MoreSums(s, next.at, acc + "+" + next.v) else Done(i, acc)
  }

  /** `expr`: subexpressions with single blanks between. */
  function Expr(s: string, i: nat): (p: P<string>)
    requires i <= |s|
    ensures Moves(s, i, p) && !p.Failure?
    decreases |s| - i, 5
  {
    var first := Subexpr(s, i);
    if first.Done? then MoreExprs(s, first.at, first.v) else Error
  }

  function MoreExprs(s: string, i: nat, acc: string): (p: P<string>)
    requires i <= |s|
    ensures p.Done? && i <= p.at <= |s|
    decreases |s| - i, 3
  {
    var next := if Is(s, i, ' ') then Subexpr(s, i + 1) else Error;
    if next.Done? then MoreExprs(s, next.at, acc + " " + next.v) else Done(i, acc)
  }

  /** The sum alternative of `subexpr` never applies: it starts with a term or a number, which is a term. */
  lemma {:induction false} SubexprIsTerm(s: string, i: nat)
    requires i <= |s|
    ensures Subexpr(s, i) == Term(s, i)
  {
    if !Term(s, i).Done? {
      assert !Atom(s, i).Done?;
      assert !TermOrNumber(s, i).Done?;
      assert !Sum(s, i).Done?;
    }
  }

  function TypeTerm(s: string, i: nat): (p: P<(bool, string)>)
    requires i <= |s|
    ensures Moves(s, i, p) && !p.Failure?
  {
    var bang := Is(s, i, '!');
    var t := Term(s, if bang then i + 1 else i);
    if t.Done? then Done(t.at, (bang, t.v)) else Error
  }

  // ----------------------------------------------------------------- fields

  /** A bit number that does not fit 32 bits is a failure, before the question mark is looked for. */
  function ConditionalDef(s: string, i: nat): (p: P<Condition>)
    requires i <= |s|
    ensures Moves(s, i, p)
  {
    var dot := VarEnd(s, i);
    var end := if Is(s, dot, '.') then Run(s, dot + 1, Digit) else dot;
    if dot == i then Error
    else if end <= dot + 1 then
      if Is(s, dot, '?') then Done(dot + 1, Condition(s[i..dot], None)) else Error
    else
      var bit := DecimalValue(s[dot + 1..end]);
      if bit.None? || bit.value >= Bytes.U32 then Failure
      else if Is(s, end, '?') then Done(end + 1, Condition(s[i..dot], bit))
      else Error
  }

  /** `name:[condition]type`. */
  function Args1(s: string, i: nat): (p: P<seq<Field>>)
    requires i <= |s|
    ensures Moves(s, i, p)
  {
    var colon := VarOptEnd(s, i);
    if colon == i || !Is(s, colon, ':') then Error
    else
      var cond := ConditionalDef(s, colon + 1);
      if cond.Failure? then Failure
      else
        var t := TypeTerm(s, if cond.Done? then cond.at else colon + 1);
        if !t.Done? then Error
        else Done(t.at, [Field(Some(s[i..colon]), Plain(t.v.1, if cond.Done? then Some(cond.v) else None), t.v.0)])
  }

  /** `[name:][multiplicity*][ fields ]`. */
  function Args2(s: string, i: nat): (p: P<seq<Field>>)
    requires i <= |s|
    ensures Moves(s, i, p)
    decreases |s| - i, 0
  {
    var colon := VarOptEnd(s, i);
    var named := colon > i && Is(s, colon, ':');
    var start := if named then colon + 1 else i;
    var m := Term(s, start);
    var times := m.Done? && Is(s, m.at, '*');
    var open := if times then m.at + 1 else start;
    if !Is(s, open, '[') then Error
    else
      var first := SpacedArgs(s, open + 1);
      if !first.Done? then first
      else
        var fields := MoreArgs(s, first.at, first.v);
        if !fields.Done? then Failure
        else if !Is(s, fields.at, ']') then Error
        else Done(fields.at + 1, [Field(if named then Some(s[i..colon]) else None,
                                      Repetition(if times then Some(m.v) else None, fields.v), false)])
  }

  function SpacedArgs(s: string, i: nat): (p: P<seq<Field>>)
    requires i <= |s|
    ensures Moves(s, i, p)
    decreases |s| - i, 2
  {
    var a := Args(s, Run(s, i, Space));
    if a.Done? then Done(Run(s, a.at, Space), a.v) else a
  }

  function MoreArgs(s: string, i: nat, acc: seq<Field>): (p: P<seq<Field>>)
    requires i <= |s|
    ensures !p.Error? && (p.Done? ==> i <= p.at <= |s|)
    decreases |s| - i, 3
  {
    var next := SpacedArgs(s, i);
    if next.Done? then MoreArgs(s, next.at, acc + next.v) else if next.Failure? then Failure else Done(i, acc)
  }

  function Names(s: string, i: nat, acc: seq<string>): (p: P<seq<string>>)
    requires i <= |s|
    ensures p.Done? && i <= p.at <= |s| && (|p.v| > |acc| ==> i < p.at)
    decreases |s| - i
  {
    var start := Run(s, i, Space);
    var end := VarOptEnd(s, start);
    if end == start then Done(i, acc) else Names(s, Run(s, end, Space), acc + [s[start..end]])
  }

  /** `(name name:type)`. */
  function Args3(s: string, i: nat): (p: P<seq<Field>>)
    requires i <= |s|
    ensures Moves(s, i, p)
  {
    if !Is(s, i, '(') then Error
    else
      var names := Names(s, i + 1, []);
      if names.v == [] || !Is(s, names.at, ':') then Error
      else
        var t := TypeTerm(s, names.at + 1);
        if !t.Done? || !Is(s, t.at, ')') then Error
        else Done(t.at + 1,
            seq(|names.v|, k requires 0 <= k < |names.v| => Field(Some(names.v[k]), Plain(t.v.1, None), t.v.0)))
  }

  function Args4(s: string, i: nat): (p: P<seq<Field>>)
    requires i <= |s|
    ensures Moves(s, i, p)
  {
    var t := TypeTerm(s, i);
    if t.Done? then Done(t.at, [Field(None, Plain(t.v.1, None), t.v.0)]) else Error
  }

  function Args(s: string, i: nat): (p: P<seq<Field>>)
    requires i <= |s|
    ensures Moves(s, i, p)
    decreases |s| - i, 1
  {
    if !Args1(s, i).Error? then Args1(s, i)
    else if !Args2(s, i).Error? then Args2(s, i)
    else if !Args3(s, i).Error? then Args3(s, i)
    else Args4(s, i)
  }

  // ----------------------------------------------------------- declarations

  /** `full_combinator_id`: a name with, perhaps, `#` and eight hexadecimal digits, or an underscore. */
  function FullId(s: string, i: nat): (p: P<(string, Option<nat>)>)
    requires i <= |s|
    ensures Moves(s, i, p) && !p.Failure?
  {
    var j := LcNsEnd(s, i);
    if j == i then if Is(s, i, '_') then Done(i + 1, ("_", None)) else Error
    else
      var number := if Is(s, j, '#') && j + 9 <= |s| then HexValue(s[j + 1..j + 9]) else None;
      if number.Some? then Done(j + 9, (s[i..j], number)) else Done(j, (s[i..j], None))
  }

  /** `{name name:type}`. */
  function OptArgs(s: string, i: nat): (p: P<seq<OptionalField>>)
    requires i <= |s|
    ensures Moves(s, i, p) && !p.Failure?
  {
    if !Is(s, i, '{') then Error
    else
      var names := OptNames(s, i + 1, []);
      var colon := Run(s, names.at, Space);
      if names.v == [] || !Is(s, colon, ':') then Error
      else
        var t := Expr(s, Skip(s, colon + 1));
        if !t.Done? || !Is(s, t.at, '}') then Error
        else Done(t.at + 1, seq(|names.v|, k requires 0 <= k < |names.v| => OptionalField(names.v[k], t.v)))
  }

  function OptNames(s: string, i: nat, acc: seq<string>): (p: P<seq<string>>)
    requires i <= |s|
    ensures p.Done? && i <= p.at <= |s|
    decreases |s| - i
  {
    var start := Run(s, i, Space);
    var end := VarEnd(s, start);
    if end == start then Done(i, acc) else OptNames(s, Skip(s, end), acc + [s[start..end]])
  }

  /** Blanks before a field: a function may also have comments and line ends there. */
  function Lead(s: string, i: nat, functional: bool): (j: nat)
    requires i <= |s|
    ensures i <= j <= |s|
  {
    if functional then Skip(s, i) else Run(s, i, Space)
  }

  function Optionals(s: string, i: nat, functional: bool): (p: P<seq<OptionalField>>)
    requires i <= |s|
    ensures p.Done? && i <= p.at <= |s|
  {
    var o := OptArgs(s, Lead(s, i, functional));
    if o.Done? then Done(Skip(s, o.at), o.v) else Done(i, [])
  }

  function Fields(s: string, i: nat, functional: bool, acc: seq<Field>): (p: P<seq<Field>>)
    requires i <= |s|
    ensures !p.Error? && (p.Done? ==> i <= p.at <= |s|)
    decreases |s| - i
  {
    var a := Args(s, Lead(s, i, functional));
    if a.Done? then Fields(s, Skip(s, a.at), functional, acc + a.v) else if a.Failure? then Failure else Done(i, acc)
  }

  function ResultArgs(s: string, i: nat, acc: string): (p: P<string>)
    requires i <= |s|
    ensures p.Done? && i <= p.at <= |s|
    decreases |s| - i
  {
    var t := Subexpr(s, Run(s, i, Space));
    if t.Done? then ResultArgs(s, Skip(s, t.at), acc + " " + t.v) else Done(i, acc)
  }

  /** `result_type`: whether it has an exclamation mark, and its text with single blanks. */
  function ResultType(s: string, i: nat): (p: P<(bool, string)>)
    requires i <= |s|
    ensures Moves(s, i, p) && !p.Failure?
  {
    var bang := Is(s, i, '!');
    var start := if bang then i + 1 else i;
    var end := UcNsEnd(s, start);
    if end == start then Error
    else
      var t := ResultArgs(s, end, s[start..end]);
      Done(t.at, (bang, t.v))
  }

  /** A mark between white space; `None` if it is not there. */
  function Mark(s: string, i: nat, c: char): (j: Option<nat>)
    requires i <= |s|
    ensures j.Some? ==> i < j.value <= |s|
  {
    var k := Run(s, i, Multi);
    if Is(s, k, c) then Some(k + 1) else None
  }

  /** From the equals sign to the semicolon. */
  function Tail(s: string, i: nat, functional: bool): (p: P<(bool, string)>)
    requires i <= |s|
    ensures Moves(s, i, p) && !p.Failure?
  {
    var eq := Mark(s, i, '=');
    if eq.None? then Error
    else
      var t := ResultType(s, if functional then Run(s, eq.value, Multi) else Skip(s, eq.value));
      if !t.Done? then Error
      else
        var semi := Mark(s, t.at, ';');
        if semi.None? then Error else Done(semi.value, t.v)
  }

  /** `combinator_decl`, and `functional_combinator_decl`. */
  function Decl(s: string, i: nat, functional: bool): (p: P<Combinator>)
    requires i <= |s|
    ensures Moves(s, i, p)
  {
    var id := FullId(s, Run(s, i, Multi));
    if !id.Done? then Error
    else
      var opts := Optionals(s, id.at, functional);
      var fields := Fields(s, opts.at, functional, []);
      if !fields.Done? then Failure
      else
        var t := Tail(s, fields.at, functional);
        if !t.Done? then Error
        else Done(t.at, Combinator(functional || t.v.0, false, id.v.0, t.v.1, id.v.1, opts.v, fields.v))
  }

  /** `builtin_combinator_decl`: `name ? = Type;`. */
  function Builtin(s: string, i: nat): (p: P<Combinator>)
    requires i <= |s|
    ensures Moves(s, i, p) && !p.Failure?
  {
    var id := FullId(s, Run(s, i, Multi));
    var q := if id.Done? then Mark(s, id.at, '?') else None;
    var eq := if q.Some? then Mark(s, Skip(s, q.value), '=') else None;
    if eq.None? then Error
    else
      var start := Skip(s, eq.value);
      var end := UcNsEnd(s, start);
      var semi := Mark(s, end, ';');
      if end == start || semi.None? then Error
      else Done(semi.value, Combinator(false, true, id.v.0, s[start..end], id.v.1, [], []))
  }

  // ------------------------------------------------------------------ files

  function AnyDecl(s: string, i: nat, functional: bool): (p: P<Combinator>)
    requires i <= |s|
    ensures Moves(s, i, p)
  {
    if Decl(s, i, functional).Error? then Builtin(s, i) else Decl(s, i, functional)
  }

  function Decls(s: string, i: nat, functional: bool, acc: seq<Combinator>): (p: P<seq<Combinator>>)
    requires i <= |s|
    ensures !p.Error? && (p.Done? ==> i <= p.at <= |s|)
    decreases |s| - i
  {
    var d := AnyDecl(s, Skip(s, i), functional);
    if d.Done? then Decls(s, Skip(s, d.at), functional, acc + [d.v]) else if d.Failure? then Failure else Done(i, acc)
  }

  function Title(functional: bool): string {
    if functional then "---functions---" else "---types---"
  }

  /** A section: its title, if it is there, and its declarations. */
  function Section(s: string, i: nat, functional: bool, acc: seq<Combinator>): (p: P<seq<Combinator>>)
    requires i <= |s|
    ensures !p.Error? && (p.Done? ==> i <= p.at <= |s|)
  {
    var start := Skip(s, i);
    var t := Title(functional);
    if At(s, start, t) then Decls(s, Skip(s, start + |t|), functional, acc) else Decls(s, i, functional, acc)
  }

  /** One round of the outer loop: types, then functions. */
  function Round(s: string, i: nat, acc: seq<Combinator>): (p: P<seq<Combinator>>)
    requires i <= |s|
    ensures !p.Error? && (p.Done? ==> i <= p.at <= |s|)
  {
    var types := Section(s, i, false, acc);
    if types.Failure? then Failure else Section(s, types.at, true, types.v)
  }

  /** Rounds until the text is used up; `None` for a failure or a round that gets nowhere. */
  function Rounds(s: string, i: nat, acc: seq<Combinator>): Option<seq<Combinator>>
    requires i <= |s|
    decreases |s| - i
  {
    var r := Round(s, i, acc);
    if r.Failure? then None
    else if r.at == |s| then Some(r.v)
    else if r.at == i then None
    else Rounds(s, r.at, r.v)
  }

  /** `parse`: every round gets further or ends the loop. */
  method Parse(s: string) returns (r: Option<seq<Combinator>>)
    ensures r == Rounds(s, 0, [])
  {
    var at, collect := 0, [];
    while true
      invariant at <= |s| && Rounds(s, at, collect) == Rounds(s, 0, [])
      decreases |s| - at
    {
      var prev := at;
      var types := Section(s, at, false, collect);
      if types.Failure? {
        return None;
      }
      var funcs := Section(s, types.at, true, types.v);
      if funcs.Failure? {
        return None;
      }
      at, collect := funcs.at, funcs.v;
      if at == |s| {
        return Some(collect);
      }
      if prev == at {
        return None;
      }
    }
  }
}
