/**
  * Words of the TL schema language. A parser looks at the text `s` from position `i`; the parsers of this
  * module return the position behind what they accept, or `i` itself when they fail. What they accept is
  * never empty, and the value is the text in between.
  */
module TlText {
  import opened Prelude
  import opened Numerals

  datatype Class = Lower | Upper | Digit | Hex | Ident | Space | Multi | Line

  predicate In(c: char, cl: Class) {
    match cl
    case Lower => 'a' <= c <= 'z'
    case Upper => 'A' <= c <= 'Z'
    case Digit => '0' <= c <= '9'
    case Hex => '0' <= c <= '9' || 'a' <= c <= 'f' || 'A' <= c <= 'F'
    case Ident => 'a' <= c <= 'z' || 'A' <= c <= 'Z' || '0' <= c <= '9' || c == '_'
    case Space => c == ' ' || c == '\t'
    case Multi => c == ' ' || c == '\t' || c == '\r' || c == '\n'
    case Line => c != '\n'
  }

  /** End of the longest run of a class. */
  function Run(s: string, i: nat, cl: Class): (j: nat)
    requires i <= |s|
    ensures i <= j <= |s| && (j < |s| ==> !In(s[j], cl))
    ensures forall k :: i <= k < j ==> In(s[k], cl)
    decreases |s| - i
  {
    if i < |s| && In(s[i], cl) then Run(s, i + 1, cl) else i
  }

  lemma {:induction false} RunIs(s: string, i: nat, cl: Class, j: nat)
    requires i <= j <= |s| && (j < |s| ==> !In(s[j], cl)) && forall k :: i <= k < j ==> In(s[k], cl)
    ensures Run(s, i, cl) == j
    decreases j - i
  {
    if i < j {
      RunIs(s, i + 1, cl, j);
    }
  }

  predicate Is(s: string, i: nat, c: char) {
    i < |s| && s[i] == c
  }

  // ----------------------------------------------------------- white space

  /** Position of the first comment end at or after `i`, or the end of the text. */
  function CommentEnd(s: string, i: nat): (j: nat)
    requires i <= |s|
    ensures i <= j <= |s| && (j < |s| ==> j + 1 < |s|)
    decreases |s| - i
  {
    if i + 1 >= |s| then |s| else if s[i] == '*' && s[i + 1] == '/' then i else CommentEnd(s, i + 1)
  }

  /** `space_or_comment`; it cannot fail. */
  function Skip(s: string, i: nat): (j: nat)
    requires i <= |s|
    ensures i <= j <= |s|
    decreases |s| - i
  {
    if Run(s, i, Multi) > i then Skip(s, Run(s, i, Multi))
    else if Is(s, i, '/') && Is(s, i + 1, '/') then Skip(s, Run(s, i + 2, Line))
    else if Is(s, i, '/') && Is(s, i + 1, '*') && CommentEnd(s, i + 2) < |s| then Skip(s, CommentEnd(s, i + 2) + 2)
    else i
  }

  /** One blank before something that is neither blank nor a comment. */
  lemma {:induction false} SkipBlank(s: string, i: nat)
    requires i + 1 < |s| && s[i] == ' ' && !In(s[i + 1], Multi) && s[i + 1] != '/'
    ensures Skip(s, i) == i + 1 && Skip(s, i + 1) == i + 1
    ensures Run(s, i, Space) == i + 1 && Run(s, i + 1, Space) == i + 1
    ensures Run(s, i, Multi) == i + 1 && Run(s, i + 1, Multi) == i + 1
  {
    RunIs(s, i, Multi, i + 1);
    RunIs(s, i, Space, i + 1);
  }

  // ------------------------------------------------------------ identifiers

  function LcEnd(s: string, i: nat): (j: nat)
    requires i <= |s|
    ensures i <= j <= |s|
  {
    if i < |s| && In(s[i], Lower) then Run(s, i + 1, Ident) else i
  }

  function UcEnd(s: string, i: nat): (j: nat)
    requires i <= |s|
    ensures i <= j <= |s|
  {
    if i < |s| && In(s[i], Upper) then Run(s, i + 1, Ident) else i
  }

  /** Further parts of a dotted name: a dot that no part follows is left alone. */
  function MoreParts(s: string, i: nat): (j: nat)
    requires i <= |s|
    ensures i <= j <= |s|
    decreases |s| - i
  {
    if Is(s, i, '.') && LcEnd(s, i + 1) > i + 1 then MoreParts(s, LcEnd(s, i + 1)) else i
  }

  /** `lc_ident_ns`. */
  function LcNsEnd(s: string, i: nat): (j: nat)
    requires i <= |s|
    ensures i <= j <= |s|
  {
    if LcEnd(s, i) > i then MoreParts(s, LcEnd(s, i)) else i
  }

  /** `uc_ident_ns`: a namespace and a dot, if there are, then an upper-case name. */
  function UcNsEnd(s: string, i: nat): (j: nat)
    requires i <= |s|
    ensures i <= j <= |s|
  {
    var dot := LcNsEnd(s, i);
    if dot == i || !Is(s, dot, '.') then UcEnd(s, i)
    else if UcEnd(s, dot + 1) > dot + 1 then UcEnd(s, dot + 1)
    else i
  }

  function TypeEnd(s: string, i: nat): (j: nat)
    requires i <= |s|
    ensures i <= j <= |s|
  {
    if UcNsEnd(s, i) > i then UcNsEnd(s, i)
    else if LcNsEnd(s, i) > i then LcNsEnd(s, i)
    else if Is(s, i, '#') then i + 1
    else i
  }

  function MoreTypes(s: string, i: nat): (j: nat)
    requires i <= |s|
    ensures i <= j <= |s|
    decreases |s| - i
  {
    if Is(s, i, ',') && TypeEnd(s, i + 1) > i + 1 then MoreTypes(s, TypeEnd(s, i + 1)) else i
  }

  /** A type with arguments, `type<type,type>`. */
  function GenericEnd(s: string, i: nat): (j: nat)
    requires i <= |s|
    ensures i <= j <= |s|
  {
    var open := TypeEnd(s, i);
    if open == i || !Is(s, open, '<') || TypeEnd(s, open + 1) == open + 1 then i
    else
      var close := MoreTypes(s, TypeEnd(s, open + 1));
      if Is(s, close, '>') then close + 1 else i
  }

  function VarEnd(s: string, i: nat): (j: nat)
    requires i <= |s|
    ensures i <= j <= |s|
  {
    if LcEnd(s, i) > i then LcEnd(s, i) else UcEnd(s, i)
  }

  function VarOptEnd(s: string, i: nat): (j: nat)
    requires i <= |s|
    ensures i <= j <= |s|
  {
    if VarEnd(s, i) > i then VarEnd(s, i) else if Is(s, i, '_') then i + 1 else i
  }

  // -------------------------------------------------- text within a text

  predicate At(s: string, i: nat, t: string) {
    i + |t| <= |s| && forall k :: 0 <= k < |t| ==> s[i + k] == t[k]
  }

  /** What stands behind `t` cannot continue an identifier. */
  predicate Cut(s: string, j: nat) {
    j < |s| ==> !In(s[j], Ident)
  }

  /** What stands behind `t` is a blank or a semicolon. */
  predicate Closed(s: string, j: nat) {
    j < |s| ==> s[j] == ' ' || s[j] == ';'
  }

  lemma {:induction false} RunShift(s: string, i: nat, t: string, k: nat, cl: Class)
    requires At(s, i, t) && k <= |t| && (i + |t| < |s| ==> !In(s[i + |t|], cl))
    ensures Run(s, i + k, cl) == i + Run(t, k, cl)
    decreases |t| - k
  {
    if k < |t| && In(t[k], cl) {
      assert s[i + k] == t[k];
      RunShift(s, i, t, k + 1, cl);
    } else if k < |t| {
      assert s[i + k] == t[k];
    }
  }

  lemma {:induction false} WordShift(s: string, i: nat, t: string, k: nat)
    requires At(s, i, t) && k <= |t| && Cut(s, i + |t|)
    ensures LcEnd(s, i + k) == i + LcEnd(t, k) && UcEnd(s, i + k) == i + UcEnd(t, k)
  {
    if k < |t| {
      assert s[i + k] == t[k];
      RunShift(s, i, t, k + 1, Ident);
    }
  }

  lemma {:induction false} PartsShift(s: string, i: nat, t: string, k: nat)
    requires At(s, i, t) && k <= |t| && Closed(s, i + |t|)
    ensures MoreParts(s, i + k) == i + MoreParts(t, k)
    decreases |t| - k
  {
    hide LcEnd;
    if k < |t| {
      assert s[i + k] == t[k];
      WordShift(s, i, t, k + 1);
      PartsShift(s, i, t, LcEnd(t, k + 1));
    }
  }

  lemma {:induction false} NsShift(s: string, i: nat, t: string, k: nat)
    requires At(s, i, t) && k <= |t| && Closed(s, i + |t|)
    ensures LcNsEnd(s, i + k) == i + LcNsEnd(t, k)
  {
    WordShift(s, i, t, k);
    PartsShift(s, i, t, LcEnd(t, k));
  }

  lemma {:induction false} IsShift(s: string, i: nat, t: string, k: nat, c: char)
    requires At(s, i, t) && k <= |t| && Closed(s, i + |t|) && c != ' ' && c != ';'
    ensures Is(s, i + k, c) <==> Is(t, k, c)
  {
    if k < |t| {
      assert s[i + k] == t[k];
    }
  }

  lemma {:induction false} UcNsShift(s: string, i: nat, t: string, k: nat)
    requires At(s, i, t) && k <= |t| && Closed(s, i + |t|)
    ensures UcNsEnd(s, i + k) == i + UcNsEnd(t, k)
  {
    hide LcNsEnd, UcEnd;
    NsShift(s, i, t, k);
    WordShift(s, i, t, k);
    var dot := LcNsEnd(t, k);
    IsShift(s, i, t, dot, '.');
    if dot < |t| {
      WordShift(s, i, t, dot + 1);
    }
  }

  lemma {:induction false} TypeShift(s: string, i: nat, t: string, k: nat)
    requires At(s, i, t) && k <= |t| && Closed(s, i + |t|)
    ensures TypeEnd(s, i + k) == i + TypeEnd(t, k)
  {
    UcNsShift(s, i, t, k);
    NsShift(s, i, t, k);
    IsShift(s, i, t, k, '#');
  }

  lemma {:induction false} TypesShift(s: string, i: nat, t: string, k: nat)
    requires At(s, i, t) && k <= |t| && Closed(s, i + |t|)
    ensures MoreTypes(s, i + k) == i + MoreTypes(t, k)
    decreases |t| - k
  {
    hide TypeEnd;
    IsShift(s, i, t, k, ',');
    if k < |t| {
      TypeShift(s, i, t, k + 1);
      TypesShift(s, i, t, TypeEnd(t, k + 1));
    }
  }

  lemma {:induction false} GenericShift(s: string, i: nat, t: string)
    requires At(s, i, t) && Closed(s, i + |t|)
    ensures GenericEnd(s, i) == i + GenericEnd(t, 0)
  {
    hide TypeEnd, At;
    TypeShift(s, i, t, 0);
    var open := TypeEnd(t, 0);
    IsShift(s, i, t, open, '<');
    if open < |t| {
      TypeShift(s, i, t, open + 1);
      TypesShift(s, i, t, TypeEnd(t, open + 1));
      IsShift(s, i, t, MoreTypes(t, TypeEnd(t, open + 1)), '>');
    }
  }

  // ---------------------------------------------------------------- numbers

  lemma {:induction false} NumberBack(s: string, i: nat, n: nat)
    requires At(s, i, Decimal(n))
    ensures forall k :: i <= k < i + |Decimal(n)| ==> In(s[k], Digit)
    ensures DecimalValue(s[i..i + |Decimal(n)|]) == Some(n)
  {
    var t := Decimal(n);
    DecimalRoundTrip(n);
    assert s[i..i + |t|] == t;
    forall k | i <= k < i + |t| ensures In(s[k], Digit) {
      assert IsDigit(t[k - i]) && s[i + (k - i)] == t[k - i];
    }
  }
}
