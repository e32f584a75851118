/** Concrete inputs on which a property fails, one for each property that holds only under a condition. */
module Counterexamples {
  import opened Prelude
  import opened Bits
  import A = AccountRange
  import W = AccountWindows
  import L = BlockBounds
  import S = BlockStreams
  import C = TlSerde
  import T = TlStruct
  import D = TagDispatch
  import B = Bytes
  import Address
  import opened TlText
  import G = TlGrammar
  import P = TlPrinter
  import R = TlRoundTrip

  /** Two transactions one block apart: splitting their range divides by zero. */
  lemma {:induction false} ShortHistoryPanics()
    ensures var x, y := A.Tx(A.TxId(1, "a"), 1, ""), A.Tx(A.TxId(2, "b"), 2, "");
            W.SplitOf([x, y], A.Unbounded, A.Unbounded, x.id) == W.DividedByZero
  {
    var x, y := A.Tx(A.TxId(1, "a"), 1, ""), A.Tx(A.TxId(2, "b"), 2, "");
    W.SplitYieldsRange([x, y], A.Unbounded, A.Unbounded, x.id, 0, 1, []);
  }

  /** Blocks 3 down to 9 admit nothing, yet the range yields the transaction of block 1. */
  lemma {:induction false} ReversedLimitsOverrun()
    ensures var chain := [A.Tx(A.TxId(1, "a"), 1, ""), A.Tx(A.TxId(2, "b"), 5, "")];
            var from, to := L.ExtendFrom(chain, L.AtBlock(3, L.Inclusive)),
                L.ExtendTo(chain, L.AtBlock(9, L.Inclusive));
            from.Ok? && to.Ok? && A.Range(chain, from.value, to.value) != L.InBlocks(chain, 2, 9, 3)
  {
    var chain := [A.Tx(A.TxId(1, "a"), 1, ""), A.Tx(A.TxId(2, "b"), 5, "")];
    var from, to := L.AtBlock(3, L.Inclusive), L.AtBlock(9, L.Inclusive);
    L.LimitErrors(chain, from);
    L.LimitErrors(chain, to);
    assert chain[0].block <= 3;
    assert 3 < chain[1].block < 9;
    assert L.Overshoots(chain, 3, 9);
    L.BlockRangeExact(chain, from, to);
  }

  /** An empty page marked incomplete makes the reader list the block's transaction twice. */
  lemma {:induction false} StalledPageRepeats(x: S.ShortTxId)
    ensures var pages := [S.Page([x], true), S.Page([], true), S.Page([x], false)];
            S.Exchange([x], S.START, pages) && S.Flatten(pages) == [x, x]
  {
    var order := [x];
    var p1, p2, p3 := S.Page([x], true), S.Page([], true), S.Page([x], false);
    var s1 := S.Next(S.START, p1);
    var s2 := S.Next(s1, p2);
    assert S.ResumesAt(order, S.START.after, 0) && S.Answers(order, 0, S.Count(S.START.exp), p1) by {
      CountPositive(S.START.exp);
    }
    assert S.ResumesAt(order, s1.after, 1) && S.Answers(order, 1, S.Count(s1.exp), p2);
    assert S.ResumesAt(order, s2.after, 0) && S.Answers(order, 0, S.Count(s2.exp), p3) by {
      CountPositive(s2.exp);
    }
    assert S.Exchange(order, S.Next(s2, p3), []);
    assert S.Exchange(order, s2, [p3]);
    assert [p2, p3][1..] == [p3];
    assert S.Exchange(order, s1, [p2, p3]);
    assert [p1, p2, p3][1..] == [p2, p3];
    assert S.Flatten([p3]) == [x];
    assert S.Flatten([p2, p3]) == [x];
  }

  lemma {:induction false} CountPositive(exp: nat)
    ensures S.Count(exp) >= 1
  {
    if exp > 0 {
      CountPositive(exp - 1);
    }
  }

  /** Of two variants with the same tag the second is produced, whatever follows the tag. */
  lemma {:induction false} RepeatedTagShadows(stack: nat, rest: Bits)
    requires stack >= 1
    ensures var code := D.Build(D.FromTags([[true], [true]]), stack);
            code.Done? && D.Run(code.value, [true] + rest) == Some((1, rest))
  {
    var tags := [[true], [true]];
    D.FromTagsHeight(tags, 1);
    assert !D.HasProperPrefix(tags);
    D.PrefixFreeTagsGenerate(tags, stack);
    D.DispatchCorrect(tags, stack, [true] + rest, 1, rest);
  }

  /** A user-friendly address on workchain 255 comes back on the masterchain. */
  lemma {:induction false} Workchain255Lost(data: seq<B.Byte>)
    requires |data| == 32
    ensures Address.Parse(Address.Print(Address.UserFriendly(17, 255, data))) ==
              Some(Address.UserFriendly(17, -1, data))
  {
    hide Address.Parse, Address.Print;
    Address.ParsePrinted(Address.UserFriendly(17, 255, data));
  }

  /** A flag set by the caller for a field that is absent: the record is not read back. */
  lemma {:induction false} FlagWithoutField<V(!new)>(ty: C.Tl<V>, t: seq<B.Byte>)
    requires C.Sound(ty)
    ensures var fs, vs := [T.Flags, T.When(0, 0, ty)], [T.Word(1), T.Opt(None)];
            && T.ValidSchema(fs) && T.HasTypes(fs, vs)
            && T.DecFrom(fs, [], T.EncFrom(fs, vs, 0) + t) != C.Done(T.CompletedAll(fs, vs), t)
  {
    var fs, vs := [T.Flags, T.When(0, 0, ty)], [T.Word(1), T.Opt(None)];
    assert T.WordAfter(fs, vs, 0, 1) == 1;
    assert T.WordAfter(fs, vs, 0, 2) == 1;
    assert !T.ConsistentAt(fs, vs, 1);
    T.StructRoundTripIff(fs, vs, t);
  }

  /** A record without fields. */
  function Unit(): C.Tl<()> {
    C.Tl(x => [], s => C.Done((), s), x => true)
  }

  /** A record with one boxed field, none of whose constructors is known. */
  function Nested(): C.Tl<()> {
    C.Tl(x => [], s => if |s| < 4 then C.Panics else C.UnexpectedNumber(C.FromBe32(s[..4]), s[4..]), x => false)
  }

  /** An error type that shares its number with the answer type: its message is read as an answer. */
  lemma {:induction false} SharedNumberMisread(t: seq<B.Byte>)
    ensures var cs := [C.Ctor(7, Unit())];
            C.DecResult(cs, cs, C.EncBoxed(cs, 0, ()) + t) == C.Done(Ok((0, ())), t)
  {
    C.Be32RoundTrip(7);
    var s := C.EncBoxed([C.Ctor(7, Unit())], 0, ()) + t;
    assert s[..4] == C.Be32(7) && s[4..] == t;
  }

  /** An answer with an unexpected number inside is read as an error of the shared number, from behind that number. */
  lemma {:induction false} NestedNumberFallsThrough(t: seq<B.Byte>)
    ensures C.DecResult([C.Ctor(7, Nested())], [C.Ctor(7, Unit())], C.Be32(7) + (C.Be32(8) + t)) ==
              C.Done(Err((0, ())), t)
  {
    C.Be32RoundTrip(7);
    var s := C.Be32(7) + (C.Be32(8) + t);
    assert s[..4] == C.Be32(7) && s[4..] == C.Be32(8) + t;
    assert (C.Be32(8) + t)[4..] == t;
  }

  /** An explicit constructor number is lost in the printed form. */
  lemma {:induction false} NumberForgotten()
    ensures var c := G.Combinator(false, false, "a", "A", Some(7), [], []);
            R.Readable(c, "A", []) && G.Decl(P.Print(c) + ";", 0, false) != G.Done(|P.Print(c)| + 1, c)
  {
    hide G.Decl, P.Print;
    var c := G.Combinator(false, false, "a", "A", Some(7), [], []);
    assert LcEnd("a", 0) == 1 && UcEnd("A", 0) == 1;
    assert R.Readable(c, "A", []);
    R.RoundTripIff(c, "A", [], "", false);
    assert P.Print(c) + ";" + "" == P.Print(c) + ";";
  }
}
