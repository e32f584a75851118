/** Field lists with inlined `^[ ... ]` child cells: the statement generators of the reader and of the writer. */
module CellCodec {
  import opened Prelude
  import opened Bits

  // ------------------------------------------------------- cells and codecs

  /** A cell under construction, or the unread part of a cell being parsed. */
  datatype Cell = Cell(bits: Bits, refs: seq<Cell>) {
    function Then(c: Cell): Cell {
      Cell(bits + c.bits, refs + c.refs)
    }
  }

  const EMPTY: Cell := Cell([], [])

  /** A field type: `put` may refuse a value, `get` may refuse its input. */
  datatype Codec<!V> = Codec(put: V -> Option<Cell>, get: Cell -> Option<(V, Cell)>)

  /** Reading undoes writing, whatever follows. */
  ghost predicate Sound<V(!new)>(c: Codec<V>) {
    forall v, t :: c.put(v).Some? ==> c.get(c.put(v).value.Then(t)) == Some((v, t))
  }

  /** Reading accepts nothing but what writing produces. */
  ghost predicate Exact<V(!new)>(c: Codec<V>) {
    forall s :: c.get(s).Some? ==>
                  var (v, t) := c.get(s).value; c.put(v).Some? && s == c.put(v).value.Then(t)
  }

  datatype Marker = Plain | Start | End | Both {
    predicate Opens() { this == Start || this == Both }
    predicate Closes() { this == End || this == Both }
  }

  datatype Entry<!V> = Entry(codec: Codec<V>, marker: Marker)

  // -------------------------------------------------------- generated code

  datatype ReadStmt = TakeRef | ReadField(inBlock: bool, field: nat) | EnsureEmpty

  datatype WriteStmt = NewBuilder | WriteField(inBlock: bool, field: nat) | AttachRef

  datatype MarkerError = NestedStart | EndWithoutStart | UnclosedStart

  function Emit<S>(now: seq<S>, rest: Result<seq<S>, MarkerError>): Result<seq<S>, MarkerError> {
    if rest.Ok? then Ok(now + rest.value) else rest
  }

  lemma {:induction false} EmitTwice<S>(a: seq<S>, b: seq<S>, rest: Result<seq<S>, MarkerError>)
    ensures Emit(a, Emit(b, rest)) == Emit(a + b, rest)
    ensures Emit([], rest) == rest
  {
    if rest.Ok? {
      assert a + (b + rest.value) == a + b + rest.value;
      assert [] + rest.value == rest.value;
    }
  }

  function MarkerFault(m: Marker, open: bool): Option<MarkerError> {
    if open && m.Opens() then Some(NestedStart)
    else if !open && !m.Opens() && m.Closes() then Some(EndWithoutStart)
    else None
  }

  function ReadStep(m: Marker, inBlock: bool, k: nat): seq<ReadStmt> {
    (if m.Opens() then [TakeRef] else []) + [ReadField(inBlock, k)] + if m.Closes() then [EnsureEmpty] else []
  }

  function WriteStep(m: Marker, inBlock: bool, k: nat): seq<WriteStmt> {
    (if m.Opens() then [NewBuilder] else []) + [WriteField(inBlock, k)] + if m.Closes() then [AttachRef] else []
  }

  /** The reader statements for the fields from `k` on. */
  function ReadPlan<V>(es: seq<Entry<V>>, k: nat, open: bool): Result<seq<ReadStmt>, MarkerError>
    requires k <= |es|
    decreases |es| - k
  {
    if k == |es| then if open then Err(UnclosedStart) else Ok([])
    else
      var m := es[k].marker;
      match MarkerFault(m, open)
      case Some(e) => Err(e)
      case None =>
        var inBlock := open || m.Opens();
        Emit(ReadStep(m, inBlock, k), ReadPlan(es, k + 1, inBlock && !m.Closes()))
  }

  /** The writer statements for the fields from `k` on. */
  function WritePlan<V>(es: seq<Entry<V>>, k: nat, open: bool): Result<seq<WriteStmt>, MarkerError>
    requires k <= |es|
    decreases |es| - k
  {
    if k == |es| then if open then Err(UnclosedStart) else Ok([])
    else
      var m := es[k].marker;
      match MarkerFault(m, open)
      case Some(e) => Err(e)
      case None =>
        var inBlock := open || m.Opens();
        Emit(WriteStep(m, inBlock, k), WritePlan(es, k + 1, inBlock && !m.Closes()))
  }

  /** `gen_field_stmts` of the reader. */
  method GenReader<V>(es: seq<Entry<V>>) returns (r: Result<seq<ReadStmt>, MarkerError>)
    ensures r == ReadPlan(es, 0, false)
  {
    var out: seq<ReadStmt> := [];
    var open := false;
    EmitTwice(out, out, ReadPlan(es, 0, false));
    for k := 0 to |es|
      invariant ReadPlan(es, 0, false) == Emit(out, ReadPlan(es, k, open))
    {
      var m := es[k].marker;
      if open && m.Opens() {
        return Err(NestedStart);
      } else if !open && !m.Opens() && m.Closes() {
        return Err(EndWithoutStart);
      }
      ghost var before := out;
      if m.Opens() {
        out := out + [TakeRef];
        open := true;
      }
      out := out + [ReadField(open, k)];
      ghost var inBlock := open;
      if m.Closes() {
        out := out + [EnsureEmpty];
        open := false;
      }
      assert out == before + ReadStep(m, inBlock, k);
      EmitTwice(before, ReadStep(m, inBlock, k), ReadPlan(es, k + 1, open));
    }
    if open {
      return Err(UnclosedStart);
    }
    assert out + [] == out;
    return Ok(out);
  }

  /** `gen_field_stmts` of the writer. */
  method GenWriter<V>(es: seq<Entry<V>>) returns (r: Result<seq<WriteStmt>, MarkerError>)
    ensures r == WritePlan(es, 0, false)
  {
    var out: seq<WriteStmt> := [];
    var open := false;
    EmitTwice(out, out, WritePlan(es, 0, false));
    for k := 0 to |es|
      invariant WritePlan(es, 0, false) == Emit(out, WritePlan(es, k, open))
    {
      var m := es[k].marker;
      if open && m.Opens() {
        return Err(NestedStart);
      } else if !open && !m.Opens() && m.Closes() {
        return Err(EndWithoutStart);
      }
      ghost var before := out;
      if m.Opens() {
        out := out + [NewBuilder];
        open := true;
      }
      out := out + [WriteField(open, k)];
      ghost var inBlock := open;
      if m.Closes() {
        out := out + [AttachRef];
        open := false;
      }
      assert out == before + WriteStep(m, inBlock, k);
      EmitTwice(before, WriteStep(m, inBlock, k), WritePlan(es, k + 1, open));
    }
    if open {
      return Err(UnclosedStart);
    }
    assert out + [] == out;
    return Ok(out);
  }

  // ------------------------------------------- which markers are accepted

  /** The grammar (Plain | Both | Start Plain* End)*. */
  ghost predicate Balanced(ms: seq<Marker>)
    decreases |ms|
  {
    || ms == []
    || ((ms[0] == Plain || ms[0] == Both) && Balanced(ms[1..]))
    || (ms[0] == Start && exists e :: ClosesAt(ms, e) && Balanced(ms[e + 1..]))
  }

  /** Position `e` ends a block that is open before position 1. */
  ghost predicate ClosesAt(ms: seq<Marker>, e: int) {
    0 < e < |ms| && ms[e] == End && forall i :: 0 < i < e ==> ms[i] == Plain
  }

  ghost function Markers<V>(es: seq<Entry<V>>): seq<Marker> {
    seq(|es|, i requires 0 <= i < |es| => es[i].marker)
  }

  ghost predicate BlockEnd<V>(es: seq<Entry<V>>, k: nat, e: int) {
    k <= e < |es| && es[e].marker == End && forall i :: k <= i < e ==> es[i].marker == Plain
  }

  lemma {:induction false} PlanAccepts<V>(es: seq<Entry<V>>, k: nat)
    requires k <= |es|
    ensures ReadPlan(es, k, false).Ok? <==> Balanced(Markers(es)[k..])
    decreases |es| - k
  {
    var ms := Markers(es)[k..];
    if k < |es| {
      assert ms[1..] == Markers(es)[k + 1..];
      if ms[0] == Start {
        OpenPlanAccepts(es, k + 1);
        forall e
          ensures ClosesAt(ms, e) <==> BlockEnd(es, k + 1, k + e)
          ensures ClosesAt(ms, e) ==> ms[e + 1..] == Markers(es)[k + e + 1..]
        {
          if ClosesAt(ms, e) {
            forall i | k + 1 <= i < k + e ensures es[i].marker == Plain {
              assert ms[i - k] == Plain;
            }
          }
        }
        if ReadPlan(es, k + 1, true).Ok? {
          var e :| BlockEnd(es, k + 1, e) && Balanced(Markers(es)[e + 1..]);
          assert BlockEnd(es, k + 1, k + (e - k));
          assert ClosesAt(ms, e - k);
        }
      } else {
        PlanAccepts(es, k + 1);
      }
    }
  }

  lemma {:induction false} OpenPlanAccepts<V>(es: seq<Entry<V>>, k: nat)
    requires k <= |es|
    ensures ReadPlan(es, k, true).Ok? <==> exists e :: BlockEnd(es, k, e) && Balanced(Markers(es)[e + 1..])
    decreases |es| - k
  {
    if k < |es| {
      if es[k].marker == End {
        PlanAccepts(es, k + 1);
        assert BlockEnd(es, k, k);
        assert forall e :: BlockEnd(es, k, e) ==> e == k;
        assert ReadPlan(es, k, true).Ok? <==> Balanced(Markers(es)[k + 1..]);
      } else if es[k].marker == Plain {
        OpenPlanAccepts(es, k + 1);
        if ReadPlan(es, k, true).Ok? {
          var e :| BlockEnd(es, k + 1, e) && Balanced(Markers(es)[e + 1..]);
          assert BlockEnd(es, k, e);
        } else {
          forall e | BlockEnd(es, k, e) ensures !Balanced(Markers(es)[e + 1..]) {
            assert BlockEnd(es, k + 1, e);
          }
        }
      } else {
        assert forall e :: !BlockEnd(es, k, e);
      }
    }
  }

  lemma {:induction false} PlansFailTogether<V>(es: seq<Entry<V>>, k: nat, open: bool)
    requires k <= |es|
    ensures var r, w := ReadPlan(es, k, open), WritePlan(es, k, open);
            (r.Ok? <==> w.Ok?) && (r.Err? ==> r.error == w.error)
    decreases |es| - k
  {
    if k < |es| {
      var m := es[k].marker;
      PlansFailTogether(es, k + 1, (open || m.Opens()) && !m.Closes());
    }
  }

  /** Reader and writer accept exactly the balanced marker sequences, and report the same fault otherwise. */
  lemma {:induction false} SameMarkersAccepted<V>(es: seq<Entry<V>>)
    ensures ReadPlan(es, 0, false).Ok? <==> Balanced(Markers(es))
    ensures WritePlan(es, 0, false).Ok? <==> Balanced(Markers(es))
    ensures ReadPlan(es, 0, false).Err? ==> WritePlan(es, 0, false) == Err(ReadPlan(es, 0, false).error)
  {
    assert Markers(es)[0..] == Markers(es);
    PlanAccepts(es, 0);
    PlansFailTogether(es, 0, false);
  }
}
