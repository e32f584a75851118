/** Running the generated field statements, and why the writer's output reads back. */
module CellRoundTrip {
  import opened Prelude
  import opened CellCodec

  // ------------------------------------------------- running the statements

  /** The reader's locals: the cell parser, the child parser, and the fields bound so far. */
  datatype Reading<V> = Reading(outer: Cell, block: Cell, vals: seq<V>)

  function ReadOne<V>(es: seq<Entry<V>>, stmt: ReadStmt, st: Reading<V>): Option<Reading<V>> {
    match stmt
    case TakeRef =>
      if st.outer.refs == [] then None
      else Some(st.(outer := Cell(st.outer.bits, st.outer.refs[1..]), block := st.outer.refs[0]))
    case ReadField(inBlock, k) =>
      if k >= |es| then None
      else (
        match es[k].codec.get(if inBlock then st.block else st.outer)
        case None => None
        case Some((v, rest)) =>
          Some(if inBlock then st.(block := rest, vals := st.vals + [v])
              else st.(outer := rest, vals := st.vals + [v])))
    case EnsureEmpty => if st.block == EMPTY then Some(st) else None
  }

  function RunReads<V>(es: seq<Entry<V>>, stmts: seq<ReadStmt>, st: Reading<V>): Option<Reading<V>> {
    if stmts == [] then Some(st)
    else match ReadOne(es, stmts[0], st)
      case None => None
      case Some(st') => RunReads(es, stmts[1..], st')
  }

  /** The writer's locals: the cell builder and the child builder. */
  datatype Writing = Writing(outer: Cell, block: Cell)

  function WriteOne<V>(es: seq<Entry<V>>, vals: seq<V>, stmt: WriteStmt, st: Writing): Option<Writing> {
    match stmt
    case NewBuilder => Some(st.(block := EMPTY))
    case WriteField(inBlock, k) =>
      if k >= |es| || k >= |vals| then None
      else (
        match es[k].codec.put(vals[k])
        case None => None
        case Some(c) => Some(if inBlock then st.(block := st.block.Then(c)) else st.(outer := st.outer.Then(c))))
    case AttachRef => Some(st.(outer := st.outer.Then(Cell([], [st.block]))))
  }

  function RunWrites<V>(es: seq<Entry<V>>, vals: seq<V>, stmts: seq<WriteStmt>, st: Writing): Option<Writing> {
    if stmts == [] then Some(st)
    else match WriteOne(es, vals, stmts[0], st)
      case None => None
      case Some(st') => RunWrites(es, vals, stmts[1..], st')
  }

  /** Parses all fields from a cell: their values and what is left of the cell. */
  function Read<V>(es: seq<Entry<V>>, s: Cell): Option<(seq<V>, Cell)>
    requires ReadPlan(es, 0, false).Ok?
  {
    match RunReads(es, ReadPlan(es, 0, false).value, Reading(s, EMPTY, []))
    case None => None
    case Some(st) => Some((st.vals, st.outer))
  }

  /** Stores all fields into an empty builder. */
  function Write<V>(es: seq<Entry<V>>, vals: seq<V>): Option<Cell>
    requires WritePlan(es, 0, false).Ok?
  {
    match RunWrites(es, vals, WritePlan(es, 0, false).value, Writing(EMPTY, EMPTY))
    case None => None
    case Some(st) => Some(st.outer)
  }

  // ------------------------------------------ what the statements amount to

  predicate StaysOpen(m: Marker, open: bool) {
    (open || m.Opens()) && !m.Closes()
  }

  datatype Stored = Stored(added: Cell, block: Cell)

  /** Storing one field: what it adds to the outer cell, and the child under construction. */
  function StoreOne<V>(e: Entry<V>, open: bool, v: V, block: Cell): Option<Stored> {
    var m := e.marker;
    match e.codec.put(v)
    case None => None
    case Some(c) =>
      if !open && !m.Opens() then Some(Stored(c, block))
      else
        var child := (if m.Opens() then EMPTY else block).Then(c);
        Some(Stored(if m.Closes() then Cell([], [child]) else EMPTY, child))
  }

  function StoreFrom<V>(es: seq<Entry<V>>, vals: seq<V>, k: nat, open: bool, block: Cell): Option<Cell>
    requires k <= |es| && |vals| == |es|
    decreases |es| - k
  {
    if k == |es| then Some(EMPTY)
    else
      match StoreOne(es[k], open, vals[k], block)
      case None => None
      case Some(st) =>
        match StoreFrom(es, vals, k + 1, StaysOpen(es[k].marker, open), st.block)
        case None => None
        case Some(rest) => Some(st.added.Then(rest))
  }

  datatype Fetched<V> = Fetched(v: V, outer: Cell, block: Cell)

  /** Reading one field, `block` being what the open child still holds. */
  function FetchOne<V>(e: Entry<V>, open: bool, outer: Cell, block: Cell): Option<Fetched<V>> {
    var m := e.marker;
    if m.Opens() && outer.refs == [] then None
    else
      var outer' := if m.Opens() then Cell(outer.bits, outer.refs[1..]) else outer;
      var block' := if m.Opens() then outer.refs[0] else block;
      var inBlock := open || m.Opens();
      match e.codec.get(if inBlock then block' else outer')
      case None => None
      case Some((v, rest)) =>
        if !inBlock then Some(Fetched(v, rest, block))
        else if m.Closes() && rest != EMPTY then None
        else Some(Fetched(v, outer', rest))
  }

  function FetchFrom<V>(es: seq<Entry<V>>, k: nat, open: bool, outer: Cell, block: Cell): (r: Option<(seq<V>, Cell)>)
    requires k <= |es|
    ensures r.Some? ==> |r.value.0| == |es| - k
    decreases |es| - k
  {
    if k == |es| then Some(([], outer))
    else
      match FetchOne(es[k], open, outer, block)
      case None => None
      case Some(f) =>
        match FetchFrom(es, k + 1, StaysOpen(es[k].marker, open), f.outer, f.block)
        case None => None
        case Some((vs, t)) => Some(([f.v] + vs, t))
  }

  lemma {:induction false} RunReadsConcat<V>(es: seq<Entry<V>>, a: seq<ReadStmt>, b: seq<ReadStmt>, st: Reading<V>)
    ensures RunReads(es, a + b, st) ==
            match RunReads(es, a, st) case None => None case Some(mid) => RunReads(es, b, mid)
  {
    if a == [] {
      assert a + b == b;
    } else {
      assert (a + b)[1..] == a[1..] + b;
      if ReadOne(es, a[0], st).Some? {
        RunReadsConcat(es, a[1..], b, ReadOne(es, a[0], st).value);
      }
    }
  }

  lemma {:induction false} RunWritesConcat<V>(es: seq<Entry<V>>, vals: seq<V>, a: seq<WriteStmt>, b: seq<WriteStmt>,
                                              st: Writing)
    ensures RunWrites(es, vals, a + b, st) ==
            match RunWrites(es, vals, a, st) case None => None case Some(mid) => RunWrites(es, vals, b, mid)
  {
    if a == [] {
      assert a + b == b;
    } else {
      assert (a + b)[1..] == a[1..] + b;
      if WriteOne(es, vals, a[0], st).Some? {
        RunWritesConcat(es, vals, a[1..], b, WriteOne(es, vals, a[0], st).value);
      }
    }
  }

  /** The statements of one field, executed. */
  lemma {:induction false} ReadStepRuns<V>(es: seq<Entry<V>>, k: nat, open: bool, st: Reading<V>)
    requires k < |es| && MarkerFault(es[k].marker, open).None?
    ensures var m := es[k].marker;
            RunReads(es, ReadStep(m, open || m.Opens(), k), st) ==
            match FetchOne(es[k], open, st.outer, st.block)
            case None => None
            case Some(f) => Some(Reading(f.outer, f.block, st.vals + [f.v]))
  {
    var m := es[k].marker;
    var inBlock := open || m.Opens();
    var open' := if m.Opens() then [TakeRef] else [];
    var close := if m.Closes() then [EnsureEmpty] else [];
    RunReadsConcat(es, open' + [ReadField(inBlock, k)], close, st);
    RunReadsConcat(es, open', [ReadField(inBlock, k)], st);
  }

  lemma {:induction false} WriteStepRuns<V>(es: seq<Entry<V>>, vals: seq<V>, k: nat, open: bool, st: Writing)
    requires k < |es| == |vals| && MarkerFault(es[k].marker, open).None?
    ensures var m := es[k].marker;
            RunWrites(es, vals, WriteStep(m, open || m.Opens(), k), st) ==
            match StoreOne(es[k], open, vals[k], st.block)
            case None => None
            case Some(d) => Some(Writing(st.outer.Then(d.added), d.block))
  {
    var m := es[k].marker;
    var inBlock := open || m.Opens();
    var open' := if m.Opens() then [NewBuilder] else [];
    var close := if m.Closes() then [AttachRef] else [];
    RunWritesConcat(es, vals, open' + [WriteField(inBlock, k)], close, st);
    RunWritesConcat(es, vals, open', [WriteField(inBlock, k)], st);
    ThenAssociates(st.outer, EMPTY, EMPTY);
  }

  lemma {:induction false} ThenAssociates(a: Cell, b: Cell, c: Cell)
    ensures a.Then(b).Then(c) == a.Then(b.Then(c))
    ensures a.Then(EMPTY) == a && EMPTY.Then(a) == a
  {
  }

  /** The generated reader computes `FetchFrom`. */
  lemma {:induction false} ReadsFetch<V>(es: seq<Entry<V>>, k: nat, open: bool, st: Reading<V>)
    requires k <= |es| && ReadPlan(es, k, open).Ok?
    ensures var r := RunReads(es, ReadPlan(es, k, open).value, st);
            match FetchFrom(es, k, open, st.outer, st.block)
            case None => r == None
            case Some((vs, t)) => r.Some? && r.value.vals == st.vals + vs && r.value.outer == t
    decreases |es| - k
  {
    hide FetchOne, ReadStep;
    if k < |es| {
      var m := es[k].marker;
      var step := ReadStep(m, open || m.Opens(), k);
      RunReadsConcat(es, step, ReadPlan(es, k + 1, StaysOpen(m, open)).value, st);
      ReadStepRuns(es, k, open, st);
      var mid := RunReads(es, step, st);
      if mid.Some? {
        ReadsFetch(es, k + 1, StaysOpen(m, open), mid.value);
        var f := FetchOne(es[k], open, st.outer, st.block).value;
        var rest := FetchFrom(es, k + 1, StaysOpen(m, open), f.outer, f.block);
        if rest.Some? {
          assert st.vals + [f.v] + rest.value.0 == st.vals + ([f.v] + rest.value.0);
        }
      }
    }
  }

  /** The generated writer stores `StoreFrom`. */
  lemma {:induction false} WritesStore<V>(es: seq<Entry<V>>, vals: seq<V>, k: nat, open: bool, st: Writing)
    requires k <= |es| == |vals| && WritePlan(es, k, open).Ok?
    ensures var r := RunWrites(es, vals, WritePlan(es, k, open).value, st);
            match StoreFrom(es, vals, k, open, st.block)
            case None => r == None
            case Some(d) => r.Some? && r.value.outer == st.outer.Then(d)
    decreases |es| - k
  {
    ThenAssociates(st.outer, EMPTY, EMPTY);
    if k < |es| {
      var m := es[k].marker;
      var step := WriteStep(m, open || m.Opens(), k);
      RunWritesConcat(es, vals, step, WritePlan(es, k + 1, StaysOpen(m, open)).value, st);
      WriteStepRuns(es, vals, k, open, st);
      var mid := RunWrites(es, vals, step, st);
      if mid.Some? {
        WritesStore(es, vals, k + 1, StaysOpen(m, open), mid.value);
        var rest := StoreFrom(es, vals, k + 1, StaysOpen(m, open), mid.value.block);
        if rest.Some? {
          ThenAssociates(st.outer, StoreOne(es[k], open, vals[k], st.block).value.added, rest.value);
        }
      }
    }
  }

  // ----------------------------------------------------------- round trips

  /**
    * How the two sides line up between fields. `d` is what remains to be stored, `outer` what
    * remains to be read and `t` what follows. With a block open, the reader already holds the
    * child that the writer will attach as the first reference of `d`: `block` is the part
    * written so far and `inner` the part not yet read.
    */
  predicate Aligned(open: bool, outer: Cell, inner: Cell, block: Cell, d: Cell, t: Cell) {
    if open then d.refs != [] && d.refs[0] == block.Then(inner) && outer == Cell(d.bits, d.refs[1..]).Then(t)
    else outer == d.Then(t)
  }

  /** One field written, then the rest aligned: the field can be read and alignment held before it. */
  lemma {:induction false} StepReadsBack<V(!new)>(e: Entry<V>, open: bool, v: V, block: Cell, outer': Cell,
                                                  inner': Cell, rest: Cell, t: Cell)
    returns (outer: Cell, inner: Cell)
    requires Sound(e.codec) && MarkerFault(e.marker, open).None?
    requires StoreOne(e, open, v, block).Some?
    requires var st := StoreOne(e, open, v, block).value;
             Aligned(StaysOpen(e.marker, open), outer', inner', st.block, rest, t)
    requires !StaysOpen(e.marker, open) ==> inner' == EMPTY
    ensures !open ==> inner == EMPTY
    ensures Aligned(open, outer, inner, block, StoreOne(e, open, v, block).value.added.Then(rest), t)
    ensures var f := FetchOne(e, open, outer, inner);
            f.Some? && f.value.v == v && f.value.outer == outer' && f.value.block == inner'
  {
    var m := e.marker;
    var c := e.codec.put(v).value;
    inner := EMPTY;
    if !open && !m.Opens() {
      outer := c.Then(outer');
      ThenAssociates(c, rest, t);
    } else {
      var base := if m.Opens() then EMPTY else block;
      var whole := c.Then(inner');
      ThenAssociates(base, c, inner');
      ThenAssociates(whole, EMPTY, EMPTY);
      ThenAssociates(rest, EMPTY, EMPTY);
      ThenAssociates(base.Then(c), EMPTY, EMPTY);
      if m.Opens() {
        outer := Cell(outer'.bits, [whole] + outer'.refs);
        assert outer.refs[1..] == outer'.refs;
        if m.Closes() {
          assert Cell([], [whole]).Then(rest).refs == [whole] + rest.refs;
        } else {
          assert rest.refs == [whole] + rest.refs[1..];
        }
      } else {
        outer, inner := outer', whole;
        if m.Closes() {
          assert Cell([], [block.Then(c)]).Then(rest).refs[1..] == rest.refs;
        }
      }
    }
  }

  /** One field read, then the rest aligned: the field can be stored and alignment held before it. */
  lemma {:induction false} StepWritesBack<V(!new)>(e: Entry<V>, open: bool, outer: Cell, inner: Cell, block: Cell,
                                                   rest: Cell, t: Cell)
    requires Exact(e.codec) && MarkerFault(e.marker, open).None?
    requires FetchOne(e, open, outer, inner).Some?
    requires var f := FetchOne(e, open, outer, inner).value;
             StoreOne(e, open, f.v, block).Some? ==>
               Aligned(StaysOpen(e.marker, open), f.outer, f.block, StoreOne(e, open, f.v, block).value.block, rest, t)
    ensures var f := FetchOne(e, open, outer, inner).value;
            && StoreOne(e, open, f.v, block).Some?
            && Aligned(open, outer, inner, block, StoreOne(e, open, f.v, block).value.added.Then(rest), t)
  {
    var m := e.marker;
    var f := FetchOne(e, open, outer, inner).value;
    var c := e.codec.put(f.v).value;
    if !open && !m.Opens() {
      ThenAssociates(c, rest, t);
    } else {
      var base := if m.Opens() then EMPTY else block;
      ThenAssociates(base, c, f.block);
      ThenAssociates(c, EMPTY, EMPTY);
      ThenAssociates(rest, EMPTY, EMPTY);
      ThenAssociates(c.Then(f.block), EMPTY, EMPTY);
      if m.Opens() {
        assert outer.refs == [c.Then(f.block)] + f.outer.refs;
      }
      if m.Closes() {
        assert Cell([], [base.Then(c)]).Then(rest).refs[1..] == rest.refs;
      } else {
        assert rest.refs == [base.Then(c).Then(f.block)] + rest.refs[1..];
      }
    }
  }

  lemma {:induction false} NothingAligned(t: Cell)
    ensures forall block :: Aligned(false, t, EMPTY, block, EMPTY, t)
  {
    ThenAssociates(t, t, t);
  }

  lemma {:induction false} StoredIsFetched<V(!new)>(es: seq<Entry<V>>, vals: seq<V>, k: nat, open: bool, block: Cell,
                                                    t: Cell)
    returns (outer: Cell, inner: Cell)
    requires k <= |es| == |vals| && WritePlan(es, k, open).Ok?
    requires forall e :: e in es ==> Sound(e.codec)
    requires StoreFrom(es, vals, k, open, block).Some?
    ensures !open ==> inner == EMPTY
    ensures Aligned(open, outer, inner, block, StoreFrom(es, vals, k, open, block).value, t)
    ensures FetchFrom(es, k, open, outer, inner) == Some((vals[k..], t))
    decreases |es| - k
  {
    hide Aligned, FetchOne, StoreOne, Sound;
    if k == |es| {
      outer, inner := t, EMPTY;
      NothingAligned(t);
    } else {
      var st := StoreOne(es[k], open, vals[k], block).value;
      var next := StaysOpen(es[k].marker, open);
      var outer', inner' := StoredIsFetched(es, vals, k + 1, next, st.block, t);
      var rest := StoreFrom(es, vals, k + 1, next, st.block).value;
      outer, inner := StepReadsBack(es[k], open, vals[k], block, outer', inner', rest, t);
      assert vals[k..] == [vals[k]] + vals[k + 1..];
    }
  }

  lemma {:induction false} FetchedIsStored<V(!new)>(es: seq<Entry<V>>, vals: seq<V>, k: nat, open: bool, outer: Cell,
                                                    inner: Cell, block: Cell)
    requires k <= |es| == |vals| && ReadPlan(es, k, open).Ok?
    requires forall e :: e in es ==> Exact(e.codec)
    requires FetchFrom(es, k, open, outer, inner).Some?
    requires vals[k..] == FetchFrom(es, k, open, outer, inner).value.0
    ensures var d := StoreFrom(es, vals, k, open, block);
            d.Some? && Aligned(open, outer, inner, block, d.value, FetchFrom(es, k, open, outer, inner).value.1)
    decreases |es| - k
  {
    var (vs, t) := FetchFrom(es, k, open, outer, inner).value;
    if k == |es| {
      ThenAssociates(outer, EMPTY, EMPTY);
    } else {
      var f := FetchOne(es[k], open, outer, inner).value;
      var next := StaysOpen(es[k].marker, open);
      assert vals[k] == f.v && vals[k + 1..] == vs[1..];
      assert Exact(es[k].codec);
      var st := StoreOne(es[k], open, f.v, block);
      FetchedIsStored(es, vals, k + 1, next, f.outer, f.block, st.value.block);
      StepWritesBack(es[k], open, outer, inner, block, StoreFrom(es, vals, k + 1, next, st.value.block).value, t);
    }
  }

  /** What is written is read back, if only every field type reads back what it writes. */
  lemma {:induction false} WrittenReadsBack<V(!new)>(es: seq<Entry<V>>, vals: seq<V>, t: Cell)
    requires Balanced(Markers(es)) && |vals| == |es|
    requires forall e :: e in es ==> Sound(e.codec)
    ensures ReadPlan(es, 0, false).Ok? && WritePlan(es, 0, false).Ok?
    ensures Write(es, vals).Some? ==> Read(es, Write(es, vals).value.Then(t)) == Some((vals, t))
  {
    SameMarkersAccepted(es);
    WritesStore(es, vals, 0, false, Writing(EMPTY, EMPTY));
    var d := StoreFrom(es, vals, 0, false, EMPTY);
    if d.Some? {
      ThenAssociates(d.value, EMPTY, EMPTY);
      var outer, _ := StoredIsFetched(es, vals, 0, false, EMPTY, t);
      ReadsFetch(es, 0, false, Reading(outer, EMPTY, []));
      assert vals[0..] == vals && [] + vals == vals;
    }
  }

  /** What is read was written, if only every field type accepts nothing but what it writes. */
  lemma {:induction false} ReadWasWritten<V(!new)>(es: seq<Entry<V>>, vals: seq<V>, s: Cell, t: Cell)
    requires Balanced(Markers(es)) && |vals| == |es|
    requires forall e :: e in es ==> Exact(e.codec)
    ensures ReadPlan(es, 0, false).Ok? && WritePlan(es, 0, false).Ok?
    ensures Read(es, s) == Some((vals, t)) ==> Write(es, vals).Some? && s == Write(es, vals).value.Then(t)
  {
    SameMarkersAccepted(es);
    ReadsFetch(es, 0, false, Reading(s, EMPTY, []));
    WritesStore(es, vals, 0, false, Writing(EMPTY, EMPTY));
    var f := FetchFrom(es, 0, false, s, EMPTY);
    if f.Some? {
      assert [] + f.value.0 == f.value.0 && vals[0..] == vals;
      if f.value.0 == vals {
        FetchedIsStored(es, vals, 0, false, s, EMPTY, EMPTY);
        ThenAssociates(StoreFrom(es, vals, 0, false, EMPTY).value, EMPTY, EMPTY);
      }
    }
  }

  /**
    * For every accepted field list over self-inverse field types, parsing a cell yields
    * `vals` and leaves `t` exactly when the cell is what storing `vals` builds, followed by `t`.
    */
  lemma {:induction false} ReadInvertsWrite<V(!new)>(es: seq<Entry<V>>, vals: seq<V>, s: Cell, t: Cell)
    requires Balanced(Markers(es)) && |vals| == |es|
    requires forall e :: e in es ==> Sound(e.codec) && Exact(e.codec)
    ensures ReadPlan(es, 0, false).Ok? && WritePlan(es, 0, false).Ok?
    ensures Read(es, s) == Some((vals, t)) <==> Write(es, vals).Some? && s == Write(es, vals).value.Then(t)
  {
    WrittenReadsBack(es, vals, t);
    ReadWasWritten(es, vals, s, t);
  }
}
