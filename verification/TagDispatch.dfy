/**
  * The reader generator for tagged sums: a binary trie of variant tags is compiled
  * into nested "read n bits, match on the number" code.
  */
module TagDispatch {
  import opened Prelude
  import opened Bits

  // ---------------------------------------------------------------- the trie

  datatype Trie = Node(leaf: Option<nat>, zero: Option<Trie>, one: Option<Trie>) {

    function Child(b: bool): (c: Option<Trie>)
      ensures c.Some? ==> c.value < this
    {
      if b then one else zero
    }

    /** `is_pure_leaf`: the variant, when nothing hangs below this node. */
    function PureLeaf(): Option<nat> {
      if zero.None? && one.None? then leaf else None
    }

    /** `min_leaf_depth`: the distance to the closest leaf, 0 when there is none. */
    function MinLeafDepth(): nat {
      if leaf.Some? then 0
      else match (zero, one)
        case (None, None) => 0
        case (Some(z), None) => 1 + z.MinLeafDepth()
        case (None, Some(o)) => 1 + o.MinLeafDepth()
        case (Some(z), Some(o)) =>
          var dz, do := z.MinLeafDepth(), o.MinLeafDepth();
          1 + if dz <= do then dz else do
    }

    /** The variant stored at the end of path `p`. */
    function Lookup(p: Bits): Option<nat>
      decreases |p|
    {
      if p == [] then leaf
      else match Child(p[0])
        case None => None
        case Some(c) => c.Lookup(p[1..])
    }

    /** Every node reaches a leaf: what insertion leaves behind. */
    predicate Inhabited() {
      && (leaf.Some? || zero.Some? || one.Some?)
      && (zero.Some? ==> zero.value.Inhabited())
      && (one.Some? ==> one.value.Inhabited())
    }

    /** No leaf has anything below it. */
    predicate PrefixFree() {
      && (leaf.Some? ==> zero.None? && one.None?)
      && (zero.Some? ==> zero.value.PrefixFree())
      && (one.Some? ==> one.value.PrefixFree())
    }

    function Height(): nat {
      var hz := if zero.Some? then 1 + zero.value.Height() else 0;
      var ho := if one.Some? then 1 + one.value.Height() else 0;
      if hz < ho then ho else hz
    }
  }

  const EMPTY: Trie := Node(None, None, None)

  function Insert(t: Trie, bits: Bits, idx: nat): Trie
    decreases |bits|
  {
    if bits == [] then t.(leaf := Some(idx))
    else
      var child := match t.Child(bits[0]) case None => EMPTY case Some(c) => c;
      var grown := Some(Insert(child, bits[1..], idx));
      if bits[0] then t.(one := grown) else t.(zero := grown)
  }

  /** The trie after the variants' tags are inserted in declaration order. */
  function FromTags(tags: seq<Bits>): Trie {
    if tags == [] then EMPTY
    else
      var n := |tags| - 1;
      Insert(FromTags(tags[..n]), tags[n], n)
  }

  /** Variant `i` owns its tag: no later variant repeats it. */
  predicate Owns(tags: seq<Bits>, i: nat) {
    i < |tags| && forall j :: i < j < |tags| ==> tags[j] != tags[i]
  }

  ghost predicate HasProperPrefix(tags: seq<Bits>) {
    exists i, j :: 0 <= i < |tags| && 0 <= j < |tags| && tags[i] < tags[j]
  }

  lemma {:induction false} InsertLookup(t: Trie, bits: Bits, idx: nat, p: Bits)
    ensures Insert(t, bits, idx).Lookup(p) == if p == bits then Some(idx) else t.Lookup(p)
    decreases |bits|
  {
    if bits != [] && p != [] && p[0] == bits[0] {
      var child := match t.Child(bits[0]) case None => EMPTY case Some(c) => c;
      InsertLookup(child, bits[1..], idx, p[1..]);
      assert p == [p[0]] + p[1..] && bits == [bits[0]] + bits[1..];
      if t.Child(bits[0]).None? {
        EmptyLookup(p[1..]);
      }
    }
  }

  lemma {:induction false} EmptyLookup(p: Bits)
    ensures EMPTY.Lookup(p) == None
  {
  }

  lemma {:induction false} InsertInhabited(t: Trie, bits: Bits, idx: nat)
    requires t.Inhabited() || t == EMPTY
    ensures Insert(t, bits, idx).Inhabited()
    decreases |bits|
  {
    if bits != [] {
      var child := match t.Child(bits[0]) case None => EMPTY case Some(c) => c;
      InsertInhabited(child, bits[1..], idx);
    }
  }

  /** What the trie stores: each tag leads to the last variant declared with it. */
  lemma {:induction false} FromTagsLookup(tags: seq<Bits>, p: Bits)
    ensures var r := FromTags(tags).Lookup(p);
            && (r.Some? ==> Owns(tags, r.value) && tags[r.value] == p)
            && (r.None? ==> p !in tags)
  {
    if tags == [] {
      EmptyLookup(p);
    } else {
      var n := |tags| - 1;
      var before := tags[..n];
      FromTagsLookup(before, p);
      InsertLookup(FromTags(before), tags[n], n, p);
      assert tags == before + [tags[n]];
    }
  }

  lemma {:induction false} FromTagsInhabited(tags: seq<Bits>)
    ensures FromTags(tags).Inhabited() || tags == []
  {
    if tags != [] {
      var n := |tags| - 1;
      FromTagsInhabited(tags[..n]);
      InsertInhabited(FromTags(tags[..n]), tags[n], n);
    }
  }

  // ------------------------------------------------------ the generated code

  datatype Arm = Arm(value: nat, body: Code)

  /** `Body(i)` decodes variant i; `Match` reads `width` bits and selects an arm by their number. */
  datatype Code = Body(idx: nat) | Match(width: nat, arms: seq<Arm>)

  /** Outcome of code generation; `Diverged` is a recursion deeper than the stack allows. */
  datatype Gen<T> = Done(value: T) | TagTooLong(width: nat) | Diverged

  const MAX_TAG_BITS: nat := 32

  /** `Dispatcher::build`, with the stack depth the recursion may still use. */
  function Build(t: Trie, stack: nat): Gen<Code>
    decreases stack, t, 0
  {
    match t.PureLeaf()
    case Some(idx) => Done(Body(idx))
    case None =>
      if stack == 0 then Diverged
      else
        var width := t.MinLeafDepth();
        if width > MAX_TAG_BITS then TagTooLong(width)
        else match CollectArms(t, width, [], stack - 1)
          case Done(arms) => Done(Match(width, arms))
          case TagTooLong(w) => TagTooLong(w)
          case Diverged => Diverged
  }

  /** `collect_arms`: one arm for every node `remaining` levels below, zero branch first. */
  function CollectArms(t: Trie, remaining: nat, prefix: Bits, stack: nat): Gen<seq<Arm>>
    decreases stack, t, 1
  {
    if remaining == 0 then
      match Build(t, stack)
      case Done(body) => Done([Arm(Value(prefix), body)])
      case TagTooLong(w) => TagTooLong(w)
      case Diverged => Diverged
    else
      var zeros := if t.zero.None? then Done([]) else CollectArms(t.zero.value, remaining - 1, prefix + [false], stack);
      if !zeros.Done? then zeros
      else
        var ones := if t.one.None? then Done([]) else CollectArms(t.one.value, remaining - 1, prefix + [true], stack);
        if !ones.Done? then ones
        else Done(zeros.value + ones.value)
  }

  /** The first arm with the value read, as a Rust `match` picks it. */
  function FindArm(arms: seq<Arm>, v: nat): (k: nat)
    ensures k <= |arms|
    ensures k < |arms| ==> arms[k].value == v
    ensures forall i :: 0 <= i < k ==> arms[i].value != v
  {
    if arms == [] || arms[0].value == v then 0 else 1 + FindArm(arms[1..], v)
  }

  /** Executes generated code on a bit stream: the variant chosen and the bits left, or an error. */
  function Run(code: Code, s: Bits): Option<(nat, Bits)> {
    match code
    case Body(idx) => Some((idx, s))
    case Match(width, arms) =>
      if |s| < width then None
      else
        var k := FindArm(arms, Value(s[..width]));
        if k == |arms| then None else Run(arms[k].body, s[width..])
  }

  /** The bit-by-bit walk the generated code is an optimised form of. */
  function Walk(t: Trie, s: Bits): Option<(nat, Bits)>
    decreases |s|
  {
    match t.PureLeaf()
    case Some(idx) => Some((idx, s))
    case None =>
      if s == [] then None
      else match t.Child(s[0])
        case None => None
        case Some(c) => Walk(c, s[1..])
  }

  // ----------------------------------------------- tags and trie shape agree

  lemma {:induction false} LeafBelow(t: Trie) returns (p: Bits)
    requires t.Inhabited()
    ensures t.Lookup(p).Some?
  {
    if t.leaf.Some? {
      p := [];
    } else {
      var b := t.zero.None?;
      var tail := LeafBelow(t.Child(b).value);
      p := [b] + tail;
    }
  }

  lemma {:induction false} PrefixFreeLookup(t: Trie, p: Bits, q: Bits)
    requires t.PrefixFree() && p < q && t.Lookup(p).Some?
    ensures t.Lookup(q).None?
    decreases |p|
  {
    if p != [] {
      assert p[0] == q[0];
      PrefixFreeLookup(t.Child(p[0]).value, p[1..], q[1..]);
    }
  }

  lemma {:induction false} PrefixPair(t: Trie) returns (p: Bits, q: Bits)
    requires t.Inhabited() && !t.PrefixFree()
    ensures p < q && t.Lookup(p).Some? && t.Lookup(q).Some?
  {
    if t.leaf.Some? && (t.zero.Some? || t.one.Some?) {
      var b := t.zero.None?;
      var tail := LeafBelow(t.Child(b).value);
      p, q := [], [b] + tail;
    } else {
      var b := !(t.zero.Some? && !t.zero.value.PrefixFree());
      var p', q' := PrefixPair(t.Child(b).value);
      p, q := [b] + p', [b] + q';
    }
  }

  /** The trie is prefix-free exactly when the tags are. */
  lemma {:induction false} TagsPrefixFree(tags: seq<Bits>)
    requires tags != []
    ensures FromTags(tags).PrefixFree() <==> !HasProperPrefix(tags)
  {
    var t := FromTags(tags);
    FromTagsInhabited(tags);
    if HasProperPrefix(tags) {
      var i, j :| 0 <= i < |tags| && 0 <= j < |tags| && tags[i] < tags[j];
      FromTagsLookup(tags, tags[i]);
      FromTagsLookup(tags, tags[j]);
      if t.PrefixFree() {
        PrefixFreeLookup(t, tags[i], tags[j]);
      }
    } else if !t.PrefixFree() {
      var p, q := PrefixPair(t);
      FromTagsLookup(tags, p);
      FromTagsLookup(tags, q);
    }
  }

  // ------------------------------------------ the walk finds the tag prefix

  lemma {:induction false} WalkSound(t: Trie, s: Bits)
    ensures var w := Walk(t, s);
            w.Some? ==> exists p :: s == p + w.value.1 && t.Lookup(p) == Some(w.value.0)
    decreases |s|
  {
    var w := Walk(t, s);
    if t.PureLeaf().Some? {
      assert s == [] + s && t.Lookup([]) == t.leaf;
    } else if w.Some? {
      var c := t.Child(s[0]).value;
      WalkSound(c, s[1..]);
      var p :| s[1..] == p + w.value.1 && c.Lookup(p) == Some(w.value.0);
      var p' := [s[0]] + p;
      assert s == p' + w.value.1;
      assert p'[1..] == p;
      assert t.Lookup(p') == Some(w.value.0);
    }
  }

  lemma {:induction false} WalkComplete(t: Trie, p: Bits, rest: Bits)
    requires t.PrefixFree() && t.Lookup(p).Some?
    ensures Walk(t, p + rest) == Some((t.Lookup(p).value, rest))
    decreases |p|
  {
    if p == [] {
      assert p + rest == rest;
    } else {
      WalkComplete(t.Child(p[0]).value, p[1..], rest);
      assert (p + rest)[1..] == p[1..] + rest;
    }
  }

  // ------------------------------------- the generated code refines the walk

  function Descend(t: Trie, p: Bits): Option<Trie>
    decreases |p|
  {
    if p == [] then Some(t)
    else match t.Child(p[0])
      case None => None
      case Some(c) => Descend(c, p[1..])
  }

  lemma {:induction false} DescendKeeps(t: Trie, p: Bits)
    requires t.Inhabited() && t.PrefixFree()
    ensures var n := Descend(t, p); n.Some? ==> n.value.Inhabited() && n.value.PrefixFree()
    decreases |p|
  {
    if p != [] && t.Child(p[0]).Some? {
      DescendKeeps(t.Child(p[0]).value, p[1..]);
    }
  }

  lemma {:induction false} FindArmConcat(a: seq<Arm>, b: seq<Arm>, v: nat)
    ensures FindArm(a + b, v) == if FindArm(a, v) < |a| then FindArm(a, v) else |a| + FindArm(b, v)
  {
    if a == [] {
      assert a + b == b;
    } else {
      FindArmConcat(a[1..], b, v);
      assert (a + b)[1..] == a[1..] + b;
    }
  }

  /** Arms collected under one prefix never capture a number whose bits start differently. */
  lemma {:induction false} ArmsStayUnderPrefix(t: Trie, remaining: nat, prefix: Bits, stack: nat, w: Bits)
    requires CollectArms(t, remaining, prefix, stack).Done?
    requires |w| == |prefix| + remaining && !(prefix <= w)
    ensures var arms := CollectArms(t, remaining, prefix, stack).value; FindArm(arms, Value(w)) == |arms|
    decreases remaining
  {
    if remaining == 0 {
      if Value(w) == Value(prefix) {
        ValueInjective(w, prefix);
      }
    } else {
      if t.zero.Some? {
        ArmsStayUnderPrefix(t.zero.value, remaining - 1, prefix + [false], stack, w);
      }
      if t.one.Some? {
        ArmsStayUnderPrefix(t.one.value, remaining - 1, prefix + [true], stack, w);
      }
      var zeros := if t.zero.None? then Done([]) else CollectArms(t.zero.value, remaining - 1, prefix + [false], stack);
      var ones := if t.one.None? then Done([]) else CollectArms(t.one.value, remaining - 1, prefix + [true], stack);
      FindArmConcat(zeros.value, ones.value, Value(w));
    }
  }

  /** The arm for the bits `q` holds the code of the node that `q` leads to, and only then exists. */
  lemma {:induction false} ArmOfPath(t: Trie, remaining: nat, prefix: Bits, stack: nat, q: Bits)
    requires CollectArms(t, remaining, prefix, stack).Done? && |q| == remaining
    ensures var arms := CollectArms(t, remaining, prefix, stack).value;
            var k := FindArm(arms, Value(prefix + q));
            match Descend(t, q)
            case None => k == |arms|
            case Some(n) => k < |arms| && Build(n, stack) == Done(arms[k].body)
    decreases remaining
  {
    var w := prefix + q;
    if remaining == 0 {
      assert w == prefix;
    } else {
      assert prefix + [q[0]] + q[1..] == w;
      var child := t.Child(q[0]);
      if child.Some? {
        ArmOfPath(child.value, remaining - 1, prefix + [q[0]], stack, q[1..]);
      }
      var other := t.Child(!q[0]);
      if other.Some? {
        assert w[|prefix|] == q[0];
        ArmsStayUnderPrefix(other.value, remaining - 1, prefix + [!q[0]], stack, w);
      }
      var zeros := if t.zero.None? then Done([]) else CollectArms(t.zero.value, remaining - 1, prefix + [false], stack);
      var ones := if t.one.None? then Done([]) else CollectArms(t.one.value, remaining - 1, prefix + [true], stack);
      FindArmConcat(zeros.value, ones.value, Value(w));
    }
  }

  /** Down to the closest leaf, the walk only follows children. */
  lemma {:induction false} WalkDescends(t: Trie, n: nat, s: Bits)
    requires t.Inhabited() && t.PrefixFree() && n <= t.MinLeafDepth()
    ensures |s| < n ==> Walk(t, s) == None
    ensures |s| >= n ==> Walk(t, s) == match Descend(t, s[..n]) case None => None case Some(d) => Walk(d, s[n..])
    decreases |s|
  {
    if n == 0 {
      assert s[0..] == s;
    } else if s != [] && t.Child(s[0]).Some? {
      WalkDescends(t.Child(s[0]).value, n - 1, s[1..]);
      if |s| >= n {
        assert s[..n][1..] == s[1..][..n - 1];
        assert s[n..] == s[1..][n - 1..];
      }
    }
  }

  lemma {:induction false} RunIsWalk(t: Trie, stack: nat, s: Bits)
    requires t.Inhabited() && t.PrefixFree() && Build(t, stack).Done?
    ensures Run(Build(t, stack).value, s) == Walk(t, s)
    decreases stack
  {
    if t.PureLeaf().None? {
      var width := t.MinLeafDepth();
      WalkDescends(t, width, s);
      if |s| >= width {
        var q := s[..width];
        ArmOfPath(t, width, [], stack - 1, q);
        assert [] + q == q;
        DescendKeeps(t, q);
        if Descend(t, q).Some? {
          RunIsWalk(Descend(t, q).value, stack - 1, s[width..]);
        }
      }
    }
  }

  // ------------------------------------------------ when generation succeeds

  lemma {:induction false} LeafWithChildrenDiverges(t: Trie, stack: nat)
    requires t.leaf.Some? && t.PureLeaf().None?
    ensures Build(t, stack) == Diverged
  {
    if stack > 0 {
      LeafWithChildrenDiverges(t, stack - 1);
    }
  }

  lemma {:induction false} DoneIsPrefixFree(t: Trie, stack: nat)
    requires t.Inhabited() && Build(t, stack).Done?
    ensures t.PrefixFree()
    decreases stack, t, 0
  {
    if t.PureLeaf().None? {
      if t.leaf.Some? {
        LeafWithChildrenDiverges(t, stack);
      }
      CollectedIsPrefixFree(t, t.MinLeafDepth(), [], stack - 1);
    }
  }

  lemma {:induction false} CollectedIsPrefixFree(t: Trie, remaining: nat, prefix: Bits, stack: nat)
    requires t.Inhabited() && remaining <= t.MinLeafDepth()
    requires CollectArms(t, remaining, prefix, stack).Done?
    ensures t.PrefixFree()
    decreases stack, t, 1
  {
    if remaining == 0 {
      DoneIsPrefixFree(t, stack);
    } else {
      if t.zero.Some? {
        CollectedIsPrefixFree(t.zero.value, remaining - 1, prefix + [false], stack);
      }
      if t.one.Some? {
        CollectedIsPrefixFree(t.one.value, remaining - 1, prefix + [true], stack);
      }
    }
  }

  /** Every level reads at least one bit, so a stack as deep as the trie is enough. */
  lemma {:induction false} BuildReturns(t: Trie, stack: nat)
    requires t.Inhabited() && t.PrefixFree() && stack >= t.Height()
    ensures Build(t, stack) != Diverged
    ensures t.Height() <= MAX_TAG_BITS ==> Build(t, stack).Done?
    decreases stack, t, 0
  {
    if t.PureLeaf().None? {
      DepthBelowHeight(t);
      CollectReturns(t, t.MinLeafDepth(), [], stack - 1);
    }
  }

  lemma {:induction false} CollectReturns(t: Trie, remaining: nat, prefix: Bits, stack: nat)
    requires t.Inhabited() && t.PrefixFree() && remaining + stack >= t.Height()
    requires remaining <= t.MinLeafDepth()
    ensures CollectArms(t, remaining, prefix, stack) != Diverged
    ensures t.Height() <= MAX_TAG_BITS ==> CollectArms(t, remaining, prefix, stack).Done?
    decreases stack, t, 1
  {
    if remaining == 0 {
      BuildReturns(t, stack);
    } else {
      if t.zero.Some? {
        CollectReturns(t.zero.value, remaining - 1, prefix + [false], stack);
      }
      if t.one.Some? {
        CollectReturns(t.one.value, remaining - 1, prefix + [true], stack);
      }
    }
  }

  lemma {:induction false} DepthBelowHeight(t: Trie)
    ensures t.MinLeafDepth() <= t.Height()
  {
    if t.zero.Some? {
      DepthBelowHeight(t.zero.value);
    }
    if t.one.Some? {
      DepthBelowHeight(t.one.value);
    }
  }

  lemma {:induction false} InsertHeight(t: Trie, bits: Bits, idx: nat, max: nat)
    requires t.Height() <= max && |bits| <= max
    ensures Insert(t, bits, idx).Height() <= max
    decreases |bits|
  {
    if bits != [] {
      var child := match t.Child(bits[0]) case None => EMPTY case Some(c) => c;
      InsertHeight(child, bits[1..], idx, max - 1);
    }
  }

  lemma {:induction false} FromTagsHeight(tags: seq<Bits>, max: nat)
    requires forall i :: 0 <= i < |tags| ==> |tags[i]| <= max
    ensures FromTags(tags).Height() <= max
  {
    if tags != [] {
      var n := |tags| - 1;
      FromTagsHeight(tags[..n], max);
      InsertHeight(FromTags(tags[..n]), tags[n], n, max);
    }
  }

  // ------------------------------------------------------------ main results

  /**
    * Whenever generation succeeds, the code selects variant i with remainder `rest`
    * exactly when the stream is that variant's tag followed by `rest`.
    */
  lemma {:induction false} DispatchCorrect(tags: seq<Bits>, stack: nat, s: Bits, i: nat, rest: Bits)
    requires tags != [] && Build(FromTags(tags), stack).Done?
    ensures Run(Build(FromTags(tags), stack).value, s) == Some((i, rest))
       <==> Owns(tags, i) && s == tags[i] + rest
  {
    var t := FromTags(tags);
    FromTagsInhabited(tags);
    DoneIsPrefixFree(t, stack);
    RunIsWalk(t, stack, s);
    if Walk(t, s) == Some((i, rest)) {
      WalkSound(t, s);
      var p :| s == p + rest && t.Lookup(p) == Some(i);
      FromTagsLookup(tags, p);
    }
    if Owns(tags, i) && s == tags[i] + rest {
      FromTagsLookup(tags, tags[i]);
      WalkComplete(t, tags[i], rest);
    }
  }

  /** Generation never succeeds, at any stack depth, when one tag properly extends another. */
  lemma {:induction false} PrefixedTagsNeverGenerate(tags: seq<Bits>, stack: nat)
    requires HasProperPrefix(tags)
    ensures !Build(FromTags(tags), stack).Done?
  {
    FromTagsInhabited(tags);
    TagsPrefixFree(tags);
    if Build(FromTags(tags), stack).Done? {
      DoneIsPrefixFree(FromTags(tags), stack);
    }
  }

  /** Otherwise the recursion returns, and succeeds for tags the writer can store. */
  lemma {:induction false} PrefixFreeTagsGenerate(tags: seq<Bits>, stack: nat)
    requires tags != [] && !HasProperPrefix(tags)
    requires stack >= FromTags(tags).Height()
    ensures Build(FromTags(tags), stack) != Diverged
    ensures (forall i :: 0 <= i < |tags| ==> |tags[i]| <= MAX_TAG_BITS) ==> Build(FromTags(tags), stack).Done?
  {
    FromTagsInhabited(tags);
    TagsPrefixFree(tags);
    BuildReturns(FromTags(tags), stack);
    if forall i :: 0 <= i < |tags| ==> |tags[i]| <= MAX_TAG_BITS {
      FromTagsHeight(tags, MAX_TAG_BITS);
    }
  }
}
