/** The in-place tag tree. */
module TagTrees {
  import opened Prelude
  import opened Bits
  import D = TagDispatch

  class TagTree {
    var leaf: Option<nat>
    var zero: TagTree?
    var one: TagTree?
    ghost var Repr: set<TagTree>
    ghost var Model: D.Trie

    /** Every node is owned by one parent, and `Model` is the value of the tree. */
    ghost predicate Valid()
      reads this, Repr
      ensures Valid() ==> this in Repr
      decreases Repr
    {
      && this in Repr
      && (zero != null ==> zero in Repr && zero.Repr <= Repr && this !in zero.Repr && zero.Valid())
      && (one != null ==> one in Repr && one.Repr <= Repr && this !in one.Repr && one.Valid())
      && (zero != null && one != null ==> zero.Repr !! one.Repr)
      && Model == D.Node(leaf, ModelOf(zero), ModelOf(one))
    }

    static ghost function ModelOf(child: TagTree?): Option<D.Trie>
      reads child
    {
      if child == null then None else Some(child.Model)
    }

    constructor ()
      ensures Valid() && fresh(Repr)
      ensures Model == D.EMPTY
    {
      leaf, zero, one := None, null, null;
      Repr := {this};
      Model := D.EMPTY;
    }

    method Insert(bits: Bits, idx: nat)
      requires Valid()
      modifies Repr
      ensures Valid() && fresh(Repr - old(Repr))
      ensures Model == D.Insert(old(Model), bits, idx)
      decreases |bits|, 0
    {
      if bits == [] {
        leaf := Some(idx);
      } else {
        var child := InsertInto(if bits[0] then one else zero, bits[1..], idx);
        if bits[0] {
          one := child;
        } else {
          zero := child;
        }
        Repr := Repr + child.Repr;
      }
      Model := D.Node(leaf, ModelOf(zero), ModelOf(one));
    }

    static ghost function ReprOf(t: TagTree?): set<TagTree>
      reads t
    {
      if t == null then {} else t.Repr
    }

    /** `get_or_insert_with` on a child slot, then insertion into the child. */
    static method InsertInto(t: TagTree?, bits: Bits, idx: nat) returns (r: TagTree)
      requires t != null ==> t.Valid()
      modifies ReprOf(t)
      ensures r.Valid() && fresh(r.Repr - old(ReprOf(t)))
      ensures r.Model == D.Insert(if t == null then D.EMPTY else old(t.Model), bits, idx)
      decreases |bits|, 1
    {
      if t == null {
        r := new TagTree();
      } else {
        r := t;
      }
      r.Insert(bits, idx);
    }

    method MinLeafDepth() returns (d: nat)
      requires Valid()
      ensures d == Model.MinLeafDepth()
      decreases Repr
    {
      if leaf.Some? {
        return 0;
      }
      d := 0;
      if zero != null {
        var z := zero.MinLeafDepth();
        d := 1 + z;
      }
      if one != null {
        var o := one.MinLeafDepth();
        if zero == null || 1 + o < d {
          d := 1 + o;
        }
      }
    }
  }

  /** Inserting every variant's tag in declaration order. */
  method FromVariants(tags: seq<Bits>) returns (tree: TagTree)
    ensures tree.Valid() && fresh(tree.Repr)
    ensures tree.Model == D.FromTags(tags)
  {
    tree := new TagTree();
    assert tags[..0] == [];
    for i := 0 to |tags|
      invariant tree.Valid() && fresh(tree.Repr)
      invariant tree.Model == D.FromTags(tags[..i])
    {
      assert tags[..i + 1][..i] == tags[..i];
      tree.Insert(tags[i], i);
    }
    assert tags[..|tags|] == tags;
  }

  /** Appends generated arms to those collected so far. */
  function Extend(arms: seq<D.Arm>, more: D.Gen<seq<D.Arm>>): D.Gen<seq<D.Arm>> {
    match more
    case Done(a) => D.Done(arms + a)
    case TagTooLong(w) => D.TagTooLong(w)
    case Diverged => D.Diverged
  }

  /** `Dispatcher::build`; it returns only on prefix-free trees, see `D.PrefixedTagsNeverGenerate`. */
  method Build(node: TagTree) returns (r: D.Gen<D.Code>)
    requires node.Valid() && node.Model.Inhabited() && node.Model.PrefixFree()
    ensures forall stack: nat :: stack >= node.Model.Height() ==> r == D.Build(node.Model, stack)
    decreases node.Model, 1
  {
    if node.zero == null && node.one == null {
      return D.Done(D.Body(node.leaf.value));
    }
    var width := node.MinLeafDepth();
    if width > D.MAX_TAG_BITS {
      return D.TagTooLong(width);
    }
    var arms := CollectArms(node, width, [], []);
    match arms {
      case Done(a) => r := D.Done(D.Match(width, a));
      case TagTooLong(w) => r := D.TagTooLong(w);
      case Diverged => r := D.Diverged;
    }
    forall stack: nat | stack >= node.Model.Height()
      ensures r == D.Build(node.Model, stack)
    {
      var more := D.CollectArms(node.Model, width, [], stack - 1);
      assert more.Done? ==> [] + more.value == more.value;
    }
  }

  /** The arms of one branch of a node, none when the branch is missing. */
  function Branch(t: Option<D.Trie>, remaining: nat, prefix: Bits, stack: nat): D.Gen<seq<D.Arm>> {
    if t.None? then D.Done([]) else D.CollectArms(t.value, remaining, prefix, stack)
  }

  lemma {:induction false} CollectByBranch(t: D.Trie, remaining: nat, prefix: Bits, stack: nat, arms: seq<D.Arm>)
    requires remaining > 0
    ensures var zeros := Branch(t.zero, remaining - 1, prefix + [false], stack);
            var ones := Branch(t.one, remaining - 1, prefix + [true], stack);
            Extend(arms, D.CollectArms(t, remaining, prefix, stack)) ==
              if zeros.Done? then Extend(arms + zeros.value, ones) else zeros
    ensures Extend(arms, D.Done([])) == D.Done(arms)
  {
    var zeros := Branch(t.zero, remaining - 1, prefix + [false], stack);
    var ones := Branch(t.one, remaining - 1, prefix + [true], stack);
    assert D.CollectArms(t, remaining, prefix, stack) ==
           if !zeros.Done? then zeros else if !ones.Done? then ones else D.Done(zeros.value + ones.value);
    assert arms + [] == arms;
    if zeros.Done? && ones.Done? {
      assert arms + zeros.value + ones.value == arms + (zeros.value + ones.value);
    }
  }

  method CollectArms(node: TagTree, remaining: nat, prefix: Bits, arms: seq<D.Arm>) returns (r: D.Gen<seq<D.Arm>>)
    requires node.Valid() && node.Model.Inhabited() && node.Model.PrefixFree()
    requires remaining <= node.Model.MinLeafDepth()
    ensures forall stack: nat :: stack + remaining >= node.Model.Height() ==>
              r == Extend(arms, D.CollectArms(node.Model, remaining, prefix, stack))
    decreases node.Model, if remaining == 0 then 2 else 0
  {
    if remaining == 0 {
      var body := Build(node);
      match body {
        case Done(b) => r := D.Done(arms + [D.Arm(Value(prefix), b)]);
        case TagTooLong(w) => r := D.TagTooLong(w);
        case Diverged => r := D.Diverged;
      }
      return;
    }
    r := D.Done(arms);
    if node.zero != null {
      r := CollectArms(node.zero, remaining - 1, prefix + [false], arms);
      if !r.Done? {
        return;
      }
    }
    if node.one != null {
      r := CollectArms(node.one, remaining - 1, prefix + [true], r.value);
    }
    forall stack: nat | stack + remaining >= node.Model.Height()
      ensures r == Extend(arms, D.CollectArms(node.Model, remaining, prefix, stack))
    {
      CollectByBranch(node.Model, remaining, prefix, stack, arms);
      var zeros := Branch(node.Model.zero, remaining - 1, prefix + [false], stack);
      assert zeros.Done? && arms + zeros.value + [] == arms + zeros.value;
    }
  }
}
