/** Parse trees as the chunker sees them: a leaf holds one word, an internal
    node holds a category (its label) and its ordered children. Equality of two
    trees is structural (label and children), which is how the trees of the
    parsing library compare. */
module Trees {

  datatype Tree = Leaf(word: string) | Node(category: string, children: seq<Tree>)

  /** Number of constructors in a tree; strictly decreases from a node to any
      of its proper subtrees. */
  function Size(t: Tree): nat
    decreases t
  {
    match t
    case Leaf(_) => 1
    case Node(_, cs) => 1 + ForestSize(cs)
  }

  function ForestSize(cs: seq<Tree>): nat
    decreases cs
  {
    if cs == [] then 0 else Size(cs[0]) + ForestSize(cs[1..])
  }

  /** The internal nodes of `t` in pre-order, `t` first when it is a node
      (what `tree.subtrees()` enumerates; leaves are words, never yielded). */
  function Subtrees(t: Tree): seq<Tree>
    decreases t
  {
    match t
    case Leaf(_) => []
    case Node(_, cs) => [t] + ForestSubtrees(cs)
  }

  /** The internal nodes of a list of sibling trees, in pre-order. */
  function ForestSubtrees(cs: seq<Tree>): seq<Tree>
    decreases cs
  {
    if cs == [] then [] else Subtrees(cs[0]) + ForestSubtrees(cs[1..])
  }

  /** The internal nodes strictly below `t`, in pre-order. */
  function ProperSubtrees(t: Tree): seq<Tree>
  {
    match t
    case Leaf(_) => []
    case Node(_, cs) => ForestSubtrees(cs)
  }

  predicate IsNP(t: Tree)
  {
    t.Node? && t.category == "NP"
  }

  /** Some internal node strictly below `t` is labelled NP. */
  predicate HasNPBelow(t: Tree)
  {
    exists k :: 0 <= k < |ProperSubtrees(t)| && IsNP(ProperSubtrees(t)[k])
  }

  /** An NP node with no NP node below it: a noun-phrase chunk. */
  predicate MinimalNP(t: Tree)
  {
    IsNP(t) && !HasNPBelow(t)
  }

  /** Every internal node listed by `Subtrees(t)` is a node no larger than
      `t`, and all but the first are strictly smaller. */
  lemma {:induction false} SubtreeSize(t: Tree, k: nat)
    requires k < |Subtrees(t)|
    ensures Subtrees(t)[k].Node?
    ensures Size(Subtrees(t)[k]) <= Size(t)
    ensures k > 0 ==> Size(Subtrees(t)[k]) < Size(t)
    ensures k == 0 <==> Subtrees(t)[k] == t
    decreases t, 1
  {
    var cs := t.children;
    if k > 0 {
      ForestSubtreeSize(cs, k - 1);
    }
  }

  lemma {:induction false} ForestSubtreeSize(cs: seq<Tree>, k: nat)
    requires k < |ForestSubtrees(cs)|
    ensures ForestSubtrees(cs)[k].Node?
    ensures Size(ForestSubtrees(cs)[k]) <= ForestSize(cs)
    decreases cs, 0
  {
    var a := Subtrees(cs[0]);
    if k < |a| {
      SubtreeSize(cs[0], k);
    } else {
      ForestSubtreeSize(cs[1..], k - |a|);
    }
  }

  /** Pre-order lists a node's own subtrees contiguously: the subtrees of the
      node found at position `k` are a prefix of the listing from `k` on. */
  lemma {:induction false} SubtreesContiguous(t: Tree, k: nat)
    requires k < |Subtrees(t)|
    ensures Subtrees(Subtrees(t)[k]) <= Subtrees(t)[k..]
    decreases t, 1
  {
    if k > 0 {
      var cs := t.children;
      ForestSubtreesContiguous(cs, k - 1);
      assert Subtrees(t)[k..] == ForestSubtrees(cs)[k - 1..];
    }
  }

  lemma {:induction false} ForestSubtreesContiguous(cs: seq<Tree>, k: nat)
    requires k < |ForestSubtrees(cs)|
    ensures Subtrees(ForestSubtrees(cs)[k]) <= ForestSubtrees(cs)[k..]
    decreases cs, 0
  {
    var a, b := Subtrees(cs[0]), ForestSubtrees(cs[1..]);
    if k < |a| {
      SubtreesContiguous(cs[0], k);
      assert (a + b)[k..] == a[k..] + b;
    } else {
      ForestSubtreesContiguous(cs[1..], k - |a|);
      assert (a + b)[k..] == b[k - |a|..];
    }
  }

  /** The subtrees of a node are exactly that node followed by its proper
      subtrees, none of which equals the node itself. This is why comparing
      a listed subtree with the root (`subtree != tree`) skips exactly the
      root. */
  lemma ProperSubtreesOfNode(t: Tree)
    requires t.Node?
    ensures Subtrees(t) == [t] + ProperSubtrees(t)
    ensures ProperSubtrees(t) == Subtrees(t)[1..]
    ensures forall k :: 1 <= k < |Subtrees(t)| ==> Subtrees(t)[k] != t
  {
    forall k | 1 <= k < |Subtrees(t)| ensures Subtrees(t)[k] != t {
      SubtreeSize(t, k);
    }
  }

  /** A proper subtree of a proper subtree is a proper subtree. */
  lemma ProperSubtreeTransitive(t: Tree, k: nat, j: nat)
    requires k < |ProperSubtrees(t)|
    requires j < |ProperSubtrees(ProperSubtrees(t)[k])|
    ensures k + 1 + j < |ProperSubtrees(t)|
    ensures ProperSubtrees(ProperSubtrees(t)[k])[j] == ProperSubtrees(t)[k + 1 + j]
  {
    var s := ProperSubtrees(t)[k];
    assert Subtrees(t)[k + 1] == s;
    SubtreeSize(t, k + 1);
    SubtreesContiguous(t, k + 1);
    assert Subtrees(s)[j + 1] == ProperSubtrees(s)[j];
  }
}
