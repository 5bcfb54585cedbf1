/** Noun-phrase chunk extraction over one parse tree: `chunkReturn` follows
    NP nodes downwards until it reaches one with no NP below it, and
    `np_chunk` collects that chunk for every NP node other than the root,
    skipping a chunk structurally equal to one already collected. */
module Chunker {
  import opened Trees

  /** The first position from `i` on whose node differs from `t` and is
      labelled NP, or `|ss|` when there is none: the scan of `chunkReturn`
      over `t.subtrees()`. */
  function FirstNPOtherThan(ss: seq<Tree>, t: Tree, i: nat): (k: nat)
    requires i <= |ss|
    ensures i <= k <= |ss|
    ensures k < |ss| ==> ss[k] != t && IsNP(ss[k])
    ensures forall j :: i <= j < k ==> ss[j] == t || !IsNP(ss[j])
    decreases |ss| - i
  {
    if i == |ss| then |ss|
    else if ss[i] != t && IsNP(ss[i]) then i
    else FirstNPOtherThan(ss, t, i + 1)
  }

  /** `chunkReturn`: when some node below `t` is labelled NP, recurse into the
      first such node in pre-order; otherwise `t` itself is the chunk. */
  function ChunkReturn(t: Tree): (r: Tree)
    ensures !HasNPBelow(t) ==> r == t
    ensures HasNPBelow(t) ==> MinimalNP(r) && r in ProperSubtrees(t)
    decreases Size(t)
  {
    var ss := Subtrees(t);
    var k := FirstNPOtherThan(ss, t, 0);
    if k < |ss| then
      SubtreeSize(t, k);
      ProperSubtreesOfNode(t);
      var d := ss[k];
      assert d == ProperSubtrees(t)[k - 1];
      var r := ChunkReturn(d);
      if HasNPBelow(d) then
        var j :| 0 <= j < |ProperSubtrees(d)| && ProperSubtrees(d)[j] == r;
        ProperSubtreeTransitive(t, k - 1, j);
        r
      else
        r
    else
      if t.Node? then
        ProperSubtreesOfNode(t);
        assert forall j :: 0 <= j < |ProperSubtrees(t)| ==> ProperSubtrees(t)[j] == ss[j + 1];
        t
      else
        t
  }

  /** When some node below `t` is labelled NP, `chunkReturn(t)` is the
      `chunkReturn` of the first such node, which is smaller than `t`. */
  lemma ChunkReturnStep(t: Tree)
    requires HasNPBelow(t)
    ensures 0 < FirstNPOtherThan(Subtrees(t), t, 0) < |Subtrees(t)|
    ensures Size(Subtrees(t)[FirstNPOtherThan(Subtrees(t), t, 0)]) < Size(t)
    ensures ChunkReturn(t) == ChunkReturn(Subtrees(t)[FirstNPOtherThan(Subtrees(t), t, 0)])
  {
    var ss := Subtrees(t);
    var k := FirstNPOtherThan(ss, t, 0);
    ProperSubtreesOfNode(t);
    var w :| 0 <= w < |ProperSubtrees(t)| && IsNP(ProperSubtrees(t)[w]);
    assert ss[w + 1] != t && IsNP(ss[w + 1]);
    SubtreeSize(t, k);
  }

  /** Joining the scan of `chunkReturn` with the pre-order block of the node
      it recurses into: no node before the chunk is an NP without NP below. */
  lemma FirstMinimalThroughBlock(t: Tree, k: nat, i: nat)
    requires HasNPBelow(t) && 0 < k < |Subtrees(t)|
    requires forall j :: 0 <= j < k ==> Subtrees(t)[j] == t || !IsNP(Subtrees(t)[j])
    requires i < |Subtrees(Subtrees(t)[k])|
    requires forall j :: 0 <= j < i ==> !MinimalNP(Subtrees(Subtrees(t)[k])[j])
    ensures k + i < |Subtrees(t)| && Subtrees(t)[k + i] == Subtrees(Subtrees(t)[k])[i]
    ensures forall j :: 0 <= j < k + i ==> !MinimalNP(Subtrees(t)[j])
  {
    var ss, d := Subtrees(t), Subtrees(t)[k];
    SubtreesContiguous(t, k);
    assert ss[0] == t;
    forall j | 0 <= j < k + i ensures !MinimalNP(ss[j]) {
      if j >= k {
        assert ss[j] == Subtrees(d)[j - k];
      }
    }
  }

  /** When `t` is an NP node or has one below it, `chunkReturn(t)` is the
      first node of `t`'s pre-order that is an NP with no NP below it. */
  lemma {:induction false} ChunkReturnIsFirstMinimal(t: Tree)
    requires IsNP(t) || HasNPBelow(t)
    ensures MinimalNP(ChunkReturn(t))
    ensures exists i :: 0 <= i < |Subtrees(t)| && Subtrees(t)[i] == ChunkReturn(t)
                        && forall j :: 0 <= j < i ==> !MinimalNP(Subtrees(t)[j])
    decreases Size(t)
  {
    var ss := Subtrees(t);
    if !HasNPBelow(t) {
      assert ss[0] == t;
    } else {
      ChunkReturnStep(t);
      var k := FirstNPOtherThan(ss, t, 0);
      var d := ss[k];
      ChunkReturnIsFirstMinimal(d);
      var i :| 0 <= i < |Subtrees(d)| && Subtrees(d)[i] == ChunkReturn(d)
               && forall j :: 0 <= j < i ==> !MinimalNP(Subtrees(d)[j]);
      FirstMinimalThroughBlock(t, k, i);
    }
  }

  /** The chunk `chunkReturn` yields for every NP node of `ss` other than
      `root`, in the order the nodes are visited, repeats included. */
  function Candidates(ss: seq<Tree>, root: Tree): seq<Tree>
  {
    if ss == [] then []
    else
      var earlier := Candidates(ss[..|ss| - 1], root);
      var s := ss[|ss| - 1];
      if s != root && IsNP(s) then earlier + [ChunkReturn(s)] else earlier
  }

  /** The candidates of a concatenation are those of its parts, in order. */
  lemma {:induction false} CandidatesConcat(a: seq<Tree>, b: seq<Tree>, root: Tree)
    ensures Candidates(a + b, root) == Candidates(a, root) + Candidates(b, root)
    decreases |b|
  {
    if b == [] {
      assert a + b == a;
    } else {
      var init := b[..|b| - 1];
      CandidatesConcat(a, init, root);
      assert (a + b)[..|a + b| - 1] == a + init;
    }
  }

  /** `xs` keeping only the first occurrence of each element. */
  function Dedup<T(==)>(xs: seq<T>): seq<T>
  {
    if xs == [] then []
    else
      var kept := Dedup(xs[..|xs| - 1]);
      if xs[|xs| - 1] in kept then kept else kept + [xs[|xs| - 1]]
  }

  /** What `np_chunk(tree)` returns. */
  function Chunks(tree: Tree): seq<Tree>
  {
    Dedup(Candidates(Subtrees(tree), tree))
  }

  /** Position of the first occurrence of `x` in `xs`. */
  function IndexOf<T(==)>(xs: seq<T>, x: T): (i: nat)
    requires x in xs
    ensures i < |xs| && xs[i] == x
    ensures forall j :: 0 <= j < i ==> xs[j] != x
  {
    if xs[0] == x then 0
    else
      assert x in xs[1..];
      1 + IndexOf(xs[1..], x)
  }

  /** `np_chunk`: visit the internal nodes in pre-order, and for each NP node
      other than the root append its `chunkReturn` unless an equal tree is
      already in the list. */
  method NpChunk(tree: Tree) returns (chunks: seq<Tree>)
    ensures chunks == Chunks(tree)
  {
    var subtrees := Subtrees(tree);
    chunks := [];
    for i := 0 to |subtrees|
      invariant chunks == Dedup(Candidates(subtrees[..i], tree))
    {
      var subtree := subtrees[i];
      assert subtrees[..i + 1][..i] == subtrees[..i];
      SubtreeSize(tree, i);
      if subtree != tree {
        if subtree.category == "NP" {
          var newChunk := ChunkReturn(subtree);
          if newChunk !in chunks {
            chunks := chunks + [newChunk];
          }
        }
      }
    }
    assert subtrees[..|subtrees|] == subtrees;
  }

  lemma {:induction false} DedupElements<T>(xs: seq<T>)
    ensures forall x :: x in Dedup(xs) <==> x in xs
  {
    if xs != [] {
      var init := xs[..|xs| - 1];
      DedupElements(init);
      assert xs == init + [xs[|xs| - 1]];
    }
  }

  lemma {:induction false} DedupDistinct<T>(xs: seq<T>)
    ensures forall i, j :: 0 <= i < j < |Dedup(xs)| ==> Dedup(xs)[i] != Dedup(xs)[j]
  {
    if xs != [] {
      DedupDistinct(xs[..|xs| - 1]);
    }
  }

  /** A position holding `x` with no `x` before it is the first occurrence. */
  lemma IndexOfAt<T>(xs: seq<T>, x: T, i: nat)
    requires i < |xs| && xs[i] == x
    requires forall j :: 0 <= j < i ==> xs[j] != x
    ensures IndexOf(xs, x) == i
  {
    var p := IndexOf(xs, x);
    assert xs[p] == x;
  }

  /** The first occurrence of an element of `a` in `a + b` is its first
      occurrence in `a`. */
  lemma IndexOfPrefix<T>(a: seq<T>, b: seq<T>, x: T)
    requires x in a
    ensures IndexOf(a + b, x) == IndexOf(a, x)
  {
    var p, q := IndexOf(a, x), IndexOf(a + b, x);
    assert (a + b)[p] == x;
    assert q <= p;
    assert a[q] == (a + b)[q];
  }

  /** `Dedup` lists elements in the order of their first occurrences. */
  lemma {:induction false} DedupFirstOccurrenceOrder<T>(xs: seq<T>)
    ensures forall i :: 0 <= i < |Dedup(xs)| ==> Dedup(xs)[i] in xs
    ensures forall i, j :: 0 <= i < j < |Dedup(xs)| ==>
              IndexOf(xs, Dedup(xs)[i]) < IndexOf(xs, Dedup(xs)[j])
  {
    if xs != [] {
      var init, x := xs[..|xs| - 1], xs[|xs| - 1];
      var d := Dedup(init);
      assert xs == init + [x];
      DedupFirstOccurrenceOrder(init);
      forall i | 0 <= i < |d| ensures IndexOf(xs, d[i]) == IndexOf(init, d[i]) {
        IndexOfPrefix(init, [x], d[i]);
      }
      if x !in d {
        DedupElements(init);
        LastFirstOccurrence(init, x);
      }
    }
  }

  /** An element absent from `init` first occurs at the end of `init + [x]`. */
  lemma LastFirstOccurrence<T>(init: seq<T>, x: T)
    requires x !in init
    ensures IndexOf(init + [x], x) == |init|
  {
  }

  /** A tree is a candidate exactly when it is the `chunkReturn` of a visited
      NP node other than the root. */
  lemma {:induction false} CandidatesElements(ss: seq<Tree>, root: Tree)
    ensures forall x :: x in Candidates(ss, root) <==>
              exists k :: 0 <= k < |ss| && ss[k] != root && IsNP(ss[k]) && x == ChunkReturn(ss[k])
  {
    if ss != [] {
      var init := ss[..|ss| - 1];
      CandidatesElements(init, root);
      assert forall k :: 0 <= k < |init| ==> init[k] == ss[k];
    }
  }

  /** The chunk of an NP node other than the root is an NP node strictly
      below the root with no NP below it. */
  lemma ChunkOfVisitedNode(tree: Tree, k: nat)
    requires k < |Subtrees(tree)|
    requires Subtrees(tree)[k] != tree && IsNP(Subtrees(tree)[k])
    ensures ChunkReturn(Subtrees(tree)[k]) in ProperSubtrees(tree)
    ensures MinimalNP(ChunkReturn(Subtrees(tree)[k]))
  {
    var ss := Subtrees(tree);
    ChunkWithinBlock(tree, k);
    var p :| k <= p < k + |Subtrees(ss[k])| && ss[p] == ChunkReturn(ss[k])
             && forall j :: k <= j < p ==> !MinimalNP(ss[j]);
    SubtreeSize(tree, k);
    ProperSubtreesOfNode(tree);
    assert ProperSubtrees(tree)[p - 1] == ss[p];
  }

  /** Every candidate is an NP node strictly below the root with no NP below it. */
  lemma CandidateIsMinimalNP(tree: Tree, c: Tree)
    requires c in Candidates(Subtrees(tree), tree)
    ensures c in ProperSubtrees(tree) && MinimalNP(c)
  {
    var ss := Subtrees(tree);
    CandidatesElements(ss, tree);
    var k :| 0 <= k < |ss| && ss[k] != tree && IsNP(ss[k]) && c == ChunkReturn(ss[k]);
    ChunkOfVisitedNode(tree, k);
  }

  /** Every NP node strictly below the root with no NP below it is a candidate. */
  lemma MinimalNPIsCandidate(tree: Tree, c: Tree)
    requires c in ProperSubtrees(tree) && MinimalNP(c)
    ensures c in Candidates(Subtrees(tree), tree)
  {
    var ss := Subtrees(tree);
    CandidatesElements(ss, tree);
    ProperSubtreesOfNode(tree);
    var m :| 0 <= m < |ProperSubtrees(tree)| && ProperSubtrees(tree)[m] == c;
    assert ss[m + 1] == c && c != tree;
  }

  /** Soundness and completeness of `np_chunk`: the chunks are exactly the NP
      nodes strictly below the root that have no NP below them. */
  lemma ChunksAreMinimalNPs(tree: Tree)
    ensures forall c :: c in Chunks(tree) <==> c in ProperSubtrees(tree) && MinimalNP(c)
  {
    DedupElements(Candidates(Subtrees(tree), tree));
    forall c | c in Chunks(tree) ensures c in ProperSubtrees(tree) && MinimalNP(c) {
      CandidateIsMinimalNP(tree, c);
    }
    forall c | c in ProperSubtrees(tree) && MinimalNP(c) ensures c in Chunks(tree) {
      MinimalNPIsCandidate(tree, c);
    }
  }

  /** No chunk is reported twice. */
  lemma ChunksDistinct(tree: Tree)
    ensures forall i, j :: 0 <= i < j < |Chunks(tree)| ==> Chunks(tree)[i] != Chunks(tree)[j]
  {
    DedupDistinct(Candidates(Subtrees(tree), tree));
  }

  /** Chunks are listed in the order in which the pre-order walk first
      produces them. */
  lemma ChunksInDiscoveryOrder(tree: Tree)
    ensures forall i :: 0 <= i < |Chunks(tree)| ==> Chunks(tree)[i] in Candidates(Subtrees(tree), tree)
    ensures forall i, j :: 0 <= i < j < |Chunks(tree)| ==>
              IndexOf(Candidates(Subtrees(tree), tree), Chunks(tree)[i])
              < IndexOf(Candidates(Subtrees(tree), tree), Chunks(tree)[j])
  {
    DedupFirstOccurrenceOrder(Candidates(Subtrees(tree), tree));
  }

  /** No chunk lies inside another chunk. */
  lemma ChunksNotNested(tree: Tree)
    ensures forall c, d :: c in Chunks(tree) && d in Chunks(tree) ==> d !in ProperSubtrees(c)
  {
    ChunksAreMinimalNPs(tree);
  }

  /** The list of chunks is empty exactly when no NP node lies below the root. */
  lemma ChunksEmpty(tree: Tree)
    ensures Chunks(tree) == [] <==> !HasNPBelow(tree)
  {
    ChunksAreMinimalNPs(tree);
    if HasNPBelow(tree) {
      assert ChunkReturn(tree) in Chunks(tree);
    }
    if Chunks(tree) != [] {
      var c := Chunks(tree)[0];
      assert c in Chunks(tree);
      var m :| 0 <= m < |ProperSubtrees(tree)| && ProperSubtrees(tree)[m] == c;
      assert IsNP(ProperSubtrees(tree)[m]);
    }
  }

  /** The chunk of a visited NP node lies in that node's block of the
      pre-order listing, and is the first NP without NP below in the block. */
  lemma ChunkWithinBlock(tree: Tree, k: nat)
    requires k < |Subtrees(tree)|
    requires Subtrees(tree)[k] != tree && IsNP(Subtrees(tree)[k])
    ensures k + |Subtrees(Subtrees(tree)[k])| <= |Subtrees(tree)|
    ensures MinimalNP(ChunkReturn(Subtrees(tree)[k]))
    ensures exists p :: k <= p < k + |Subtrees(Subtrees(tree)[k])|
                        && Subtrees(tree)[p] == ChunkReturn(Subtrees(tree)[k])
                        && forall j :: k <= j < p ==> !MinimalNP(Subtrees(tree)[j])
  {
    var ss := Subtrees(tree);
    var s := ss[k];
    SubtreesContiguous(tree, k);
    ChunkReturnIsFirstMinimal(s);
    var i :| 0 <= i < |Subtrees(s)| && Subtrees(s)[i] == ChunkReturn(s)
             && forall j :: 0 <= j < i ==> !MinimalNP(Subtrees(s)[j]);
    assert ss[k + i] == ChunkReturn(s);
    forall j | k <= j < k + i ensures !MinimalNP(ss[j]) {
      assert ss[j] == Subtrees(s)[j - k];
    }
  }

  /** A chunk found from the node at `k` first occurs before any other chunk
      node that comes after position `k`. */
  lemma ChunkPrecedes(tree: Tree, k: nat, m: nat)
    requires k < m < |Subtrees(tree)|
    requires Subtrees(tree)[k] != tree && IsNP(Subtrees(tree)[k])
    requires MinimalNP(Subtrees(tree)[m]) && Subtrees(tree)[m] != ChunkReturn(Subtrees(tree)[k])
    ensures ChunkReturn(Subtrees(tree)[k]) in Subtrees(tree)
    ensures IndexOf(Subtrees(tree), ChunkReturn(Subtrees(tree)[k])) < m
  {
    var ss := Subtrees(tree);
    var c := ChunkReturn(ss[k]);
    ChunkWithinBlock(tree, k);
    var p :| k <= p < k + |Subtrees(ss[k])| && ss[p] == c
             && forall j :: k <= j < p ==> !MinimalNP(ss[j]);
    assert p < m;
  }

  /** The chunks found from the first `n` nodes are chunk nodes other than
      the root. */
  lemma PrefixCandidatesAreChunks(tree: Tree, n: nat)
    requires n <= |Subtrees(tree)|
    ensures forall c :: c in Candidates(Subtrees(tree)[..n], tree) ==>
              c in Subtrees(tree) && c != tree && MinimalNP(c)
  {
    var ss := Subtrees(tree);
    CandidatesElements(ss[..n], tree);
    forall c | c in Candidates(ss[..n], tree) ensures c in ss && c != tree && MinimalNP(c) {
      var k :| 0 <= k < n && ss[..n][k] != tree && IsNP(ss[..n][k]) && c == ChunkReturn(ss[..n][k]);
      assert ss[..n][k] == ss[k];
      ChunkWithinBlock(tree, k);
      var p :| k <= p < k + |Subtrees(ss[k])| && ss[p] == c
               && forall j :: k <= j < p ==> !MinimalNP(ss[j]);
      SubtreeSize(tree, p);
    }
  }

  /** A chunk not found from the first `n` nodes but found from the node at
      `n` first occurs at position `n` or later. */
  lemma NewChunkFirstOccurrence(tree: Tree, n: nat)
    requires n < |Subtrees(tree)|
    requires Subtrees(tree)[n] != tree && IsNP(Subtrees(tree)[n])
    requires ChunkReturn(Subtrees(tree)[n]) !in Candidates(Subtrees(tree)[..n], tree)
    ensures ChunkReturn(Subtrees(tree)[n]) in Subtrees(tree)
    ensures n <= IndexOf(Subtrees(tree), ChunkReturn(Subtrees(tree)[n]))
    ensures MinimalNP(ChunkReturn(Subtrees(tree)[n]))
  {
    var ss := Subtrees(tree);
    var c := ChunkReturn(ss[n]);
    ChunkOfVisitedNode(tree, n);
    ProperSubtreesOfNode(tree);
    CandidatesElements(ss[..n], tree);
    var m := IndexOf(ss, c);
    SubtreeSize(tree, m);
    forall k | 0 <= k < n && ss[k] != tree && IsNP(ss[k]) ensures ChunkReturn(ss[k]) != c {
      assert ss[..n][k] == ss[k];
    }
    assert ChunkReturn(ss[m]) == c;
  }

  /** A chunk not found from the first `n` nodes but found from the node at
      `n` first occurs after every chunk found before. */
  lemma NewChunkComesLater(tree: Tree, n: nat)
    requires n < |Subtrees(tree)|
    requires Subtrees(tree)[n] != tree && IsNP(Subtrees(tree)[n])
    requires ChunkReturn(Subtrees(tree)[n]) !in Candidates(Subtrees(tree)[..n], tree)
    ensures ChunkReturn(Subtrees(tree)[n]) in Subtrees(tree)
    ensures forall x :: x in Candidates(Subtrees(tree)[..n], tree) ==>
              x in Subtrees(tree) &&
              IndexOf(Subtrees(tree), x) < IndexOf(Subtrees(tree), ChunkReturn(Subtrees(tree)[n]))
  {
    var ss := Subtrees(tree);
    var c := ChunkReturn(ss[n]);
    NewChunkFirstOccurrence(tree, n);
    PrefixCandidatesAreChunks(tree, n);
    CandidatesElements(ss[..n], tree);
    var m := IndexOf(ss, c);
    forall x | x in Candidates(ss[..n], tree) ensures IndexOf(ss, x) < m {
      var k :| 0 <= k < n && ss[..n][k] != tree && IsNP(ss[..n][k]) && x == ChunkReturn(ss[..n][k]);
      assert ss[..n][k] == ss[k];
      ChunkPrecedes(tree, k, m);
    }
  }

  /** `np_chunk` after visiting the first `n` nodes: its chunks are chunk
      nodes of the tree, in the pre-order of their first occurrence. */
  lemma {:induction false} PrefixChunksInPreorder(tree: Tree, n: nat)
    requires n <= |Subtrees(tree)|
    ensures forall c :: c in Dedup(Candidates(Subtrees(tree)[..n], tree)) ==> c in Subtrees(tree)
    ensures forall i, j :: 0 <= i < j < |Dedup(Candidates(Subtrees(tree)[..n], tree))| ==>
              IndexOf(Subtrees(tree), Dedup(Candidates(Subtrees(tree)[..n], tree))[i])
              < IndexOf(Subtrees(tree), Dedup(Candidates(Subtrees(tree)[..n], tree))[j])
  {
    var ss := Subtrees(tree);
    DedupElements(Candidates(ss[..n], tree));
    PrefixCandidatesAreChunks(tree, n);
    if n > 0 {
      PrefixChunksInPreorder(tree, n - 1);
      var before := ss[..n - 1];
      assert ss[..n][..n - 1] == before;
      var s := ss[n - 1];
      if s != tree && IsNP(s) && ChunkReturn(s) !in Dedup(Candidates(before, tree)) {
        DedupElements(Candidates(before, tree));
        NewChunkComesLater(tree, n - 1);
      }
    }
  }

  /** The chunks of `np_chunk` appear in the pre-order of their first
      occurrence in the tree. */
  lemma ChunksInPreorder(tree: Tree)
    ensures forall c :: c in Chunks(tree) ==> c in Subtrees(tree)
    ensures forall i, j :: 0 <= i < j < |Chunks(tree)| ==>
              IndexOf(Subtrees(tree), Chunks(tree)[i]) < IndexOf(Subtrees(tree), Chunks(tree)[j])
  {
    PrefixChunksInPreorder(tree, |Subtrees(tree)|);
    assert Subtrees(tree)[..|Subtrees(tree)|] == Subtrees(tree);
  }
}
