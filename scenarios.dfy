/** Chunk extraction on parse trees the grammar assigns to a few sentences. */
module Scenarios {
  import opened Trees
  import opened Chunker
  import Grammar

  function Word(category: string, w: string): Tree
  {
    Node(category, [Leaf(w)])
  }

  /** `NP -> N` over one noun. */
  function NounPhrase(w: string): Tree
  {
    Node("NP", [Word("N", w)])
  }

  lemma SubtreesOfWord(category: string, w: string)
    ensures Subtrees(Word(category, w)) == [Word(category, w)]
  {
    assert [Leaf(w)][1..] == [];
    assert ForestSubtrees([Leaf(w)]) == [];
  }

  lemma SubtreesOfOne(category: string, a: Tree)
    ensures Subtrees(Node(category, [a])) == [Node(category, [a])] + Subtrees(a)
  {
    assert [a][1..] == [];
    assert ForestSubtrees([a]) == Subtrees(a);
  }

  lemma SubtreesOfTwo(category: string, a: Tree, b: Tree)
    ensures Subtrees(Node(category, [a, b])) == [Node(category, [a, b])] + Subtrees(a) + Subtrees(b)
  {
    assert [a, b][1..] == [b] && [b][1..] == [];
    assert ForestSubtrees([b]) == Subtrees(b);
    assert ForestSubtrees([a, b]) == Subtrees(a) + Subtrees(b);
  }

  lemma NounPhraseIsChunk(w: string)
    ensures Subtrees(NounPhrase(w)) == [NounPhrase(w), Word("N", w)]
    ensures MinimalNP(NounPhrase(w)) && ChunkReturn(NounPhrase(w)) == NounPhrase(w)
  {
    SubtreesOfWord("N", w);
    SubtreesOfOne("NP", Word("N", w));
    assert ProperSubtrees(NounPhrase(w)) == [Word("N", w)];
  }

  /** `chunkReturn` of `NP -> Det NP` over a noun is the inner NP. */
  lemma DeterminerPhraseChunk(det: string, w: string)
    ensures Subtrees(Node("NP", [Word("Det", det), NounPhrase(w)]))
            == [Node("NP", [Word("Det", det), NounPhrase(w)]), Word("Det", det), NounPhrase(w), Word("N", w)]
    ensures ChunkReturn(Node("NP", [Word("Det", det), NounPhrase(w)])) == NounPhrase(w)
  {
    var inner := NounPhrase(w);
    var outer := Node("NP", [Word("Det", det), inner]);
    NounPhraseIsChunk(w);
    SubtreesOfWord("Det", det);
    SubtreesOfTwo("NP", Word("Det", det), inner);
    ProperSubtreesOfNode(outer);
    assert ProperSubtrees(outer) == [Word("Det", det), inner, Word("N", w)];
    assert IsNP(ProperSubtrees(outer)[1]);
  }

  /** A list without repeats, drawn from a set, is no longer than the set. */
  lemma {:induction false} DistinctWithin(cs: seq<Tree>, s: set<Tree>)
    requires forall i, j :: 0 <= i < j < |cs| ==> cs[i] != cs[j]
    requires forall c :: c in cs ==> c in s
    ensures |cs| <= |s|
  {
    if cs != [] {
      var rest := cs[1..];
      assert forall c :: c in rest ==> c in s - {cs[0]};
      DistinctWithin(rest, s - {cs[0]});
    }
  }

  /** A list without repeats holding exactly `a` and `b`, ordered by first
      position in `ss`, is `[a, b]` when `a` comes first in `ss`. */
  lemma OrderedPair(cs: seq<Tree>, ss: seq<Tree>, a: Tree, b: Tree)
    requires a != b && a in ss && b in ss && IndexOf(ss, a) < IndexOf(ss, b)
    requires forall i, j :: 0 <= i < j < |cs| ==> cs[i] != cs[j]
    requires forall c :: c in cs <==> c == a || c == b
    requires forall c :: c in cs ==> c in ss
    requires forall i, j :: 0 <= i < j < |cs| ==> IndexOf(ss, cs[i]) < IndexOf(ss, cs[j])
    ensures cs == [a, b]
  {
    DistinctWithin(cs, {a, b});
    assert a in cs && b in cs;
    assert |cs| == 2;
    assert cs[0] in cs && cs[1] in cs;
  }

  /** A tree whose chunk nodes are all equal to `a` has the single chunk `a`. */
  lemma SingleChunk(t: Tree, a: Tree)
    requires a in ProperSubtrees(t) && MinimalNP(a)
    requires forall c :: c in ProperSubtrees(t) && MinimalNP(c) ==> c == a
    ensures Chunks(t) == [a]
  {
    var cs := Chunks(t);
    ChunksAreMinimalNPs(t);
    ChunksDistinct(t);
    DistinctWithin(cs, {a});
    assert a in cs;
  }

  /** A tree whose chunk nodes are `a` and `b`, `a` first, has chunks `[a, b]`. */
  lemma TwoChunks(t: Tree, a: Tree, b: Tree)
    requires a != b
    requires a in Subtrees(t) && b in Subtrees(t) && IndexOf(Subtrees(t), a) < IndexOf(Subtrees(t), b)
    requires a in ProperSubtrees(t) && MinimalNP(a) && b in ProperSubtrees(t) && MinimalNP(b)
    requires forall c :: c in ProperSubtrees(t) && MinimalNP(c) ==> c == a || c == b
    ensures Chunks(t) == [a, b]
  {
    ChunksAreMinimalNPs(t);
    ChunksDistinct(t);
    ChunksInPreorder(t);
    OrderedPair(Chunks(t), Subtrees(t), a, b);
  }

  /** S -> NP VP, NP -> N, VP -> V. */
  function SubjectVerb(subj: string, verb: string): Tree
  {
    Node("S", [NounPhrase(subj), Node("VP", [Word("V", verb)])])
  }

  /** A subject and an intransitive verb: the one chunk is the subject. */
  lemma SubjectVerbChunks(subj: string, verb: string)
    ensures Chunks(SubjectVerb(subj, verb)) == [NounPhrase(subj)]
  {
    var n, v := Word("N", subj), Word("V", verb);
    var np, vp := NounPhrase(subj), Node("VP", [v]);
    var t := SubjectVerb(subj, verb);
    NounPhraseIsChunk(subj);
    SubtreesOfWord("V", verb);
    SubtreesOfOne("VP", v);
    SubtreesOfTwo("S", np, vp);
    assert Subtrees(t) == [t, np, n, vp, v];
    ProperSubtreesOfNode(t);
    SingleChunk(t, np);
  }

  /** "holmes sat": the one chunk is "holmes". */
  lemma HolmesSat()
    ensures Chunks(SubjectVerb("holmes", "sat")) == [NounPhrase("holmes")]
  {
    SubjectVerbChunks("holmes", "sat");
  }

  /** S -> NP VP, VP -> V NP, NP -> Det NP, NP -> N. */
  function SubjectVerbDetObject(subj: string, verb: string, det: string, obj: string): Tree
  {
    Node("S", [NounPhrase(subj),
               Node("VP", [Word("V", verb), Node("NP", [Word("Det", det), NounPhrase(obj)])])])
  }

  lemma SubjectVerbDetObjectNodes(subj: string, verb: string, det: string, obj: string)
    ensures Subtrees(SubjectVerbDetObject(subj, verb, det, obj))
            == [SubjectVerbDetObject(subj, verb, det, obj), NounPhrase(subj), Word("N", subj),
                SubjectVerbDetObject(subj, verb, det, obj).children[1], Word("V", verb),
                Node("NP", [Word("Det", det), NounPhrase(obj)]), Word("Det", det),
                NounPhrase(obj), Word("N", obj)]
  {
    var np2 := Node("NP", [Word("Det", det), NounPhrase(obj)]);
    NounPhraseIsChunk(subj);
    DeterminerPhraseChunk(det, obj);
    SubtreesOfWord("V", verb);
    SubtreesOfTwo("VP", Word("V", verb), np2);
    SubtreesOfTwo("S", NounPhrase(subj), SubjectVerbDetObject(subj, verb, det, obj).children[1]);
  }

  /** The NP "det obj" is not a chunk: the NP "obj" is below it. */
  lemma DeterminerPhraseIsNotMinimal(det: string, obj: string)
    ensures !MinimalNP(Node("NP", [Word("Det", det), NounPhrase(obj)]))
  {
    var np2 := Node("NP", [Word("Det", det), NounPhrase(obj)]);
    DeterminerPhraseChunk(det, obj);
    ProperSubtreesOfNode(np2);
    assert IsNP(ProperSubtrees(np2)[1]);
  }

  /** Its chunk nodes are the NPs over the subject and over the object noun. */
  lemma SubjectVerbDetObjectChunkNodes(subj: string, verb: string, det: string, obj: string)
    ensures forall c :: c in ProperSubtrees(SubjectVerbDetObject(subj, verb, det, obj)) && MinimalNP(c) ==>
              c == NounPhrase(subj) || c == NounPhrase(obj)
    ensures NounPhrase(subj) in ProperSubtrees(SubjectVerbDetObject(subj, verb, det, obj))
    ensures NounPhrase(obj) in ProperSubtrees(SubjectVerbDetObject(subj, verb, det, obj))
  {
    var t := SubjectVerbDetObject(subj, verb, det, obj);
    SubjectVerbDetObjectNodes(subj, verb, det, obj);
    DeterminerPhraseIsNotMinimal(det, obj);
    ProperSubtreesOfNode(t);
    var ps := ProperSubtrees(t);
    assert ps == [NounPhrase(subj), Word("N", subj), t.children[1], Word("V", verb),
                  Node("NP", [Word("Det", det), NounPhrase(obj)]), Word("Det", det),
                  NounPhrase(obj), Word("N", obj)];
    assert ps[0] == NounPhrase(subj) && ps[6] == NounPhrase(obj);
  }

  /** In pre-order the subject NP first occurs at position 1 and, when the
      nouns differ, the object noun's NP first occurs at position 7. */
  lemma SubjectVerbDetObjectOrder(subj: string, verb: string, det: string, obj: string)
    requires subj != obj
    ensures NounPhrase(subj) in Subtrees(SubjectVerbDetObject(subj, verb, det, obj))
    ensures NounPhrase(obj) in Subtrees(SubjectVerbDetObject(subj, verb, det, obj))
    ensures IndexOf(Subtrees(SubjectVerbDetObject(subj, verb, det, obj)), NounPhrase(subj)) == 1
    ensures IndexOf(Subtrees(SubjectVerbDetObject(subj, verb, det, obj)), NounPhrase(obj)) == 7
  {
    var ss := Subtrees(SubjectVerbDetObject(subj, verb, det, obj));
    SubjectVerbDetObjectNodes(subj, verb, det, obj);
    IndexOfAt(ss, NounPhrase(subj), 1);
    IndexOfAt(ss, NounPhrase(obj), 7);
  }

  /** With two different nouns, the chunks are the subject and the object
      noun; the object phrase with its determiner is not a chunk. */
  lemma SubjectVerbDetObjectChunks(subj: string, verb: string, det: string, obj: string)
    requires subj != obj
    ensures Chunks(SubjectVerbDetObject(subj, verb, det, obj)) == [NounPhrase(subj), NounPhrase(obj)]
  {
    var t := SubjectVerbDetObject(subj, verb, det, obj);
    SubjectVerbDetObjectOrder(subj, verb, det, obj);
    NounPhraseIsChunk(subj);
    NounPhraseIsChunk(obj);
    SubjectVerbDetObjectChunkNodes(subj, verb, det, obj);
    TwoChunks(t, NounPhrase(subj), NounPhrase(obj));
  }

  /** "holmes lit a pipe": the chunks are "holmes" and "pipe", not "a pipe". */
  lemma HolmesLitAPipe()
    ensures Chunks(SubjectVerbDetObject("holmes", "lit", "a", "pipe"))
            == [NounPhrase("holmes"), NounPhrase("pipe")]
  {
    SubjectVerbDetObjectChunks("holmes", "lit", "a", "pipe");
  }

  /** S -> NP VP, VP -> V NP, both NPs over one noun. */
  function SubjectVerbObject(subj: string, verb: string, obj: string): Tree
  {
    Node("S", [NounPhrase(subj), Node("VP", [Word("V", verb), NounPhrase(obj)])])
  }

  /** When subject and object are the same noun, the two NP nodes over it are
      equal trees, so only one chunk is reported. */
  lemma RepeatedNounReportedOnce(w: string, verb: string)
    ensures Chunks(SubjectVerbObject(w, verb, w)) == [NounPhrase(w)]
  {
    var n, v := Word("N", w), Word("V", verb);
    var np := NounPhrase(w);
    var vp := Node("VP", [v, np]);
    var t := SubjectVerbObject(w, verb, w);
    NounPhraseIsChunk(w);
    SubtreesOfWord("V", verb);
    SubtreesOfTwo("VP", v, np);
    SubtreesOfTwo("S", np, vp);
    assert Subtrees(t) == [t, np, n, vp, v, np, n];
    ProperSubtreesOfNode(t);
    SingleChunk(t, np);
  }

  /** "holmes sat holmes": one chunk, "holmes". */
  lemma RepeatedPhraseReportedOnce()
    ensures Chunks(SubjectVerbObject("holmes", "sat", "holmes")) == [NounPhrase("holmes")]
  {
    RepeatedNounReportedOnce("holmes", "sat");
  }

  /** The categories of a list of internal nodes. */
  function Categories(cs: seq<Tree>): (labels: seq<string>)
    requires forall k :: 0 <= k < |cs| ==> cs[k].Node?
    ensures |labels| == |cs| && forall k :: 0 <= k < |cs| ==> labels[k] == cs[k].category
  {
    if cs == [] then [] else [cs[0].category] + Categories(cs[1..])
  }

  /** `t` is a derivation in the grammar's tables: a node over one word is a
      terminal line listing that word, and any other node is a nonterminal
      line whose alternative is its children's categories. */
  predicate Derived(t: Tree)
    decreases t
  {
    match t
    case Leaf(_) => false
    case Node(c, cs) =>
      if |cs| == 1 && cs[0].Leaf? then Grammar.Lists(c, cs[0].word)
      else
        (forall k :: 0 <= k < |cs| ==> cs[k].Node?)
        && Grammar.Produces(c, Categories(cs))
        && forall k :: 0 <= k < |cs| ==> Derived(cs[k])
  }

  /** The words at the leaves, left to right. */
  function Yield(t: Tree): seq<string>
    decreases t
  {
    match t
    case Leaf(w) => [w]
    case Node(_, cs) => ForestYield(cs)
  }

  function ForestYield(cs: seq<Tree>): seq<string>
    decreases cs
  {
    if cs == [] then [] else Yield(cs[0]) + ForestYield(cs[1..])
  }

  lemma YieldOfOne(category: string, a: Tree)
    ensures Yield(Node(category, [a])) == Yield(a)
  {
    assert [a][1..] == [];
    assert ForestYield([a]) == Yield(a) + ForestYield([]);
  }

  lemma YieldOfTwo(category: string, a: Tree, b: Tree)
    ensures Yield(Node(category, [a, b])) == Yield(a) + Yield(b)
  {
    assert [a, b][1..] == [b] && [b][1..] == [];
    assert ForestYield([b]) == Yield(b) + ForestYield([]);
    assert ForestYield([a, b]) == Yield(a) + ForestYield([b]);
  }

  /** A noun phrase over a listed noun is derived by `NP -> N`. */
  lemma NounPhraseDerived(w: string)
    requires Grammar.Lists("N", w)
    ensures Derived(NounPhrase(w)) && Yield(NounPhrase(w)) == [w]
  {
    assert Grammar.Nonterminals[2].lhs == "NP" && ["N"] in Grammar.Nonterminals[2].alternatives;
    assert Categories([Word("N", w)]) == ["N"];
    YieldOfOne("N", Leaf(w));
    YieldOfOne("NP", Word("N", w));
  }

  /** `S -> NP VP` joins a derived NP and a derived VP into a derived sentence. */
  lemma SentenceDerived(np: Tree, vp: Tree)
    requires np.Node? && np.category == "NP" && Derived(np)
    requires vp.Node? && vp.category == "VP" && Derived(vp)
    ensures Derived(Node("S", [np, vp])) && Yield(Node("S", [np, vp])) == Yield(np) + Yield(vp)
  {
    assert Grammar.Nonterminals[0].lhs == "S" && ["NP", "VP"] in Grammar.Nonterminals[0].alternatives;
    assert Categories([np, vp]) == ["NP", "VP"];
    YieldOfTwo("S", np, vp);
  }

  /** `VP -> V NP` joins a listed verb and a derived NP into a derived VP. */
  lemma TransitiveVerbPhraseDerived(verb: string, np: Tree)
    requires Grammar.Lists("V", verb)
    requires np.Node? && np.category == "NP" && Derived(np)
    ensures Derived(Node("VP", [Word("V", verb), np]))
    ensures Yield(Node("VP", [Word("V", verb), np])) == [verb] + Yield(np)
  {
    assert Grammar.Nonterminals[4].lhs == "VP" && ["V", "NP"] in Grammar.Nonterminals[4].alternatives;
    assert Categories([Word("V", verb), np]) == ["V", "NP"];
    YieldOfOne("V", Leaf(verb));
    YieldOfTwo("VP", Word("V", verb), np);
  }

  /** `S -> NP VP` and `VP -> V` derive the subject-verb tree from its words. */
  lemma SubjectVerbDerived(subj: string, verb: string)
    requires Grammar.Lists("N", subj) && Grammar.Lists("V", verb)
    ensures Derived(SubjectVerb(subj, verb)) && Yield(SubjectVerb(subj, verb)) == [subj, verb]
  {
    var vp := Node("VP", [Word("V", verb)]);
    NounPhraseDerived(subj);
    assert Grammar.Nonterminals[4].lhs == "VP" && ["V"] in Grammar.Nonterminals[4].alternatives;
    assert Categories([Word("V", verb)]) == ["V"];
    YieldOfOne("V", Leaf(verb));
    YieldOfOne("VP", Word("V", verb));
    SentenceDerived(NounPhrase(subj), vp);
  }

  /** `NP -> Det NP` derives the determiner phrase over a listed noun. */
  lemma DeterminerPhraseDerived(det: string, obj: string)
    requires Grammar.Lists("Det", det) && Grammar.Lists("N", obj)
    ensures Derived(Node("NP", [Word("Det", det), NounPhrase(obj)]))
    ensures Yield(Node("NP", [Word("Det", det), NounPhrase(obj)])) == [det, obj]
  {
    NounPhraseDerived(obj);
    assert Grammar.Nonterminals[2].lhs == "NP" && ["Det", "NP"] in Grammar.Nonterminals[2].alternatives;
    assert Categories([Word("Det", det), NounPhrase(obj)]) == ["Det", "NP"];
    YieldOfOne("Det", Leaf(det));
    YieldOfTwo("NP", Word("Det", det), NounPhrase(obj));
  }

  /** The grammar derives the subject-verb-object tree with a determiner
      phrase from its words. */
  lemma SubjectVerbDetObjectDerived(subj: string, verb: string, det: string, obj: string)
    requires Grammar.Lists("N", subj) && Grammar.Lists("V", verb)
    requires Grammar.Lists("Det", det) && Grammar.Lists("N", obj)
    ensures Derived(SubjectVerbDetObject(subj, verb, det, obj))
    ensures Yield(SubjectVerbDetObject(subj, verb, det, obj)) == [subj, verb, det, obj]
  {
    var np2 := Node("NP", [Word("Det", det), NounPhrase(obj)]);
    NounPhraseDerived(subj);
    DeterminerPhraseDerived(det, obj);
    TransitiveVerbPhraseDerived(verb, np2);
    SentenceDerived(NounPhrase(subj), Node("VP", [Word("V", verb), np2]));
  }

  /** The grammar derives the subject-verb-object tree from its words. */
  lemma SubjectVerbObjectDerived(subj: string, verb: string, obj: string)
    requires Grammar.Lists("N", subj) && Grammar.Lists("V", verb) && Grammar.Lists("N", obj)
    ensures Derived(SubjectVerbObject(subj, verb, obj))
    ensures Yield(SubjectVerbObject(subj, verb, obj)) == [subj, verb, obj]
  {
    NounPhraseDerived(subj);
    NounPhraseDerived(obj);
    TransitiveVerbPhraseDerived(verb, NounPhrase(obj));
    SentenceDerived(NounPhrase(subj), Node("VP", [Word("V", verb), NounPhrase(obj)]));
  }

  lemma HolmesIsANoun() ensures Grammar.Lists("N", "holmes")
  {
    assert Grammar.Terminals[5].lhs == "N" && "holmes" in Grammar.Terminals[5].words;
  }

  /** The tree of "holmes sat" is a derivation from S whose leaves are the
      sentence's words. */
  lemma HolmesSatTreeIsDerived()
    ensures SubjectVerb("holmes", "sat").category == "S"
    ensures Derived(SubjectVerb("holmes", "sat")) && Yield(SubjectVerb("holmes", "sat")) == ["holmes", "sat"]
  {
    HolmesIsANoun();
    assert Grammar.Terminals[8].lhs == "V" && "sat" in Grammar.Terminals[8].words;
    SubjectVerbDerived("holmes", "sat");
  }

  /** The tree of "holmes lit a pipe" is a derivation from S whose leaves are
      the sentence's words. */
  lemma HolmesLitAPipeTreeIsDerived()
    ensures SubjectVerbDetObject("holmes", "lit", "a", "pipe").category == "S"
    ensures Derived(SubjectVerbDetObject("holmes", "lit", "a", "pipe"))
    ensures Yield(SubjectVerbDetObject("holmes", "lit", "a", "pipe")) == ["holmes", "lit", "a", "pipe"]
  {
    HolmesIsANoun();
    assert Grammar.Terminals[8].lhs == "V" && "lit" in Grammar.Terminals[8].words;
    assert Grammar.Terminals[3].lhs == "Det" && "a" in Grammar.Terminals[3].words;
    assert Grammar.Terminals[5].lhs == "N" && "pipe" in Grammar.Terminals[5].words;
    SubjectVerbDetObjectDerived("holmes", "lit", "a", "pipe");
  }

  /** The tree of "holmes sat holmes" is a derivation from S whose leaves are
      the sentence's words. */
  lemma HolmesSatHolmesTreeIsDerived()
    ensures SubjectVerbObject("holmes", "sat", "holmes").category == "S"
    ensures Derived(SubjectVerbObject("holmes", "sat", "holmes"))
    ensures Yield(SubjectVerbObject("holmes", "sat", "holmes")) == ["holmes", "sat", "holmes"]
  {
    HolmesIsANoun();
    assert Grammar.Terminals[8].lhs == "V" && "sat" in Grammar.Terminals[8].words;
    SubjectVerbObjectDerived("holmes", "sat", "holmes");
  }
}
