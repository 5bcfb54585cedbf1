# Sentence parser and noun-phrase chunker, modelled in Dafny

The program reads one English sentence and reduces it to lowercase word
tokens. It parses them with a context-free grammar written as two string
tables, terminals and nonterminals. For every parse tree it then prints the
tree's noun-phrase chunks: the `NP` nodes that have no `NP` node below them.

This project models the program's own logic in five modules:

- `Preprocess` (`preprocess.dfy`) covers `preprocess`: the filter loop over the
  tokenizer's output. It keeps, in order, each token that contains a character
  in `'a'..'z'`.
  - The method `Preprocess` keeps the two nested loops and the `break`.
  - It is proved equal to the specification function `Kept`.
  - Lemmas about `Kept` give the filter's properties.
- `Trees` (`trees.dfy`) holds the parse trees.
  - A leaf holds a word; a node holds a category and ordered children.
  - Equality is structural, like the parsing library's trees.
  - `Subtrees` is the library's `subtrees()`: the internal nodes in pre-order,
    root first.
  - Size lemmas show that a node found below a tree is never equal to that
    tree. So the source's `subtree != tree` test skips exactly the root.
- `Chunker` (`chunker.dfy`) covers `chunkReturn` and `np_chunk`.
  - `ChunkReturn` is a recursive function over `Subtrees`.
  - The method `NpChunk` keeps the source's loop with its `not in` check. It is
    proved equal to `Chunks`, which deduplicates the `chunkReturn` results of
    the non-root NP nodes.
  - The lemmas characterise `Chunks`:
    - exactly the minimal NPs below the root (soundness and completeness);
    - no repeats;
    - order of discovery, which is the pre-order of first occurrence;
    - empty exactly when there is no NP below the root;
    - no chunk inside another.
- `Scenarios` (`scenarios.dfy`) computes the chunks of the trees the grammar
  assigns to a few sentence shapes. It also proves that each of those trees is
  a derivation in the two tables whose leaves are the sentence's words.
- `Grammar` (`grammar.dfy`) reproduces the `TERMINALS` and `NONTERMINALS`
  tables line by line, as data. Lemmas prove three facts:
  - every vocabulary word is lowercase ASCII and is listed on exactly one
    line, so it has one part of speech, and it passes the filter unchanged;
  - the symbol `NV` used in the `NP` line has no production;
  - every other symbol has a production.

Consequences of the code worth knowing:

- **Deduplication.** `np_chunk` compares candidate chunks with the trees'
  structural equality. So two NP nodes at different positions that are equal
  trees (the same noun twice, "holmes sat holmes") give one chunk, not two.
  `Scenarios.RepeatedNounReportedOnce` proves this.
- **"a pipe".** Under this grammar "a pipe" is `NP -> Det NP` over the NP
  "pipe". `chunkReturn` therefore descends into the inner NP, and the chunks
  of "holmes lit a pipe" are "holmes" and "pipe", not "a pipe".
  `Scenarios.HolmesLitAPipe` proves this.
- **`NV`.** The last alternative of the `NP` line is the single symbol `NV`.
  No line defines `NV`, and the program does not check its grammar at
  start-up, so that alternative never derives anything.
- **Non-ASCII letters.** The filter tests only `'a'..'z'` after lowercasing. A
  token made only of non-ASCII characters whose lowercase is also non-ASCII
  (for example "é") is dropped.

## Model

| member | source | states |
|---|---|---|
| Preprocess.Preprocess | parser/parser.py:64-81 | The nested loops with the early `break` return exactly `Kept(tokens)`: the tokens with a character in 'a'..'z', in input order. |
| Preprocess.KeptCounts | parser/parser.py:75-79 | Each token with a character in 'a'..'z' appears in the output exactly as often as in the input. Any other token appears 0 times. So a kept token is appended once per occurrence. |
| Preprocess.KeptMembership | parser/parser.py:75-79 | A word is in the output if and only if it is an input token and contains a character in 'a'..'z'. |
| Preprocess.KeptIsOrderedSubsequence | parser/parser.py:71-81 | The output is the input taken at strictly increasing positions, and a position is taken if and only if its token contains a character in 'a'..'z'. |
| Preprocess.KeptLength | parser/parser.py:71-81 | The output is never longer than the token list. No tokens give no words. |
| Preprocess.KeptIdempotent | parser/parser.py:71-81 | Filtering the output again leaves it unchanged. |
| Preprocess.KeptAllPass | parser/parser.py:75-79 | A token list whose every token contains a character in 'a'..'z' is returned unchanged. |
| Preprocess.KeptConcat | parser/parser.py:75-79 | Filtering a concatenation gives the concatenation of the filtered parts, because tokens are filtered one at a time. |
| Preprocess.LoweredTokenPasses | parser/parser.py:75-77 | After ASCII lowercasing, a token passes the filter if and only if it has an ASCII letter of either case. |
| Trees.SubtreeSize | parser/parser.py:111-114 | Every node `subtrees()` lists is an internal node no larger than the tree. Every one after the first is strictly smaller, and it is the tree itself exactly at position 0. This makes the recursion of `chunkReturn` terminate. |
| Trees.ProperSubtreesOfNode | parser/parser.py:94-95 | A node's `subtrees()` is the node followed by its proper subtrees, none of which equals the node. So `subtree != tree` skips exactly the root. |
| Trees.SubtreesContiguous | parser/parser.py:111-115 | In pre-order, the nodes under the node at position k come next as one contiguous block. |
| Trees.ProperSubtreeTransitive | parser/parser.py:111-115 | A node below a node below `t` is below `t`, at the corresponding position of `t`'s listing. |
| Chunker.FirstNPOtherThan | parser/parser.py:111-113 | The scan returns the first position that differs from `t` and is labelled NP, or the end of the list when there is none. Every position it skips is `t` or not an NP. |
| Chunker.ChunkReturn | parser/parser.py:108-118 | With no NP node below `t`, the result is `t`. Otherwise the result is an NP node strictly below `t` with no NP node below it. |
| Chunker.ChunkReturnStep | parser/parser.py:111-115 | With an NP node below `t`, the scan stops inside the listing at a strictly smaller node. The result is that node's `chunkReturn`. |
| Chunker.ChunkReturnIsFirstMinimal | parser/parser.py:108-118 | For an NP node, or a node with an NP below it, the result is the first node in its pre-order that is an NP with no NP below it. |
| Chunker.NpChunk | parser/parser.py:84-105 | The loop over `subtrees()` with the root test, the NP test and the `not in` check returns exactly `Chunks(tree)`. |
| Chunker.CandidateIsMinimalNP | parser/parser.py:94-99 | Every `chunkReturn` of a visited non-root NP node is an NP strictly below the root with no NP below it. |
| Chunker.MinimalNPIsCandidate | parser/parser.py:94-99 | Every NP strictly below the root with no NP below it is the `chunkReturn` of some visited non-root NP node. |
| Chunker.ChunksAreMinimalNPs | parser/parser.py:84-105 | A tree is a chunk if and only if it is an NP node strictly below the root with no NP node below it. |
| Chunker.ChunksDistinct | parser/parser.py:101-103 | No two chunks are equal trees. |
| Chunker.ChunksInDiscoveryOrder | parser/parser.py:91-105 | Chunks are listed in the order in which the walk first produces them. |
| Chunker.ChunksInPreorder | parser/parser.py:91-105 | Every chunk is a node of the tree, and chunks are listed in the pre-order of their first occurrence in the tree. |
| Chunker.ChunksEmpty | parser/parser.py:91-105 | The chunk list is empty if and only if no NP node lies below the root. |
| Chunker.ChunksNotNested | parser/parser.py:84-89 | No chunk lies inside another chunk. |
| Chunker.ChunkWithinBlock | parser/parser.py:108-118 | The chunk of a visited NP node lies in that node's pre-order block. No earlier node of the block is an NP without NP below it. |
| Chunker.ChunkOfVisitedNode | parser/parser.py:94-99 | The chunk of a visited non-root NP node is a minimal NP strictly below the root. |
| Chunker.NewChunkFirstOccurrence | parser/parser.py:99-103 | A chunk appended at step n first occurs in the pre-order at position n or later. |
| Chunker.NewChunkComesLater | parser/parser.py:99-103 | A chunk appended at step n first occurs after every chunk collected before step n. |
| Chunker.PrefixChunksInPreorder | parser/parser.py:91-105 | After any number of loop steps, the collected chunks are in the pre-order of first occurrence. |
| Chunker.DedupElements | parser/parser.py:101-103 | Skipping elements already collected keeps exactly the elements of the input. |
| Chunker.DedupDistinct | parser/parser.py:101-103 | Skipping elements already collected leaves no repeats. |
| Chunker.DedupFirstOccurrenceOrder | parser/parser.py:101-103 | Skipping elements already collected lists elements in the order of their first occurrence. |
| Scenarios.DeterminerPhraseChunk | parser/parser.py:108-118 | `chunkReturn` of `NP -> Det NP` over a noun is the inner NP. |
| Scenarios.SubjectVerbChunks | parser/parser.py:84-105 | For `S -> NP VP` with `VP -> V`, the only chunk is the subject NP. |
| Scenarios.HolmesSat | parser/parser.py:84-105 | "holmes sat" has the single chunk "holmes". |
| Scenarios.SubjectVerbDetObjectChunks | parser/parser.py:84-118 | For `S -> NP VP`, `VP -> V NP`, `NP -> Det NP` with two different nouns, the chunks are the subject NP and then the object noun's NP. The determiner phrase is not a chunk. |
| Scenarios.HolmesLitAPipe | parser/parser.py:84-118 | "holmes lit a pipe" has the chunks "holmes" and "pipe", in that order. |
| Scenarios.RepeatedNounReportedOnce | parser/parser.py:101-103 | When subject and object are the same noun, the two equal NP trees give one chunk. |
| Scenarios.RepeatedPhraseReportedOnce | parser/parser.py:101-103 | "holmes sat holmes" has the single chunk "holmes". |
| Grammar.LowerFromMeans | parser/parser.py:4-15 | The vocabulary check: the recursive character check accepts a word if and only if every character from position k on is in 'a'..'z'. |
| Grammar.LowercaseLine | parser/parser.py:5-14 | Every word on every line of the terminal table is non-empty and lowercase ASCII. |
| Grammar.DisjointLine | parser/parser.py:5-14 | No word on a line of the terminal table occurs on a later line. |
| Grammar.VocabularyIsLowercase | parser/parser.py:4-15 | Every vocabulary word is non-empty, made only of 'a'..'z', and so contains a character the filter accepts. |
| Grammar.VocabularySentenceIsKept | parser/parser.py:75-79 | A token list made of vocabulary words passes the filter unchanged. |
| Grammar.OneCategoryPerWord | parser/parser.py:4-15 | A vocabulary word is listed on exactly one line of the terminal table, so it has exactly one part of speech. |
| Grammar.NVIsUndefined | parser/parser.py:22 | The NP line's last alternative is `NV`, and no line of either table defines `NV`. |
| Grammar.OtherSymbolsDefined | parser/parser.py:18-25 | Every right-hand-side symbol other than `NV` is the left-hand side of some line. |
| Scenarios.NounPhraseDerived | parser/parser.py:9-22 | `NP -> N` over a noun of the terminal table is a derivation whose leaves are that noun. |
| Scenarios.SentenceDerived | parser/parser.py:19 | `S -> NP VP` over a derived NP and a derived VP is a derivation whose leaves are theirs, in order. |
| Scenarios.TransitiveVerbPhraseDerived | parser/parser.py:13-24 | `VP -> V NP` over a listed verb and a derived NP is a derivation whose leaves are the verb and then the NP's leaves. |
| Scenarios.DeterminerPhraseDerived | parser/parser.py:8-22 | `NP -> Det NP` over a listed determiner and a listed noun is a derivation whose leaves are those two words. |
| Scenarios.SubjectVerbDerived | parser/parser.py:4-25 | The subject-verb tree over a listed noun and verb is a derivation in the tables whose leaves are the two words. |
| Scenarios.SubjectVerbDetObjectDerived | parser/parser.py:4-25 | The subject-verb-determiner-object tree over listed words is a derivation in the tables whose leaves are the four words. |
| Scenarios.SubjectVerbObjectDerived | parser/parser.py:4-25 | The subject-verb-object tree over listed words is a derivation in the tables whose leaves are the three words. |
| Scenarios.HolmesSatTreeIsDerived | parser/parser.py:4-25 | The tree used for "holmes sat" is rooted at `S`, is derived by the tables, and its leaves are "holmes", "sat". |
| Scenarios.HolmesLitAPipeTreeIsDerived | parser/parser.py:4-25 | The tree used for "holmes lit a pipe" is rooted at `S`, is derived by the tables, and its leaves are the four words. |
| Scenarios.HolmesSatHolmesTreeIsDerived | parser/parser.py:4-25 | The tree used for "holmes sat holmes" is rooted at `S`, is derived by the tables, and its leaves are the three words. |

## Left out

- `main` is not modelled because it is I/O: reading `sys.argv`, a file or standard input, catching `ValueError`, pretty-printing the trees and printing the chunks.
- `nltk.CFG.fromstring` and `nltk.ChartParser` are not modelled, because the parsing algorithm lives in a foreign library. The grammar is kept as data only. Two consequences:
  - the parser's properties (the yield of every tree equals the tokens, every derivation is found) are not stated;
  - the scenario trees are written out by hand. `Scenarios.Derived` and the `...Derived` lemmas prove each is a derivation in the tables with the sentence as its leaves; that it is the only parse is not proved.
- `nltk.tokenize.wordpunct_tokenize` is not modelled, because it is a library regular-expression tokenizer. `Preprocess.Preprocess` takes the token list as its input.
- `Preprocess.LoweredTokenPasses`: Python's Unicode `str.lower()` is modelled only on ASCII (`LowerAscii`). Non-ASCII characters whose lowercase is ASCII (for example U+212A KELVIN SIGN, which lowercases to 'k', and U+0130, which lowercases to 'i' followed by U+0307) are not modelled: a token made only of such characters is kept by the program but would be dropped by `LowerAsciiString`.
- `Tree.flatten()` and the `" ".join` that print a chunk are not modelled: they are output formatting only.
- Parse trees are values: the model does not represent object identity of the library's tree nodes. The source's comparisons (`!=`, `not in`) use structural equality, which the datatype's equality matches.
