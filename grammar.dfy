/** The grammar tables, as data: each terminal line maps a part of speech to
    the words it covers, and each nonterminal line maps a category to its
    alternative right-hand sides. The program hands both tables to the
    parsing library unchanged. */
module Grammar {
  import opened Preprocess

  /** `lhs -> "w1" | "w2" | ...` */
  datatype TerminalLine = TerminalLine(lhs: string, words: seq<string>)

  /** `lhs -> a b | c | ...`, each alternative a sequence of symbols. */
  datatype ProductionLine = ProductionLine(lhs: string, alternatives: seq<seq<string>>)

  /** The terminal table, line by line as written. */
  const Terminals: seq<TerminalLine> := [
    TerminalLine("Adj", ["country", "dreadful", "enigmatical", "little", "moist", "red"]),
    TerminalLine("Adv", ["down", "here", "never"]),
    TerminalLine("Conj", ["and", "until"]),
    TerminalLine("Det", ["a", "an", "his", "my", "the"]),
    TerminalLine("N", ["armchair", "companion", "day", "door", "hand", "he", "himself"]),
    TerminalLine("N", ["holmes", "home", "i", "mess", "paint", "palm", "pipe", "she"]),
    TerminalLine("N", ["smile", "thursday", "walk", "we", "word"]),
    TerminalLine("P", ["at", "before", "in", "of", "on", "to"]),
    TerminalLine("V", ["arrived", "came", "chuckled", "had", "lit", "said", "sat"]),
    TerminalLine("V", ["smiled", "tell", "were"])
  ]

  /** The nonterminal table, line by line as written; the start symbol is the
      left-hand side of its first line. */
  const Nonterminals: seq<ProductionLine> := [
    ProductionLine("S", [["NP", "VP"]]),
    ProductionLine("AP", [["Adj"], ["Adj", "AP"]]),
    ProductionLine("NP", [["N"], ["Det", "NP"], ["AP", "NP"], ["N", "PP"], ["NV"]]),
    ProductionLine("PP", [["P", "NP"], ["P", "Det", "NP"]]),
    ProductionLine("VP", [["V"], ["V", "NP"], ["V", "NP", "PP"], ["V", "PP"], ["Adv", "V", "PP", "NP"],
                          ["V", "P", "Det", "Adj", "N", "Conj", "N", "V"]])
  ]

  /** Some line of the terminal table lists `w`. */
  predicate InVocabulary(w: string)
  {
    exists i :: 0 <= i < |Terminals| && w in Terminals[i].words
  }

  /** Some line of the nonterminal table has `lhs` on its left and `rhs` as
      one of its alternatives. */
  predicate Produces(lhs: string, rhs: seq<string>)
  {
    exists i :: 0 <= i < |Nonterminals| && Nonterminals[i].lhs == lhs && rhs in Nonterminals[i].alternatives
  }

  /** Some line of the terminal table has `category` on its left and lists `w`. */
  predicate Lists(category: string, w: string)
  {
    exists i :: 0 <= i < |Terminals| && Terminals[i].lhs == category && w in Terminals[i].words
  }

  /** Checks, from position `k` on, that every character of `w` is in
      'a'..'z'. */
  function LowerFrom(w: string, k: nat): bool
    decreases |w| - k
  {
    k >= |w| || (IsLowerAscii(w[k]) && LowerFrom(w, k + 1))
  }

  /** Checks, from position `k` on, that every word of `ws` is non-empty and
      passes `LowerFrom`. */
  function WordsLowerFrom(ws: seq<string>, k: nat): bool
    decreases |ws| - k
  {
    k >= |ws| || (|ws[k]| > 0 && LowerFrom(ws[k], 0) && WordsLowerFrom(ws, k + 1))
  }

  lemma {:induction false} LowerFromMeans(w: string, k: nat)
    ensures LowerFrom(w, k) <==> forall m :: k <= m < |w| ==> IsLowerAscii(w[m])
    decreases |w| - k
  {
    if k < |w| {
      LowerFromMeans(w, k + 1);
    }
  }

  lemma {:induction false} WordsLowerFromMeans(ws: seq<string>, k: nat)
    ensures WordsLowerFrom(ws, k) <==> forall m :: k <= m < |ws| ==> |ws[m]| > 0 && LowerFrom(ws[m], 0)
    decreases |ws| - k
  {
    if k < |ws| {
      WordsLowerFromMeans(ws, k + 1);
    }
  }

  /** Every word on line `i` of the terminal table is non-empty and lowercase. */
  predicate LineIsLowercase(i: nat)
    requires i < |Terminals|
  {
    WordsLowerFrom(Terminals[i].words, 0)
  }

  /** No word on line `i` of the terminal table occurs on a later line. */
  predicate DisjointFromLaterLines(i: nat)
    requires i < |Terminals|
  {
    forall j, a, b :: i < j < |Terminals| && 0 <= a < |Terminals[i].words| && 0 <= b < |Terminals[j].words| ==>
      Terminals[i].words[a] != Terminals[j].words[b]
  }

  // The table facts, checked one line at a time so each check stays small.
  lemma LowercaseLine0() ensures LineIsLowercase(0) { }
  lemma LowercaseLine1() ensures LineIsLowercase(1) { }
  lemma LowercaseLine2() ensures LineIsLowercase(2) { }
  lemma LowercaseLine3() ensures LineIsLowercase(3) { }
  lemma LowercaseLine4() ensures LineIsLowercase(4) { }
  lemma LowercaseLine5() ensures LineIsLowercase(5) { }
  lemma LowercaseLine6() ensures LineIsLowercase(6) { }
  lemma LowercaseLine7() ensures LineIsLowercase(7) { }
  lemma LowercaseLine8() ensures LineIsLowercase(8) { }
  lemma LowercaseLine9() ensures LineIsLowercase(9) { }
  lemma DisjointLine0() ensures DisjointFromLaterLines(0) { }
  lemma DisjointLine1() ensures DisjointFromLaterLines(1) { }
  lemma DisjointLine2() ensures DisjointFromLaterLines(2) { }
  lemma DisjointLine3() ensures DisjointFromLaterLines(3) { }
  lemma DisjointLine4() ensures DisjointFromLaterLines(4) { }
  lemma DisjointLine5() ensures DisjointFromLaterLines(5) { }
  lemma DisjointLine6() ensures DisjointFromLaterLines(6) { }
  lemma DisjointLine7() ensures DisjointFromLaterLines(7) { }
  lemma DisjointLine8() ensures DisjointFromLaterLines(8) { }

  /** Every line of the terminal table is lowercase. */
  lemma LowercaseLine(i: nat)
    requires i < |Terminals|
    ensures LineIsLowercase(i)
  {
    if i == 0 { LowercaseLine0(); } else if i == 1 { LowercaseLine1(); }
    else if i == 2 { LowercaseLine2(); } else if i == 3 { LowercaseLine3(); }
    else if i == 4 { LowercaseLine4(); } else if i == 5 { LowercaseLine5(); }
    else if i == 6 { LowercaseLine6(); } else if i == 7 { LowercaseLine7(); }
    else if i == 8 { LowercaseLine8(); } else { LowercaseLine9(); }
  }

  /** No two lines of the terminal table share a word. */
  lemma DisjointLine(i: nat)
    requires i < |Terminals|
    ensures DisjointFromLaterLines(i)
  {
    if i == 0 { DisjointLine0(); } else if i == 1 { DisjointLine1(); }
    else if i == 2 { DisjointLine2(); } else if i == 3 { DisjointLine3(); }
    else if i == 4 { DisjointLine4(); } else if i == 5 { DisjointLine5(); }
    else if i == 6 { DisjointLine6(); } else if i == 7 { DisjointLine7(); }
    else if i == 8 { DisjointLine8(); }
  }

  /** Every vocabulary word is non-empty and made only of letters 'a'..'z', so
      it survives the sentence's lowercasing and the pre-processing filter. */
  lemma VocabularyIsLowercase(w: string)
    requires InVocabulary(w)
    ensures |w| > 0 && forall k :: 0 <= k < |w| ==> IsLowerAscii(w[k])
    ensures HasLowerAscii(w)
  {
    var i :| 0 <= i < |Terminals| && w in Terminals[i].words;
    var m :| 0 <= m < |Terminals[i].words| && Terminals[i].words[m] == w;
    LowercaseLine(i);
    WordsLowerFromMeans(Terminals[i].words, 0);
    LowerFromMeans(w, 0);
    assert IsLowerAscii(w[0]);
  }

  /** Every word of a sentence made of vocabulary words has a letter
      'a'..'z'. */
  lemma VocabularyWordsPass(words: seq<string>)
    requires forall i :: 0 <= i < |words| ==> InVocabulary(words[i])
    ensures forall i :: 0 <= i < |words| ==> HasLowerAscii(words[i])
  {
    forall i | 0 <= i < |words| ensures HasLowerAscii(words[i]) {
      VocabularyIsLowercase(words[i]);
    }
  }

  /** A sentence made of vocabulary words passes the pre-processing filter
      unchanged: every word is kept, in order. */
  lemma VocabularySentenceIsKept(words: seq<string>)
    requires forall i :: 0 <= i < |words| ==> InVocabulary(words[i])
    ensures Kept(words) == words
  {
    VocabularyWordsPass(words);
    assert forall i :: 0 <= i < |words| ==> HasLowerAscii(words[i]);
    KeptAllPass(words);
  }

  /** Every vocabulary word is listed on exactly one line of the terminal
      table, so it belongs to exactly one part-of-speech category. */
  lemma OneCategoryPerWord(w: string, i: nat, j: nat)
    requires i < |Terminals| && j < |Terminals|
    requires w in Terminals[i].words && w in Terminals[j].words
    ensures i == j && Terminals[i].lhs == Terminals[j].lhs
  {
    DisjointLine(i);
    DisjointLine(j);
  }

  /** Some line of either table has `s` as its left-hand side. */
  predicate Defined(s: string)
  {
    (exists i :: 0 <= i < |Nonterminals| && Nonterminals[i].lhs == s)
    || (exists i :: 0 <= i < |Terminals| && Terminals[i].lhs == s)
  }

  /** The NP line names the symbol "NV" in its last alternative, and no line of
      either table defines it, so that alternative derives nothing. */
  lemma NVIsUndefined()
    ensures "NV" in Nonterminals[2].alternatives[4]
    ensures !Defined("NV")
  {
  }

  /** Every other symbol on a right-hand side is the left-hand side of some
      line, so "NV" is the only undefined symbol. */
  lemma OtherSymbolsDefined(i: nat, a: nat, s: string)
    requires i < |Nonterminals| && a < |Nonterminals[i].alternatives|
    requires s in Nonterminals[i].alternatives[a] && s != "NV"
    ensures Defined(s)
  {
    assert Nonterminals[0].lhs == "S" && Nonterminals[1].lhs == "AP" && Nonterminals[2].lhs == "NP";
    assert Nonterminals[3].lhs == "PP" && Nonterminals[4].lhs == "VP";
    assert Terminals[0].lhs == "Adj" && Terminals[1].lhs == "Adv" && Terminals[2].lhs == "Conj";
    assert Terminals[3].lhs == "Det" && Terminals[4].lhs == "N" && Terminals[7].lhs == "P";
    assert Terminals[8].lhs == "V";
  }
}
