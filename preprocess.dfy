/** Sentence pre-processing: of the word-punctuation tokens of the lowercased
    sentence, keep, in order, each token that contains a letter 'a'..'z'. */
module Preprocess {

  predicate IsLowerAscii(c: char)
  {
    'a' <= c <= 'z'
  }

  /** The token contains at least one character in 'a'..'z'. */
  predicate HasLowerAscii(w: string)
  {
    exists i :: 0 <= i < |w| && IsLowerAscii(w[i])
  }

  /** The tokens that pass the filter, in their original order. */
  function Kept(tokens: seq<string>): seq<string>
  {
    if tokens == [] then []
    else
      var last := tokens[|tokens| - 1];
      Kept(tokens[..|tokens| - 1]) + (if HasLowerAscii(last) then [last] else [])
  }

  /** `preprocess`, given the tokens the tokenizer produced from the lowercased
      sentence: scan each token's characters and append the token at its first
      character in 'a'..'z', then stop scanning that token. */
  method Preprocess(tokens: seq<string>) returns (words: seq<string>)
    ensures words == Kept(tokens)
  {
    words := [];
    for n := 0 to |tokens|
      invariant words == Kept(tokens[..n])
    {
      var word := tokens[n];
      assert tokens[..n + 1][..n] == tokens[..n];
      for m := 0 to |word|
        invariant words == Kept(tokens[..n])
        invariant forall j :: 0 <= j < m ==> !IsLowerAscii(word[j])
      {
        if word[m] >= 'a' && word[m] <= 'z' {
          words := words + [word];
          break;
        }
      }
    }
    assert tokens[..|tokens|] == tokens;
  }

  /** Filtering distributes over concatenation. */
  lemma {:induction false} KeptConcat(a: seq<string>, b: seq<string>)
    ensures Kept(a + b) == Kept(a) + Kept(b)
    decreases |b|
  {
    if b == [] {
      assert a + b == a;
    } else {
      var init := b[..|b| - 1];
      KeptConcat(a, init);
      assert (a + b)[..|a + b| - 1] == a + init;
    }
  }

  /** Each token with a letter 'a'..'z' is kept as often as it occurs, and
      no other token is kept: the `break` appends a token at most once. */
  lemma {:induction false} KeptCounts(tokens: seq<string>)
    ensures forall w :: multiset(Kept(tokens))[w] ==
              if HasLowerAscii(w) then multiset(tokens)[w] else 0
  {
    if tokens != [] {
      var init, last := tokens[..|tokens| - 1], tokens[|tokens| - 1];
      KeptCounts(init);
      assert tokens == init + [last];
    }
  }

  /** A token is in the output exactly when it is an input token with a letter
      'a'..'z'. */
  lemma KeptMembership(tokens: seq<string>)
    ensures forall w :: w in Kept(tokens) <==> w in tokens && HasLowerAscii(w)
  {
    KeptCounts(tokens);
    forall w ensures w in Kept(tokens) <==> w in tokens && HasLowerAscii(w) {
      assert w in Kept(tokens) <==> multiset(Kept(tokens))[w] > 0;
      assert w in tokens <==> multiset(tokens)[w] > 0;
    }
  }

  /** `r` is the list of the tokens of `tokens` at the increasing positions `p`. */
  ghost predicate SelectedAt(r: seq<string>, tokens: seq<string>, p: seq<nat>)
  {
    |p| == |r|
    && (forall j :: 0 <= j < |p| ==> p[j] < |tokens| && r[j] == tokens[p[j]])
    && (forall j, k :: 0 <= j < k < |p| ==> p[j] < p[k])
  }

  /** Positions of the tokens that pass the filter, in increasing order. */
  function KeptPositions(tokens: seq<string>): seq<nat>
  {
    if tokens == [] then []
    else
      KeptPositions(tokens[..|tokens| - 1])
      + (if HasLowerAscii(tokens[|tokens| - 1]) then [|tokens| - 1] else [])
  }

  /** The output is the order-preserving subsequence of the tokens taken at
      exactly the positions whose token has a letter 'a'..'z'. */
  lemma {:induction false} KeptIsOrderedSubsequence(tokens: seq<string>)
    ensures SelectedAt(Kept(tokens), tokens, KeptPositions(tokens))
    ensures forall i :: 0 <= i < |tokens| ==> (i in KeptPositions(tokens) <==> HasLowerAscii(tokens[i]))
  {
    if tokens != [] {
      var init := tokens[..|tokens| - 1];
      KeptIsOrderedSubsequence(init);
      assert forall j :: 0 <= j < |init| ==> init[j] == tokens[j];
      assert forall j :: 0 <= j < |KeptPositions(init)| ==> KeptPositions(init)[j] < |init|;
    }
  }

  /** The output is no longer than the token list; in particular no tokens
      give no words. */
  lemma {:induction false} KeptLength(tokens: seq<string>)
    ensures |Kept(tokens)| <= |tokens|
  {
    if tokens != [] {
      KeptLength(tokens[..|tokens| - 1]);
    }
  }

  /** Every output word has a letter 'a'..'z', so filtering the output again
      changes nothing. */
  lemma {:induction false} KeptIdempotent(tokens: seq<string>)
    ensures Kept(Kept(tokens)) == Kept(tokens)
  {
    if tokens != [] {
      var init, last := tokens[..|tokens| - 1], tokens[|tokens| - 1];
      KeptIdempotent(init);
      if HasLowerAscii(last) {
        KeptConcat(Kept(init), [last]);
        assert [last][..0] == [];
        assert Kept([last]) == [last];
        assert Kept(tokens) == Kept(init) + [last];
      } else {
        assert Kept(tokens) == Kept(init);
      }
    }
  }

  /** A list of tokens that all have a letter 'a'..'z' is kept unchanged. */
  lemma {:induction false} KeptAllPass(tokens: seq<string>)
    requires forall i :: 0 <= i < |tokens| ==> HasLowerAscii(tokens[i])
    ensures Kept(tokens) == tokens
  {
    if tokens != [] {
      KeptAllPass(tokens[..|tokens| - 1]);
    }
  }

  predicate IsAsciiLetter(c: char)
  {
    'a' <= c <= 'z' || 'A' <= c <= 'Z'
  }

  /** ASCII case of the sentence's `lower()`. */
  function LowerAscii(c: char): char
  {
    if 'A' <= c <= 'Z' then (c as int + 32) as char else c
  }

  function LowerAsciiString(s: string): string
  {
    seq(|s|, i requires 0 <= i < |s| => LowerAscii(s[i]))
  }

  /** After lowercasing, a token passes the filter exactly when it had an ASCII
      letter of either case. */
  lemma LoweredTokenPasses(w: string)
    ensures HasLowerAscii(LowerAsciiString(w)) <==> exists i :: 0 <= i < |w| && IsAsciiLetter(w[i])
  {
    var lw := LowerAsciiString(w);
    if HasLowerAscii(lw) {
      var i :| 0 <= i < |lw| && IsLowerAscii(lw[i]);
      assert IsAsciiLetter(w[i]);
    }
    if exists i :: 0 <= i < |w| && IsAsciiLetter(w[i]) {
      var i :| 0 <= i < |w| && IsAsciiLetter(w[i]);
      assert IsLowerAscii(lw[i]);
    }
  }
}
