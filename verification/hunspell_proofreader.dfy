/** The Hunspell-backed proofreader of the second demo; the Hunspell engine itself is
    foreign code and appears only as the `spell` predicate. */
module HunspellProofreader {
  import opened Proofreading
  import opened WordSplit
  import opened Seqs

  /** `tokenizeString`: one token per piece of `sentence.split(/\W+/)`, empty pieces
      included, at the running sum of `length + 1` over the earlier pieces. */
  method TokenizeString(sentence: string) returns (tokens: seq<Match>)
    ensures tokens == Tokens(sentence)
    ensures |tokens| == |Split(sentence)|
    ensures forall i :: 0 <= i < |tokens| ==>
      tokens[i].word == Split(sentence)[i] && tokens[i].length == |Split(sentence)[i]|
    ensures StrictlyIncreasing(tokens, OffsetOf)
  {
    var words := Split(sentence);
    tokens := [];
    var currentOffset := 0;
    var i := 0;
    while i < |words|
      invariant 0 <= i <= |words|
      invariant currentOffset == RunningOffset(words, i)
      invariant tokens == Tokens(sentence)[..i]
    {
      var word := words[i];
      var length := |word|;
      tokens := tokens + [Match(currentOffset, length, word)];
      currentOffset := currentOffset + length + 1;
      i := i + 1;
    }
    TokensShape(sentence);
  }

  function RejectedBy(spell: string -> bool): Match -> bool {
    (t: Match) => !spell(t.word)
  }

  /** `proofreadText`: the tokens `spell` rejects, in token order. */
  method ProofreadText(sentence: string, spell: string -> bool) returns (errors: seq<Match>)
    ensures errors == Filter(Tokens(sentence), RejectedBy(spell))
    ensures forall t :: t in errors <==> t in Tokens(sentence) && !spell(t.word)
    ensures StrictlyIncreasing(errors, OffsetOf)
  {
    var tokens := TokenizeString(sentence);
    errors := [];
    var i := 0;
    while i < |tokens|
      invariant 0 <= i <= |tokens|
      invariant errors == Filter(tokens[..i], RejectedBy(spell))
    {
      assert RejectedBy(spell)(tokens[i]) == !spell(tokens[i].word);
      FilterPrefix(tokens, RejectedBy(spell), i);
      if !spell(tokens[i].word) {
        errors := errors + [tokens[i]];
      }
      i := i + 1;
    }
    assert tokens[..|tokens|] == tokens;
    RejectedFacts(sentence, spell);
  }

  lemma RejectedFacts(sentence: string, spell: string -> bool)
    ensures var errors := Filter(Tokens(sentence), RejectedBy(spell));
      && (forall t :: t in errors <==> t in Tokens(sentence) && !spell(t.word))
      && StrictlyIncreasing(errors, OffsetOf)
  {
    var tokens := Tokens(sentence);
    FilterSound(tokens, RejectedBy(spell));
    forall t | t in tokens && !spell(t.word)
      ensures t in Filter(tokens, RejectedBy(spell))
    {
      FilterKeeps(tokens, RejectedBy(spell), t);
    }
    TokensShape(sentence);
    FilterIncreasing(tokens, RejectedBy(spell), OffsetOf);
  }

  /** The report with every token at its true start: the corrected tokenizer under the
      same `spell` filter. */
  function ProofreadAligned(sentence: string, spell: string -> bool): seq<Match> {
    Filter(AlignedTokens(sentence), RejectedBy(spell))
  }

  /** The corrected report rejects the same words as `proofreadText`, in the same order,
      and each of its matches marks its own word inside the checked text. */
  lemma ProofreadAlignedMarks(sentence: string, spell: string -> bool)
    ensures SameWords(ProofreadAligned(sentence, spell), Filter(Tokens(sentence), RejectedBy(spell)))
    ensures forall t :: t in ProofreadAligned(sentence, spell) ==> Marks(sentence, t) && !spell(t.word)
  {
    var aligned := AlignedTokens(sentence);
    AlignedTokensMark(sentence);
    FilterSameWords(aligned, Tokens(sentence), RejectedBy(spell));
    FilterSound(aligned, RejectedBy(spell));
  }
}
