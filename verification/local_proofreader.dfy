/** The word-list proofreader of the local demo. */
module LocalProofreader {
  import opened Ascii
  import opened Proofreading
  import opened WordSplit
  import opened Seqs

  /** The parsed dictionary: each word mapped to a number, truthy when non-zero. */
  type WordList = map<string, int>

  /** Property names every plain JavaScript object inherits from `Object.prototype`. */
  const InheritedKeys: set<string> := {
    "constructor", "__proto__", "hasOwnProperty", "isPrototypeOf", "propertyIsEnumerable",
    "toLocaleString", "toString", "valueOf",
    "__defineGetter__", "__defineSetter__", "__lookupGetter__", "__lookupSetter__"
  }

  /** `!!this.wordList[w]` as written: an own key is truthy when its number is non-zero,
      and a missing key falls through to the inherited properties, which are functions
      or objects and therefore truthy. */
  predicate KnownAsWritten(list: WordList, w: string) {
    if w in list then list[w] != 0 else w in InheritedKeys
  }

  /** The lookup the dictionary evidently means: an own key with a non-zero number. */
  predicate Known(list: WordList, w: string) {
    w in list && list[w] != 0
  }

  /** The two lookups differ exactly on inherited names the list does not define itself. */
  lemma KnownDiffers(list: WordList, w: string)
    ensures KnownAsWritten(list, w) != Known(list, w) <==> w !in list && w in InheritedKeys
  {
  }

  /** A token is reported when its trimmed lower-case form is non-empty and not known. */
  predicate Flagged(t: Match, isKnown: string -> bool) {
    var lowerWord := Trim(ToLower(t.word));
    !isKnown(lowerWord) && lowerWord != ""
  }

  function FlaggedBy(isKnown: string -> bool): Match -> bool {
    t => Flagged(t, isKnown)
  }

  /** `proofreadText`: one pass over the pieces of `sentence.split(/\W+/)`, reporting each
      piece the word list does not know at the running offset. */
  method ProofreadText(sentence: string, isKnown: string -> bool) returns (r: seq<Match>)
    ensures r == Filter(Tokens(sentence), FlaggedBy(isKnown))
    ensures forall t :: t in r <==> t in Tokens(sentence) && Flagged(t, isKnown)
    ensures forall i :: 0 <= i < |r| ==> r[i].length >= 1 && r[i].length == |r[i].word|
    ensures StrictlyIncreasing(r, OffsetOf)
  {
    var words := Split(sentence);
    ghost var tokens := Tokens(sentence);
    r := [];
    var currentOffset := 0;
    var i := 0;
    while i < |words|
      invariant 0 <= i <= |words|
      invariant currentOffset == RunningOffset(words, i)
      invariant r == Filter(tokens[..i], FlaggedBy(isKnown))
    {
      var word := words[i];
      var lowerWord := Trim(ToLower(word));
      var length := |word|;
      ReportStep(sentence, isKnown, i);
      if !isKnown(lowerWord) && lowerWord != "" {
        r := r + [Match(currentOffset, length, word)];
      }
      currentOffset := currentOffset + length + 1;
      i := i + 1;
    }
    assert tokens[..|words|] == tokens;
    ReportedFacts(sentence, isKnown);
  }

  /** One round of the loop of `proofreadText`: piece `i` is reported at its running
      offset exactly when its trimmed lower-case form is non-empty and not known. */
  lemma ReportStep(sentence: string, isKnown: string -> bool, i: nat)
    requires i < |Split(sentence)|
    ensures var w := Split(sentence)[i];
      var lowerWord := Trim(ToLower(w));
      Filter(Tokens(sentence)[..i + 1], FlaggedBy(isKnown))
      == Filter(Tokens(sentence)[..i], FlaggedBy(isKnown))
        + (if !isKnown(lowerWord) && lowerWord != "" then [Match(RunningOffset(Split(sentence), i), |w|, w)] else [])
  {
    TokenAt(sentence, i);
    FilterPrefix(Tokens(sentence), FlaggedBy(isKnown), i);
  }

  lemma ReportedFacts(sentence: string, isKnown: string -> bool)
    ensures var r := Filter(Tokens(sentence), FlaggedBy(isKnown));
      && (forall t :: t in r <==> t in Tokens(sentence) && Flagged(t, isKnown))
      && (forall i :: 0 <= i < |r| ==> r[i].length >= 1 && r[i].length == |r[i].word|)
      && StrictlyIncreasing(r, OffsetOf)
  {
    var tokens := Tokens(sentence);
    var r := Filter(tokens, FlaggedBy(isKnown));
    FilterSound(tokens, FlaggedBy(isKnown));
    forall t | t in tokens && Flagged(t, isKnown)
      ensures t in r
    {
      FilterKeeps(tokens, FlaggedBy(isKnown), t);
    }
    forall k | 0 <= k < |r|
      ensures r[k].length >= 1 && r[k].length == |r[k].word|
    {
      assert r[k] in tokens;
      assert |Trim(ToLower(r[k].word))| <= |r[k].word|;
    }
    TokensShape(sentence);
    FilterIncreasing(tokens, FlaggedBy(isKnown), OffsetOf);
  }

  /** The report with every piece at its true start: the corrected tokenizer under the
      same filter. */
  function ProofreadAligned(sentence: string, isKnown: string -> bool): seq<Match> {
    Filter(AlignedTokens(sentence), FlaggedBy(isKnown))
  }

  /** The corrected report flags the same words as `proofreadText`, in the same order, and
      each of its matches marks its own word inside the checked text. */
  lemma ProofreadAlignedMarks(sentence: string, isKnown: string -> bool)
    ensures SameWords(ProofreadAligned(sentence, isKnown), Filter(Tokens(sentence), FlaggedBy(isKnown)))
    ensures forall t :: t in ProofreadAligned(sentence, isKnown) ==> Marks(sentence, t) && Flagged(t, isKnown)
  {
    var aligned := AlignedTokens(sentence);
    AlignedTokensMark(sentence);
    FilterSameWords(aligned, Tokens(sentence), FlaggedBy(isKnown));
    FilterSound(aligned, FlaggedBy(isKnown));
  }

  /** The letters `getSuggestions` tries, `'abcdefghijklmnopqrstuvwxyz'`. */
  const Alphabet: string := seq(26, k requires 0 <= k < 26 => ('a' as int + k) as char)

  lemma AlphabetIsLiteral()
    ensures Alphabet == "abcdefghijklmnopqrstuvwxyz"
  {
  }

  /** `word.slice(0, i) + c + word.slice(i + 1)`. */
  function Substitute(word: string, i: nat, c: char): (r: string)
    requires i < |word|
    ensures |r| == |word| && r[i] == c
    ensures forall k :: 0 <= k < |word| && k != i ==> r[k] == word[k]
  {
    word[..i] + [c] + word[i + 1..]
  }

  /** The substitutions at position `i`, one per letter in alphabetical order. */
  function Row(word: string, i: nat): (r: seq<string>)
    requires i < |word|
    ensures |r| == 26
  {
    seq(26, j requires 0 <= j < 26 => Substitute(word, i, Alphabet[j]))
  }

  /** The substitutions at the first `n` positions, by position and then by letter. */
  function CandidatesUpTo(word: string, n: nat): seq<string>
    requires n <= |word|
  {
    if n == 0 then [] else CandidatesUpTo(word, n - 1) + Row(word, n - 1)
  }

  /** Every single-letter substitution of `word`, by position and then by letter. */
  function Candidates(word: string): seq<string> {
    CandidatesUpTo(word, |word|)
  }

  /** `a` is `b` with at most one position replaced by a lower-case letter. */
  predicate OneLetterApart(a: string, b: string) {
    && |a| == |b|
    && (forall i :: 0 <= i < |a| && a[i] != b[i] ==> IsLower(a[i]))
    && (forall i, j :: 0 <= i < j < |a| && a[i] != b[i] ==> a[j] == b[j])
  }

  /** `getSuggestions`: every single-letter substitution of `word` that the word list
      knows, in the order of the two nested loops. */
  method GetSuggestions(word: string, isKnown: string -> bool) returns (r: seq<string>)
    ensures r == Filter(Candidates(word), isKnown)
  {
    r := [];
    var i := 0;
    while i < |word|
      invariant 0 <= i <= |word|
      invariant r == Filter(CandidatesUpTo(word, i), isKnown)
    {
      var known := KnownInRow(word, i, isKnown);
      FilterConcat(CandidatesUpTo(word, i), Row(word, i), isKnown);
      r := r + known;
      i := i + 1;
    }
  }

  /** The inner loop of `getSuggestions`: the substitutions at position `i` that the word
      list knows, in alphabetical order. */
  method KnownInRow(word: string, i: nat, isKnown: string -> bool) returns (r: seq<string>)
    requires i < |word|
    ensures r == Filter(Row(word, i), isKnown)
  {
    ghost var row := Row(word, i);
    r := [];
    var j := 0;
    while j < 26
      invariant 0 <= j <= 26
      invariant r == Filter(row[..j], isKnown)
    {
      var newWord := word[..i] + [Alphabet[j]] + word[i + 1..];
      assert row[j] == newWord;
      FilterPrefix(row, isKnown, j);
      if isKnown(newWord) {
        r := r + [newWord];
      }
      j := j + 1;
    }
    assert row[..26] == row;
  }

  /** Each candidate up to position `n` is a substitution at some earlier position. */
  lemma {:induction false} CandidatesUpToShape(word: string, n: nat, s: string)
    requires n <= |word| && s in CandidatesUpTo(word, n)
    ensures exists i, j :: 0 <= i < n && 0 <= j < 26 && s == Substitute(word, i, Alphabet[j])
  {
    var prev := CandidatesUpTo(word, n - 1);
    if s !in prev {
      var j :| 0 <= j < 26 && Row(word, n - 1)[j] == s;
    } else {
      CandidatesUpToShape(word, n - 1, s);
    }
  }

  /** Each substitution at an earlier position is a candidate. */
  lemma {:induction false} CandidatesUpToComplete(word: string, n: nat, i: nat, j: nat)
    requires n <= |word| && i < n && j < 26
    ensures Substitute(word, i, Alphabet[j]) in CandidatesUpTo(word, n)
  {
    if i == n - 1 {
      assert Row(word, i)[j] == Substitute(word, i, Alphabet[j]);
    } else {
      CandidatesUpToComplete(word, n - 1, i, j);
    }
  }

  /** Every suggestion is known and one letter apart from `word`; every known
      single-letter substitution is suggested; an empty word gets no suggestions. */
  lemma SuggestionFacts(word: string, isKnown: string -> bool)
    ensures var r := Filter(Candidates(word), isKnown);
      && (forall s :: s in r ==> isKnown(s) && OneLetterApart(s, word))
      && (forall i, c :: 0 <= i < |word| && IsLower(c) && isKnown(Substitute(word, i, c)) ==>
            Substitute(word, i, c) in r)
      && (word == "" ==> r == [])
  {
    var cands := Candidates(word);
    var r := Filter(cands, isKnown);
    FilterSound(cands, isKnown);
    forall s | s in r
      ensures OneLetterApart(s, word)
    {
      CandidatesUpToShape(word, |word|, s);
    }
    forall i, c | 0 <= i < |word| && IsLower(c) && isKnown(Substitute(word, i, c))
      ensures Substitute(word, i, c) in r
    {
      var j := c as int - 'a' as int;
      assert Alphabet[j] == c;
      CandidatesUpToComplete(word, |word|, i, j);
      FilterKeeps(cands, isKnown, Substitute(word, i, c));
    }
  }

  /** With an empty word list the name `constructor` is reported by the corrected
      lookup but silently accepted by the lookup as written. */
  lemma InheritedKeyAccepted()
    ensures var t := Match(0, 11, "constructor");
      && t in Tokens("constructor")
      && Flagged(t, w => Known(map[], w))
      && !Flagged(t, w => KnownAsWritten(map[], w))
  {
    var s := "constructor";
    assert NextNonWord(s, 0) == 11 by {
      assert forall k :: 0 <= k < 11 ==> IsWordChar(s[k]);
      NextNonWordAllWord(s, 0);
    }
    assert Tokens(s)[0] == Match(0, 11, "constructor");
    assert forall k :: 0 <= k < |s| ==> !IsUpper(s[k]);
    assert ToLower(s) == s;
    TrimWordRun(s);
  }

  lemma {:induction false} NextNonWordAllWord(s: string, i: nat)
    requires i <= |s|
    requires forall k :: i <= k < |s| ==> IsWordChar(s[k])
    ensures NextNonWord(s, i) == |s|
    decreases |s| - i
  {
    if i < |s| {
      NextNonWordAllWord(s, i + 1);
    }
  }
}
