/** `sentence.split(/\W+/)` and the offsets both demo proofreaders attach to its pieces. */
module WordSplit {
  import opened Ascii
  import opened Proofreading
  import Seqs

  predicate AllWord(s: string) {
    forall i :: 0 <= i < |s| ==> IsWordChar(s[i])
  }

  predicate AllNonWord(s: string) {
    forall i :: 0 <= i < |s| ==> !IsWordChar(s[i])
  }

  /** The first index at or after `i` holding a non-word character, or `|s|`. */
  function NextNonWord(s: string, i: nat): (j: nat)
    requires i <= |s|
    ensures i <= j <= |s|
    ensures forall k :: i <= k < j ==> IsWordChar(s[k])
    ensures j < |s| ==> !IsWordChar(s[j])
    decreases |s| - i
  {
    if i == |s| || !IsWordChar(s[i]) then i else NextNonWord(s, i + 1)
  }

  /** The first index at or after `i` holding a word character, or `|s|`. */
  function NextWord(s: string, i: nat): (j: nat)
    requires i <= |s|
    ensures i <= j <= |s|
    ensures forall k :: i <= k < j ==> !IsWordChar(s[k])
    ensures j < |s| ==> IsWordChar(s[j])
    decreases |s| - i
  {
    if i == |s| || IsWordChar(s[i]) then i else NextWord(s, i + 1)
  }

  /** The pieces of a split and the separator runs removed between them. */
  datatype Splitting = Splitting(words: seq<string>, seps: seq<string>)

  /** Puts the pieces back together with their separators. */
  function Join(words: seq<string>, seps: seq<string>): string
    requires |words| == |seps| + 1
  {
    if |seps| == 0 then words[0]
    else words[0] + seps[0] + Join(words[1..], seps[1..])
  }

  /** Splits `s` at every maximal run of non-word characters, keeping empty pieces at
      either end exactly as `String.prototype.split` with `/\W+/` does. */
  function SplitRuns(s: string): (r: Splitting)
    ensures |r.words| == |r.seps| + 1
    ensures Join(r.words, r.seps) == s
    ensures forall k :: 0 <= k < |r.words| ==> AllWord(r.words[k])
    ensures forall k :: 0 <= k < |r.seps| ==> |r.seps[k]| > 0 && AllNonWord(r.seps[k])
    ensures forall k :: 0 < k < |r.words| - 1 ==> |r.words[k]| > 0
    ensures |s| > 0 && IsWordChar(s[0]) ==> |r.words[0]| > 0
    decreases |s|
  {
    var i := NextNonWord(s, 0);
    if i == |s| then
      Splitting([s], [])
    else
      var j := NextWord(s, i);
      var rest := SplitRuns(s[j..]);
      var r := Splitting([s[..i]] + rest.words, [s[i..j]] + rest.seps);
      assert r.words[1..] == rest.words && r.seps[1..] == rest.seps;
      assert s == s[..i] + s[i..j] + s[j..];
      r
  }

  /** The pieces of `s.split(/\W+/)`. */
  function Split(s: string): seq<string> {
    SplitRuns(s).words
  }

  /** The offset the demo proofreaders give piece `i`: the running sum of
      `length + 1` over the earlier pieces, i.e. every separator counted as one character. */
  function RunningOffset(words: seq<string>, i: nat): nat
    requires i <= |words|
  {
    if i == 0 then 0 else RunningOffset(words, i - 1) + |words[i - 1]| + 1
  }

  /** The true start index of piece `i` in `Join(words, seps)`. */
  function StartIndex(words: seq<string>, seps: seq<string>, i: nat): nat
    requires |words| == |seps| + 1 && i < |words|
  {
    if i == 0 then 0 else StartIndex(words, seps, i - 1) + |words[i - 1]| + |seps[i - 1]|
  }

  /** One token per piece of the split, at its running offset (`tokenizeString`). */
  function Tokens(s: string): seq<Match> {
    var w := Split(s);
    seq(|w|, i requires 0 <= i < |w| => Match(RunningOffset(w, i), |w[i]|, w[i]))
  }

  /** Token `i` is piece `i` at its running offset. */
  lemma TokenAt(s: string, i: nat)
    requires i < |Split(s)|
    ensures |Tokens(s)| == |Split(s)|
    ensures Tokens(s)[i] == Match(RunningOffset(Split(s), i), |Split(s)[i]|, Split(s)[i])
  {
  }

  /** Running offsets grow by at least one per piece. */
  lemma {:induction false} RunningOffsetGrows(words: seq<string>, i: nat, j: nat)
    requires i < j <= |words|
    ensures RunningOffset(words, j) >= RunningOffset(words, i) + |words[i]| + 1
    decreases j - i
  {
    if j > i + 1 {
      RunningOffsetGrows(words, i, j - 1);
    }
  }

  /** There is one token per piece, including empty pieces; each token carries its
      piece and that piece's length, and token offsets strictly increase. */
  lemma TokensShape(s: string)
    ensures |Tokens(s)| == |Split(s)| >= 1
    ensures forall i :: 0 <= i < |Tokens(s)| ==>
      Tokens(s)[i].word == Split(s)[i] && Tokens(s)[i].length == |Split(s)[i]|
      && Tokens(s)[i].offset == RunningOffset(Split(s), i)
    ensures Seqs.StrictlyIncreasing(Tokens(s), OffsetOf)
  {
    var t := Tokens(s);
    forall i, j | 0 <= i < j < |t|
      ensures t[i].offset < t[j].offset
    {
      RunningOffsetGrows(Split(s), i, j);
    }
  }

  /** Piece boundaries measured from the second piece on are those of the whole, shifted
      by the first piece and its separator. */
  lemma {:induction false} StartIndexShift(words: seq<string>, seps: seq<string>, i: nat)
    requires |words| == |seps| + 1 && 1 <= i < |words|
    ensures StartIndex(words, seps, i)
         == |words[0]| + |seps[0]| + StartIndex(words[1..], seps[1..], i - 1)
  {
    if i > 1 {
      StartIndexShift(words, seps, i - 1);
    }
  }

  /** Piece `i` sits at `StartIndex(words, seps, i)` in the joined string. */
  lemma {:induction false} JoinSlice(words: seq<string>, seps: seq<string>, i: nat)
    requires |words| == |seps| + 1 && i < |words|
    ensures StartIndex(words, seps, i) + |words[i]| <= |Join(words, seps)|
    ensures Join(words, seps)[StartIndex(words, seps, i)..StartIndex(words, seps, i) + |words[i]|]
         == words[i]
  {
    var j := Join(words, seps);
    if |seps| == 0 {
    } else if i == 0 {
      assert j == words[0] + (seps[0] + Join(words[1..], seps[1..]));
    } else {
      StartIndexShift(words, seps, i);
      JoinSlice(words[1..], seps[1..], i - 1);
      var head := words[0] + seps[0];
      assert j == head + Join(words[1..], seps[1..]);
      var a := StartIndex(words[1..], seps[1..], i - 1);
      assert StartIndex(words, seps, i) == |head| + a;
      assert j[|head| + a..|head| + a + |words[i]|] == Join(words[1..], seps[1..])[a..a + |words[i]|];
    }
  }

  /** Token `t` marks exactly its own word inside `s`. */
  predicate Marks(s: string, t: Match) {
    0 <= t.offset <= t.offset + t.length <= |s| && s[t.offset..t.offset + t.length] == t.word
  }

  /** When every separator run is a single character, each token's offset is the true
      start of its piece, so the token's span of `s` is exactly its word and ends inside `s`. */
  lemma SingleSeparatorAligned(s: string)
    requires forall k :: 0 <= k < |SplitRuns(s).seps| ==> |SplitRuns(s).seps[k]| == 1
    ensures forall i :: 0 <= i < |Tokens(s)| ==>
      Tokens(s)[i].offset == StartIndex(Split(s), SplitRuns(s).seps, i) && Marks(s, Tokens(s)[i])
  {
    var r := SplitRuns(s);
    var t := Tokens(s);
    forall i | 0 <= i < |t|
      ensures t[i].offset == StartIndex(r.words, r.seps, i) && Marks(s, t[i])
    {
      TokenAt(s, i);
      RunningIsStart(r.words, r.seps, i);
      JoinSlice(r.words, r.seps, i);
    }
  }

  lemma {:induction false} RunningIsStart(words: seq<string>, seps: seq<string>, i: nat)
    requires |words| == |seps| + 1 && i < |words|
    requires forall k :: 0 <= k < |seps| ==> |seps[k]| == 1
    ensures RunningOffset(words, i) == StartIndex(words, seps, i) >= 0
  {
    if i > 0 {
      RunningIsStart(words, seps, i - 1);
    }
  }

  /** Tokens placed at the true start of each piece: the offsets the demo proofreaders
      evidently intend. */
  function AlignedTokens(s: string): seq<Match> {
    var r := SplitRuns(s);
    seq(|r.words|, i requires 0 <= i < |r.words| => Match(StartIndex(r.words, r.seps, i), |r.words[i]|, r.words[i]))
  }

  /** Every aligned token marks its own word in `s`, whatever the separators, and the
      aligned tokens agree with `Tokens` on words and lengths. */
  lemma AlignedTokensMark(s: string)
    ensures |AlignedTokens(s)| == |Tokens(s)|
    ensures forall i :: 0 <= i < |AlignedTokens(s)| ==>
      Marks(s, AlignedTokens(s)[i])
      && AlignedTokens(s)[i].word == Tokens(s)[i].word
      && AlignedTokens(s)[i].length == Tokens(s)[i].length
  {
    var r := SplitRuns(s);
    forall i | 0 <= i < |AlignedTokens(s)|
      ensures Marks(s, AlignedTokens(s)[i])
    {
      JoinSlice(r.words, r.seps, i);
    }
  }

  /** Two token lists with the same words and lengths, position by position. */
  predicate SameWords(a: seq<Match>, b: seq<Match>) {
    |a| == |b| && forall i :: 0 <= i < |a| ==> a[i].word == b[i].word && a[i].length == b[i].length
  }

  /** A filter that looks only at a token's word keeps the same words from both lists. */
  lemma {:induction false} FilterSameWords(a: seq<Match>, b: seq<Match>, p: Match -> bool)
    requires SameWords(a, b)
    requires forall t: Match, u: Match :: t.word == u.word ==> p(t) == p(u)
    ensures SameWords(Seqs.Filter(a, p), Seqs.Filter(b, p))
  {
    if |a| > 0 {
      var a', b' := a[..|a| - 1], b[..|b| - 1];
      FilterSameWords(a', b', p);
      assert p(a[|a| - 1]) == p(b[|b| - 1]);
    }
  }

  /** A two-character separator, as the text flattener emits between two paragraphs,
      puts the running offset of every later piece one character early: in `"ab  cd"`
      the token for `cd` claims offset 3, where `s` holds `" c"`. */
  lemma RunningOffsetDrift()
    ensures var s := "ab  cd";
      && Tokens(s)[1] == Match(3, 2, "cd")
      && !Marks(s, Tokens(s)[1])
      && AlignedTokens(s)[1] == Match(4, 2, "cd")
  {
    var s := "ab  cd";
    assert NextNonWord(s, 0) == 2 by {
      assert IsWordChar(s[0]) && IsWordChar(s[1]) && !IsWordChar(s[2]);
      assert NextNonWord(s, 2) == 2;
      assert NextNonWord(s, 1) == 2;
    }
    assert NextWord(s, 2) == 4 by {
      assert IsWordChar(s[4]);
      assert NextWord(s, 4) == 4;
      assert NextWord(s, 3) == 4;
    }
    var t := s[4..];
    assert t == "cd";
    assert NextNonWord(t, 0) == 2 by {
      assert NextNonWord(t, 2) == 2;
      assert NextNonWord(t, 1) == 2;
    }
    assert SplitRuns(t) == Splitting(["cd"], []);
    assert s[..2] == "ab" && s[2..4] == "  ";
    assert SplitRuns(s) == Splitting(["ab", "cd"], ["  "]);
    assert s[3..5] == " c";
  }

  lemma {:induction false} NextNonWordLower(s: string, i: nat)
    requires i <= |s|
    ensures NextNonWord(ToLower(s), i) == NextNonWord(s, i)
    decreases |s| - i
  {
    if i < |s| && IsWordChar(s[i]) {
      NextNonWordLower(s, i + 1);
    }
  }

  lemma {:induction false} NextWordLower(s: string, i: nat)
    requires i <= |s|
    ensures NextWord(ToLower(s), i) == NextWord(s, i)
    decreases |s| - i
  {
    if i < |s| && !IsWordChar(s[i]) {
      NextWordLower(s, i + 1);
    }
  }

  /** Lower-casing before splitting yields the lower-cased pieces and separators: the
      split happens at the same places. */
  lemma {:induction false} SplitRunsLower(s: string)
    ensures |SplitRuns(ToLower(s)).words| == |SplitRuns(s).words|
    ensures forall k :: 0 <= k < |SplitRuns(s).words| ==>
      SplitRuns(ToLower(s)).words[k] == ToLower(SplitRuns(s).words[k])
    ensures forall k :: 0 <= k < |SplitRuns(s).seps| ==>
      SplitRuns(ToLower(s)).seps[k] == ToLower(SplitRuns(s).seps[k])
    decreases |s|
  {
    var ls := ToLower(s);
    NextNonWordLower(s, 0);
    var i := NextNonWord(s, 0);
    if i < |s| {
      NextWordLower(s, i);
      var j := NextWord(s, i);
      ToLowerSlice(s, j, |s|);
      assert ls[j..] == ToLower(s[j..]);
      SplitRunsLower(s[j..]);
      ToLowerSlice(s, 0, i);
      ToLowerSlice(s, i, j);
      assert ls[..i] == ToLower(s[..i]);
      var rest, lrest := SplitRuns(s[j..]), SplitRuns(ls[j..]);
      SplitRunsCons(s);
      SplitRunsCons(ls);
      ConsLower(lrest.words, rest.words, ls[..i], s[..i]);
      ConsLower(lrest.seps, rest.seps, ls[i..j], s[i..j]);
    }
  }

  /** A string with a non-word character splits into its leading piece, the separator
      run after it, and the split of what follows that run. */
  lemma SplitRunsCons(s: string)
    requires NextNonWord(s, 0) < |s|
    ensures var i := NextNonWord(s, 0);
      var j := NextWord(s, i);
      && SplitRuns(s).words == [s[..i]] + SplitRuns(s[j..]).words
      && SplitRuns(s).seps == [s[i..j]] + SplitRuns(s[j..]).seps
  {
  }

  /** Prepending a piece and its lower-cased form keeps two lists related by `ToLower`. */
  lemma ConsLower(la: seq<string>, a: seq<string>, lx: string, x: string)
    requires |la| == |a| && lx == ToLower(x)
    requires forall k :: 0 <= k < |a| ==> la[k] == ToLower(a[k])
    ensures forall k :: 0 <= k < |a| + 1 ==> ([lx] + la)[k] == ToLower(([x] + a)[k])
  {
  }

  lemma {:induction false} RunningOffsetSameLengths(a: seq<string>, b: seq<string>, i: nat)
    requires |a| == |b| && i <= |a|
    requires forall k :: 0 <= k < |a| ==> |a[k]| == |b[k]|
    ensures RunningOffset(a, i) == RunningOffset(b, i)
  {
    if i > 0 {
      RunningOffsetSameLengths(a, b, i - 1);
    }
  }

  /** Normalising with `toLowerCase` before tokenizing changes only the words, never the
      offsets or lengths, so positions found in the normalised text are positions in the
      original text. */
  lemma NormalizeKeepsTokens(s: string)
    ensures |Tokens(ToLower(s))| == |Tokens(s)|
    ensures forall i :: 0 <= i < |Tokens(s)| ==>
      && Tokens(ToLower(s))[i].offset == Tokens(s)[i].offset
      && Tokens(ToLower(s))[i].length == Tokens(s)[i].length
      && Tokens(ToLower(s))[i].word == ToLower(Tokens(s)[i].word)
  {
    SplitRunsLower(s);
    var w := Split(s);
    var lw := Split(ToLower(s));
    forall i | 0 <= i < |w|
      ensures RunningOffset(lw, i) == RunningOffset(w, i)
    {
      RunningOffsetSameLengths(lw, w, i);
    }
  }

  /** `normalizeTextForLanguage` of both demo proofreaders: lower-casing, which keeps the
      length and moves no split point, so every token of the normalised text has the
      offset and length of the corresponding token of the original. */
  function Normalize(text: string): (r: string)
    ensures |r| == |text|
    ensures forall i :: 0 <= i < |text| ==> r[i] == LowerChar(text[i])
    ensures |Tokens(r)| == |Tokens(text)|
    ensures forall i :: 0 <= i < |Tokens(text)| ==>
      Tokens(r)[i].offset == Tokens(text)[i].offset && Tokens(r)[i].length == Tokens(text)[i].length
  {
    NormalizeKeepsTokens(text);
    ToLower(text)
  }
}
