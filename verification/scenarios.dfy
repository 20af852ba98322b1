/** Concrete runs of the model on a two-paragraph document. */
module Scenarios {
  import opened Wrappers
  import opened Proofreading
  import opened Document
  import opened TextExtract
  import opened Markers
  import opened Suggestions
  import opened Scheduler
  import Seqs

  /** `<p>Ths</p><p>tst</p>`: paragraphs at 0 and 5, text nodes at 1 and 6. */
  function TwoParagraphs(): Doc {
    Doc([
      Node(false, true, 0, 5, "Ths"), Node(true, false, 1, 3, "Ths"),
      Node(false, true, 5, 5, "tst"), Node(true, false, 6, 3, "tst")])
  }

  /** The paragraph break becomes two blanks: `tst` sits at index 5, i.e. position 6. */
  lemma TwoParagraphsText()
    ensures ExtractText(TwoParagraphs()) == "Ths  tst"
  {
    var nodes := TwoParagraphs().nodes;
    assert nodes[1..][1..] == nodes[2..];
    assert nodes[2..][1..] == nodes[3..];
    assert nodes[3..][1..] == [];
    assert Groups(nodes) == [TextSpan("Ths", 1, 4), TextSpan("tst", 6, 9)];
    var spans := [TextSpan("Ths", 1, 4), TextSpan("tst", 6, 9)];
    assert spans[1..] == [TextSpan("tst", 6, 9)];
    assert Spaces(2) == "  ";
    assert FlattenFrom(spans, 1) == "" + "Ths" + ("  " + "tst" + "");
  }

  /** Reported at its true offset 5, the second word gets the marker `[6, 9)`, which is
      exactly the text node holding it; at the running offset 4 it would get `[5, 8)`. */
  lemma SecondWordMarker()
    ensures var n := TwoParagraphs().nodes[3];
      && MarkerFor(Match(5, 3, "tst"), 1).from == n.pos
      && MarkerFor(Match(5, 3, "tst"), 1).to == n.pos + |n.text|
      && MarkerFor(Match(4, 3, "tst"), 1).from == n.pos - 1
  {
  }

  /** The markers of the answer to the initial check. */
  function Found(): seq<Match> {
    [Match(0, 3, "Ths"), Match(5, 3, "tst")]
  }

  /** The first answer to a check at position 1, with no markers yet: one marker per
      reported match, in order, and that check leaves the set of calls in flight. */
  lemma FirstAnswer(s: State, found: seq<Match>)
    requires s.markers == [] && |s.checks| == 1 && s.checks[0].base == 1 && |found| == 2
    requires found[0].length > 0 && found[1].length > 0
    ensures var s1 := Step(s, CheckDone(0, found));
      && s1.markers == [MarkerFor(found[0], 1), MarkerFor(found[1], 1)]
      && s1.checks == [] && s1.timers == s.timers && s1.asks == s.asks
  {
    var s1 := Step(s, CheckDone(0, found));
    var c := s.checks[0];
    assert s1 == OnCheckDone(s, 0, found);
    assert s1 == Settle(s.(checks := RemoveAt(s.checks, 0)), c, found);
    var ms := MarkersFor(found, 1);
    Seqs.FilterAll(ms, NonEmpty);
    assert Seqs.Filter([], Outside(1, 1 + |c.text|)) == [];
    assert s1.markers == ms;
  }

  /** `init` on the document and the full check answering with both words: one marker
      per word over its text node, no check left in flight, and the timers untouched. */
  lemma InitThenCheck()
    ensures var s1 := Step(Init(TwoParagraphs(), None), CheckDone(0, Found()));
      && s1.markers == [Marker(1, 4, Payload(Match(0, 3, "Ths"), 1, 4)), Marker(6, 9, Payload(Match(5, 3, "tst"), 6, 9))]
      && s1.checks == [] && s1.asks == []
      && Delays(s1.timers) && s1.timers.click.pending.None?
  {
    FirstAnswer(Init(TwoParagraphs(), None), Found());
  }

  /** After that, a click on the second marker followed by the zero-delay debounce asks
      about `tst` over `[6, 9)`. */
  lemma InitCheckClick()
    ensures var s1 := Step(Init(TwoParagraphs(), None), CheckDone(0, Found()));
      Step(Step(s1, ClickMarker(1)), Tick(0)).asks == [Ask("tst", 6, 9)]
  {
    InitThenCheck();
    var s1 := Step(Init(TwoParagraphs(), None), CheckDone(0, Found()));
    assert s1.asks == [];
    ClickAsksAboutMarker(s1, 1);
  }

  /** The suggestions for `tst` arrive while a view is attached and the first entry is
      clicked: the edit replaces `[6, 9)` with the suggestion and the box closes. */
  lemma AcceptFirstSuggestion(s: State)
    requires Delays(s.timers) && s.hasView && s.asks == [Ask("tst", 6, 9)]
    requires s.timers.fullCheck.pending.None? && s.timers.scopeCheck.pending.None?
    requires s.timers.click.pending.None? && s.timers.accept.pending.None?
    ensures var s1 := Step(s, SuggestionsDone(0, ["test", "tat"]));
      var s2 := Step(Step(s1, ClickItem(0)), Tick(0));
      && s1.box.visible && s1.box.items == [Item("test", 6, 9), Item("tat", 6, 9)] && s1.asks == []
      && s2.box == Hidden()
      && s2.edits == s.edits + [InsertText("test", 6, 9)]
  {
    var s1 := Step(s, SuggestionsDone(0, ["test", "tat"]));
    assert s1.box.items == [Item("test", 6, 9), Item("tat", 6, 9)];
    assert s1.timers == s.timers;
    ClickItemAccepts(s1, 0);
  }

  /** The accepted edit `[6, 9)` covers exactly `tst`: applied to the flattened text at
      one position less, it turns `Ths  tst` into `Ths  test`. */
  lemma AcceptedEditText()
    ensures var text := ExtractText(TwoParagraphs());
      && text[6 - 1..9 - 1] == "tst"
      && ReplaceRange(text, 6 - 1, 9 - 1, "test") == "Ths  test"
  {
    TwoParagraphsText();
    var text := ExtractText(TwoParagraphs());
    assert text[..5] == "Ths  ";
    assert text[8..] == "";
  }
}
