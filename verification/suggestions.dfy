/** The suggestion box as data: the list a click fills in, the message shown when the
    list is empty, and what accepting an item does to the document. */
module Suggestions {
  import opened Wrappers

  /** One list entry: the suggested text and the document range it would replace
      (`li.dataset.from` / `li.dataset.to`). */
  datatype Item = Item(text: string, from: int, to: int)

  /** The box element: whether it is displayed, its list entries and its bold message. */
  datatype Box = Box(visible: bool, items: seq<Item>, message: Option<string>)

  /** The extension's user-facing strings (`IUiStrings`). */
  datatype UiStrings = UiStrings(noSuggestions: Option<string>)

  /** The message the box shows when nothing is suggested and no string is configured. */
  const BuiltInNoSuggestions: string := "No suggestions found"

  /** The extension's default options: `noSuggestions` is the empty string. */
  function DefaultUiStrings(): UiStrings {
    UiStrings(Some(""))
  }

  /** `hideSuggestionBox`: the box is emptied and no longer displayed. */
  function Hidden(): (b: Box)
    ensures !b.visible && b.items == [] && b.message.None?
  {
    Box(false, [], None)
  }

  /** The empty-list message: the configured text when it is a non-empty string, the
      built-in text otherwise (no strings, no `noSuggestions`, or an empty one). */
  function NoSuggestionsText(ui: Option<UiStrings>): (t: string)
    ensures t != ""
    ensures t == BuiltInNoSuggestions <==>
      (ui.None? || ui.value.noSuggestions.None? || ui.value.noSuggestions.value in {"", BuiltInNoSuggestions})
    ensures t != BuiltInNoSuggestions ==> ui == Some(UiStrings(Some(t)))
  {
    if ui.Some? && ui.value.noSuggestions.Some? && ui.value.noSuggestions.value != "" then
      ui.value.noSuggestions.value
    else BuiltInNoSuggestions
  }

  /** With the default options the built-in message is shown. */
  lemma DefaultFallsThrough()
    ensures NoSuggestionsText(Some(DefaultUiStrings())) == BuiltInNoSuggestions
  {
  }

  /** `addSuggestionsList`: the box content is replaced by one item per suggestion, in
      order, each carrying the clicked marker's range, and by the empty-list message
      exactly when there are no suggestions. Visibility is left as it was. */
  function ShowList(box: Box, suggestions: seq<string>, from: int, to: int, ui: Option<UiStrings>): (b: Box)
    ensures b.visible == box.visible
    ensures |b.items| == |suggestions|
    ensures forall i :: 0 <= i < |b.items| ==>
      b.items[i].text == suggestions[i] && b.items[i].from == from && b.items[i].to == to
    ensures b.message.Some? <==> suggestions == []
    ensures b.message.Some? ==> b.message.value == NoSuggestionsText(ui)
  {
    var items := seq(|suggestions|, i requires 0 <= i < |suggestions| => Item(suggestions[i], from, to));
    Box(box.visible, items, if |suggestions| == 0 then Some(NoSuggestionsText(ui)) else None)
  }

  /** The suggestions that `ShowList` put in the box, read back from its items. */
  function ItemTexts(items: seq<Item>): (r: seq<string>)
    ensures |r| == |items|
    ensures forall i :: 0 <= i < |r| ==> r[i] == items[i].text
  {
    if |items| == 0 then [] else ItemTexts(items[..|items| - 1]) + [items[|items| - 1].text]
  }

  /** The list round-trips: the item texts are exactly the suggestions, and filling the
      box again with the same suggestions changes nothing. */
  lemma ShowListRoundTrip(box: Box, suggestions: seq<string>, from: int, to: int, ui: Option<UiStrings>)
    ensures ItemTexts(ShowList(box, suggestions, from, to, ui).items) == suggestions
    ensures var b := ShowList(box, suggestions, from, to, ui);
      ShowList(b, suggestions, from, to, ui) == b
  {
  }

  /** The rest of the click handler once suggestions arrive: with an editor view the list
      is filled in and the box displayed; without one nothing changes. */
  function OnSuggestions(box: Box, hasView: bool, suggestions: seq<string>, from: int, to: int, ui: Option<UiStrings>): (b: Box)
    ensures hasView ==>
      b.visible && b.items == ShowList(box, suggestions, from, to, ui).items && b.message == ShowList(box, suggestions, from, to, ui).message
    ensures !hasView ==> b == box
  {
    if hasView then ShowList(box, suggestions, from, to, ui).(visible := true) else box
  }

  /** `tr.insertText(text, from, to)` on the document's characters. */
  datatype Edit = InsertText(text: string, from: int, to: int)

  /** `acceptSuggestionListener`: with an editor view the item's range is replaced by its
      text; with or without one the box ends hidden and empty. */
  function Accept(item: Item, hasView: bool): (r: (Option<Edit>, Box))
    ensures r.1 == Hidden()
    ensures r.0.Some? <==> hasView
    ensures r.0.Some? ==> r.0.value.text == item.text && r.0.value.from == item.from && r.0.value.to == item.to
  {
    (if hasView then Some(InsertText(item.text, item.from, item.to)) else None, Hidden())
  }

  /** An edit applied to a string of characters: the range `[from, to)` becomes `t`. */
  function ReplaceRange(s: string, from: int, to: int, t: string): (r: string)
    requires 0 <= from <= to <= |s|
    ensures |r| == |s| - (to - from) + |t|
    ensures forall i :: 0 <= i < from ==> r[i] == s[i]
    ensures forall k :: 0 <= k < |t| ==> r[from + k] == t[k]
    ensures forall i :: to <= i < |s| ==> r[i - to + from + |t|] == s[i]
  {
    s[..from] + t + s[to..]
  }

  /** Replacing a range by what it already holds changes nothing; replacing the new text
      by the same text again changes nothing either. */
  lemma ReplaceRangeIdentity(s: string, from: int, to: int, t: string)
    requires 0 <= from <= to <= |s|
    ensures ReplaceRange(s, from, to, s[from..to]) == s
    ensures ReplaceRange(ReplaceRange(s, from, to, t), from, from + |t|, t) == ReplaceRange(s, from, to, t)
  {
    var r := ReplaceRange(s, from, to, t);
    assert r[from..from + |t|] == t;
    assert r[..from] == s[..from];
    assert r[from + |t|..] == s[to..];
    assert s[..from] + s[from..to] + s[to..] == s;
  }
}
