/** The plugin and the `Spellchecker` instance behind it as one sequential state machine:
    host transactions, pastes, clicks, the passing of time and the completion of
    asynchronous proofreader calls are events, and `Step` says what each one does. */
module Scheduler {
  import opened Wrappers
  import opened Proofreading
  import opened Document
  import opened TextExtract
  import opened Markers
  import opened Suggestions
  import opened Debounce

  /** The debounce delays of the `Spellchecker` instance, in milliseconds. */
  const FullWait: nat := 500
  const ScopeWait: nat := 300
  const ClickWait: nat := 0
  const AcceptWait: nat := 0

  /** A proofreader call that has been made and not yet answered: the text it was given
      and the document position that text starts at (`originalFrom`). */
  datatype Check = Check(text: string, base: int)

  /** A suggestions call that has been made and not yet answered: the word asked about
      and the document range its list entries will carry. */
  datatype Ask = Ask(word: string, from: int, to: int)

  /** A host transaction as `apply` sees it. */
  datatype Transaction = Transaction(
    selfTagged: bool,        // carries the `SPELLCHECKER_TRANSACTION` meta
    docChanged: bool,
    doc: Doc,                // the document after the transaction
    selFrom: int,            // `transaction.selection`
    selTo: int,
    mapping: Mapping)

  /** The virtual clock and the four debounced wrappers of the instance. */
  datatype Timers = Timers(
    now: int,
    fullCheck: Debouncer<Doc>,            // `debouncedProofreadDoc`
    scopeCheck: Debouncer<Check>,         // `debouncedGetMatchAndSetDecorations`
    click: Debouncer<Marker>,             // `debouncedClickEventsListener`
    accept: Debouncer<Item>)              // `debouncedAcceptSuggestionEventsListener`

  datatype State = State(
    markers: seq<Marker>,                 // the decoration set
    initialDone: bool,                    // `isInitialProofreadingDone`
    lastOriginalFrom: int,
    didPaste: bool,                       // the extension storage flag
    timers: Timers,
    checks: seq<Check>,                   // proofreader calls in flight
    asks: seq<Ask>,                       // suggestions calls in flight
    box: Box,
    hasView: bool,                        // an editor view has been set
    ui: Option<UiStrings>,
    edits: seq<Edit>)                     // edits dispatched to the editor view

  /** Each debounced wrapper keeps the delay it was created with. */
  predicate Delays(t: Timers) {
    && t.fullCheck.wait == FullWait && t.scopeCheck.wait == ScopeWait
    && t.click.wait == ClickWait && t.accept.wait == AcceptWait
  }

  datatype Event =
    | Apply(tr: Transaction)              // the plugin state's `apply`
    | Paste                               // `handlePaste`
    | ClickEditor                         // `handleClick`
    | ViewUpdate                          // the plugin view's `update`
    | CheckSpelling(doc: Doc)             // the `checkSpelling` command
    | ClickMarker(index: nat)             // a click on a marker's element
    | ClickItem(index: nat)               // a click on a list entry of the box
    | Tick(elapsed: nat)                  // time passes; due debounced calls run
    | CheckDone(index: nat, found: seq<Match>)          // a proofreader call answers
    | SuggestionsDone(index: nat, suggestions: seq<string>)  // a suggestions call answers

  /** `proofreadDoc`: the whole document is flattened and checked from position 1, and
      the initial proofread counts as done at once, before the check answers. */
  function ProofreadDoc(s: State, doc: Doc): (s': State)
    ensures s'.checks == s.checks + [Check(ExtractText(doc), 1)]
    ensures s'.initialDone
    ensures s' == s.(checks := s'.checks, initialDone := true)
  {
    s.(checks := s.checks + [Check(ExtractText(doc), 1)], initialDone := true)
  }

  /** The state `init` leaves: an empty decoration set, a hidden box, nothing pending,
      and one full check under way. */
  function Init(doc: Doc, ui: Option<UiStrings>): (s: State)
    ensures s.markers == [] && s.box == Hidden() && !s.didPaste && !s.hasView
    ensures s.checks == [Check(ExtractText(doc), 1)] && s.asks == []
    ensures s.initialDone && s.lastOriginalFrom == 0
    ensures s.timers.fullCheck.pending.None? && s.timers.scopeCheck.pending.None?
    ensures s.timers.click.pending.None? && s.timers.accept.pending.None?
    ensures Delays(s.timers) && s.timers.now == 0
  {
    var timers := Timers(0, Create(FullWait), Create(ScopeWait), Create(ClickWait), Create(AcceptWait));
    var blank := State([], false, 0, false, timers, [], [], Hidden(), false, ui, []);
    ProofreadDoc(blank, doc)
  }

  /** `onNodeChanged`: a scope at a new position is checked at once, a scope at the same
      position as last time goes through the 300 ms debounce; either way the position is
      remembered. */
  function OnNodeChanged(s: State, text: string, originalFrom: int): (s': State)
    ensures s'.lastOriginalFrom == originalFrom
    ensures originalFrom != s.lastOriginalFrom ==>
      s' == s.(checks := s.checks + [Check(text, originalFrom)], lastOriginalFrom := originalFrom)
    ensures originalFrom == s.lastOriginalFrom ==>
      s'.timers.scopeCheck.pending == Some(Pending(Check(text, originalFrom), s.timers.now + s.timers.scopeCheck.wait))
      && s' == s.(timers := s'.timers) && s'.timers == s.timers.(scopeCheck := s'.timers.scopeCheck)
  {
    var s1 :=
      if originalFrom != s.lastOriginalFrom then s.(checks := s.checks + [Check(text, originalFrom)])
      else s.(timers := s.timers.(scopeCheck := Call(s.timers.scopeCheck, s.timers.now, Check(text, originalFrom))));
    s1.(lastOriginalFrom := originalFrom)
  }

  /** `debouncedProofreadDoc(doc)`. */
  function DebounceFull(t: Timers, doc: Doc): Timers {
    t.(fullCheck := Call(t.fullCheck, t.now, doc))
  }

  /** The scheduling part of `apply` for a document-changing transaction. */
  function Schedule(s: State, tr: Transaction): State {
    if s.didPaste then s.(didPaste := false, timers := DebounceFull(s.timers, tr.doc))
    else if !s.initialDone then s.(timers := DebounceFull(s.timers, tr.doc))
    else match ChangedBlock(tr.doc.nodes, tr.selFrom, tr.selTo)
      case None => s
      case Some(j) => OnNodeChanged(s, tr.doc.nodes[j].text, tr.doc.nodes[j].pos + 1)
  }

  /** The plugin state's `apply`: its own transactions leave everything as it is; any
      other transaction may schedule a check and then carries the markers through its
      mapping. */
  function ApplyTransaction(s: State, tr: Transaction): (s': State)
    ensures tr.selfTagged ==> s' == s
    ensures !tr.selfTagged ==> s'.markers == MapMarkers(s.markers, tr.mapping)
    ensures s'.box == s.box && s'.asks == s.asks && s'.edits == s.edits
    ensures s'.initialDone == s.initialDone && s'.hasView == s.hasView
    ensures |s.checks| <= |s'.checks| <= |s.checks| + 1 && s'.checks[..|s.checks|] == s.checks
  {
    if tr.selfTagged then s
    else
      var s1 := if tr.docChanged then Schedule(s, tr) else s;
      s1.(markers := MapMarkers(s1.markers, tr.mapping))
  }

  /** The end of `getMatchAndSetDecorations`, once the proofreader has answered. */
  function Settle(s: State, c: Check, found: seq<Match>): State {
    s.(markers := Reconcile(s.markers, found, c.base, |c.text|))
  }

  /** `clickEventsListener` up to the suggestions call: the word recorded in the marker's
      payload is asked about, for the range recorded there when the marker was made. */
  function AskAbout(s: State, mk: Marker): (s': State)
    ensures s' == s.(asks := s'.asks)
    ensures |s'.asks| == |s.asks| + 1 && s'.asks[..|s.asks|] == s.asks
    ensures var a := s'.asks[|s.asks|];
      a.word == mk.payload.found.word && (a.from, a.to) == ClickRangeAsWritten(mk)
  {
    var range := ClickRangeAsWritten(mk);
    s.(asks := s.asks + [Ask(mk.payload.found.word, range.0, range.1)])
  }

  /** `acceptSuggestionListener`: the box always closes, and only with an editor view is
      the entry's edit dispatched. */
  function AcceptItem(s: State, item: Item): (s': State)
    ensures s' == s.(edits := s'.edits, box := s'.box) && s'.box == Hidden()
    ensures s.edits <= s'.edits && |s'.edits| == |s.edits| + (if s.hasView then 1 else 0)
    ensures s.hasView ==> s'.edits[|s.edits|] == InsertText(item.text, item.from, item.to)
  {
    var r := Accept(item, s.hasView);
    s.(edits := s.edits + (if r.0.Some? then [r.0.value] else []), box := r.1)
  }

  /** The clock reaches `now`: every debounced wrapper whose call is due runs it. Time
      passing never touches the markers or the paste flag; it only adds checks, asks and
      edits. */
  function Advance(s: State, now: int): (s': State)
    ensures s'.timers.now == now && Delays(s'.timers) == Delays(s.timers)
    ensures s'.markers == s.markers && s'.didPaste == s.didPaste && s'.lastOriginalFrom == s.lastOriginalFrom
    ensures s.checks <= s'.checks && s.asks <= s'.asks && s.edits <= s'.edits
  {
    var t := s.timers;
    var full, scope, click, accept := Fire(t.fullCheck, now), Fire(t.scopeCheck, now), Fire(t.click, now), Fire(t.accept, now);
    RunDue(s.(timers := Timers(now, full.0, scope.0, click.0, accept.0)), full.1, scope.1, click.1, accept.1)
  }

  /** The callbacks that fell due run in the order their wrappers were created; none of
      them touches a debounce slot. The edit an accepted suggestion dispatches is recorded
      here and reaches `apply` only as a later, separate `Apply` event. */
  function RunDue(s: State, full: Option<Doc>, scope: Option<Check>, click: Option<Marker>, accept: Option<Item>): (s': State)
    ensures s'.timers == s.timers
    ensures s'.markers == s.markers && s'.didPaste == s.didPaste && s'.lastOriginalFrom == s.lastOriginalFrom
    ensures s.checks <= s'.checks && s.asks <= s'.asks && s.edits <= s'.edits
  {
    var s2 := if full.Some? then ProofreadDoc(s, full.value) else s;
    var s3 := if scope.Some? then s2.(checks := s2.checks + [scope.value]) else s2;
    var s4 := if click.Some? then AskAbout(s3, click.value) else s3;
    if accept.Some? then AcceptItem(s4, accept.value) else s4
  }

  function RemoveAt<T>(xs: seq<T>, i: nat): (r: seq<T>)
    requires i < |xs|
    ensures |r| == |xs| - 1
    ensures forall k :: 0 <= k < i ==> r[k] == xs[k]
    ensures forall k :: i <= k < |r| ==> r[k] == xs[k + 1]
  {
    xs[..i] + xs[i + 1..]
  }

  /** A click on the marker at `i`: the click debounce is called with it. */
  function OnClickMarker(s: State, i: nat): State {
    if i < |s.markers| then s.(timers := s.timers.(click := Call(s.timers.click, s.timers.now, s.markers[i]))) else s
  }

  /** A click on the list entry at `i`: the accept debounce is called with it. */
  function OnClickItem(s: State, i: nat): State {
    if i < |s.box.items| then s.(timers := s.timers.(accept := Call(s.timers.accept, s.timers.now, s.box.items[i]))) else s
  }

  /** The proofreader call at `i` answers. */
  function OnCheckDone(s: State, i: nat, found: seq<Match>): State {
    if i < |s.checks| then Settle(s.(checks := RemoveAt(s.checks, i)), s.checks[i], found) else s
  }

  /** The suggestions call at `i` answers. */
  function OnSuggestionsDone(s: State, i: nat, suggestions: seq<string>): State {
    if i < |s.asks| then
      var a := s.asks[i];
      s.(asks := RemoveAt(s.asks, i), box := OnSuggestions(s.box, s.hasView, suggestions, a.from, a.to, s.ui))
    else s
  }

  /** One event. Answers and clicks that name no call in flight, marker or list entry
      change nothing. */
  function Step(s: State, e: Event): (s': State)
    ensures e.ClickMarker? && e.index >= |s.markers| ==> s' == s
    ensures e.ClickItem? && e.index >= |s.box.items| ==> s' == s
    ensures e.CheckDone? && e.index >= |s.checks| ==> s' == s
    ensures e.SuggestionsDone? && e.index >= |s.asks| ==> s' == s
  {
    match e
    case Apply(tr) => ApplyTransaction(s, tr)
    case Paste => s.(didPaste := true)
    case ClickEditor => s.(box := Hidden())
    case ViewUpdate => s.(hasView := true)
    case CheckSpelling(doc) => ProofreadDoc(s, doc)
    case ClickMarker(i) => OnClickMarker(s, i)
    case ClickItem(i) => OnClickItem(s, i)
    case Tick(dt) => Advance(s, s.timers.now + dt)
    case CheckDone(i, found) => OnCheckDone(s, i, found)
    case SuggestionsDone(i, suggestions) => OnSuggestionsDone(s, i, suggestions)
  }

  /** The state after a sequence of events. */
  function Run(s: State, events: seq<Event>): State
    decreases |events|
  {
    if |events| == 0 then s else Run(Step(s, events[0]), events[1..])
  }

  // ---------------------------------------------------------------------------
  // Properties of `apply`

  /** The plugin's own transactions return the stored markers untouched and schedule
      nothing. */
  lemma SelfTaggedIgnored(s: State, tr: Transaction)
    requires tr.selfTagged
    ensures Step(s, Apply(tr)) == s
  {
  }

  /** A transaction that leaves the document alone only carries the markers through
      its mapping: the paste flag and all scheduling state stay as they were. */
  lemma NoDocChangeOnlyMaps(s: State, tr: Transaction)
    requires !tr.selfTagged && !tr.docChanged
    ensures Step(s, Apply(tr)) == s.(markers := MapMarkers(s.markers, tr.mapping))
  {
  }

  /** A document change after a paste clears the flag and schedules a full check of the
      new document 500 ms on, leaving the scope debounce and the checks in flight alone. */
  lemma PasteSchedulesFullCheck(s: State, tr: Transaction)
    requires Delays(s.timers)
    requires !tr.selfTagged && tr.docChanged && s.didPaste
    ensures var s' := Step(s, Apply(tr));
      && !s'.didPaste
      && s'.timers.fullCheck.pending == Some(Pending(tr.doc, s.timers.now + FullWait))
      && s'.timers.scopeCheck == s.timers.scopeCheck && s'.checks == s.checks
      && s'.lastOriginalFrom == s.lastOriginalFrom
      && s'.markers == MapMarkers(s.markers, tr.mapping)
  {
  }

  /** Before the initial proofread counts as done, a document change schedules a full
      check and never a partial one. */
  lemma NotDoneSchedulesFullCheck(s: State, tr: Transaction)
    requires Delays(s.timers)
    requires !tr.selfTagged && tr.docChanged && !s.didPaste && !s.initialDone
    ensures var s' := Step(s, Apply(tr));
      && s'.timers.fullCheck.pending == Some(Pending(tr.doc, s.timers.now + FullWait))
      && s'.timers.scopeCheck == s.timers.scopeCheck && s'.checks == s.checks
      && s'.lastOriginalFrom == s.lastOriginalFrom && !s'.didPaste
  {
  }

  /** Afterwards a document change checks the innermost block around the selection,
      its text content from the position just inside it, and nothing when no block
      contains the selection; the full-check debounce is left alone. */
  lemma DoneChecksChangedBlock(s: State, tr: Transaction)
    requires Delays(s.timers)
    requires !tr.selfTagged && tr.docChanged && !s.didPaste && s.initialDone
    ensures var s' := Step(s, Apply(tr));
      var found := ChangedBlock(tr.doc.nodes, tr.selFrom, tr.selTo);
      && s'.timers.fullCheck == s.timers.fullCheck && !s'.didPaste
      && (found.None? ==> s' == s.(markers := MapMarkers(s.markers, tr.mapping)))
      && (found.Some? ==>
            var n := tr.doc.nodes[found.value];
            && n.isBlock && Contains(n, tr.selFrom, tr.selTo)
            && s'.lastOriginalFrom == n.pos + 1
            && (n.pos + 1 != s.lastOriginalFrom ==> s'.checks == s.checks + [Check(n.text, n.pos + 1)])
            && (n.pos + 1 == s.lastOriginalFrom ==>
                  s'.checks == s.checks
                  && s'.timers.scopeCheck.pending == Some(Pending(Check(n.text, n.pos + 1), s.timers.now + ScopeWait))))
  {
  }

  /** Two changes inside the same block in a row: the first is checked at once (its
      position is new), the second goes through the scope debounce. */
  lemma SameBlockTwiceDebounced(s: State, tr1: Transaction, tr2: Transaction, j: nat)
    requires Delays(s.timers)
    requires !tr1.selfTagged && tr1.docChanged && !tr2.selfTagged && tr2.docChanged
    requires !s.didPaste && s.initialDone
    requires ChangedBlock(tr1.doc.nodes, tr1.selFrom, tr1.selTo) == Some(j)
    requires ChangedBlock(tr2.doc.nodes, tr2.selFrom, tr2.selTo) == Some(j)
    requires tr1.doc.nodes[j].pos == tr2.doc.nodes[j].pos != s.lastOriginalFrom - 1
    ensures var s1 := Step(s, Apply(tr1));
      var s2 := Step(s1, Apply(tr2));
      var n1, n2 := tr1.doc.nodes[j], tr2.doc.nodes[j];
      && s1.checks == s.checks + [Check(n1.text, n1.pos + 1)]
      && s2.checks == s1.checks
      && s2.timers.scopeCheck.pending == Some(Pending(Check(n2.text, n2.pos + 1), s.timers.now + ScopeWait))
  {
    DoneChecksChangedBlock(s, tr1);
    var s1 := Step(s, Apply(tr1));
    DoneChecksChangedBlock(s1, tr2);
  }

  // ---------------------------------------------------------------------------
  // Invariants over every run

  /** Once the initial proofread counts as done it stays done. */
  lemma InitialDoneKept(s: State, e: Event)
    requires s.initialDone
    ensures Step(s, e).initialDone
  {
  }

  /** The initial proofread counts as done in every state reachable from `init`, so the
      "not done yet" branch of `apply` is never taken. */
  lemma {:induction false} InitialDoneAlways(doc: Doc, ui: Option<UiStrings>, events: seq<Event>)
    ensures Run(Init(doc, ui), events).initialDone
  {
    RunKeepsDone(Init(doc, ui), events);
  }

  lemma {:induction false} RunKeepsDone(s: State, events: seq<Event>)
    requires s.initialDone
    ensures Run(s, events).initialDone
    decreases |events|
  {
    if |events| > 0 {
      InitialDoneKept(s, events[0]);
      RunKeepsDone(Step(s, events[0]), events[1..]);
    }
  }

  /** Only `handlePaste` raises the paste flag. */
  lemma PasteFlagOnlyFromPaste(s: State, e: Event)
    requires !s.didPaste && !e.Paste?
    ensures !Step(s, e).didPaste
  {
  }

  /** The clock never runs backwards, and the debounce delays never change. */
  lemma StepKeepsDelays(s: State, e: Event)
    ensures Step(s, e).timers.now >= s.timers.now
    ensures Delays(Step(s, e).timers) == Delays(s.timers)
  {
    match e
    case Tick(dt) =>
      TickKeepsDelays(s, dt);
    case Apply(tr) =>
      ApplyTimers(s, tr);
    case ClickMarker(i) =>
    case ClickItem(i) =>
    case _ =>
      assert Step(s, e).timers == s.timers;
  }

  lemma TickKeepsDelays(s: State, dt: nat)
    ensures Step(s, Tick(dt)).timers.now >= s.timers.now
    ensures Delays(Step(s, Tick(dt)).timers) == Delays(s.timers)
  {
    AdvanceTimers(s, s.timers.now + dt);
  }

  /** Letting time pass only empties the slots that fell due. */
  lemma AdvanceTimers(s: State, now: int)
    ensures var t := s.timers;
      Advance(s, now).timers
      == Timers(now, Fire(t.fullCheck, now).0, Fire(t.scopeCheck, now).0, Fire(t.click, now).0, Fire(t.accept, now).0)
  {
  }

  /** A transaction touches at most the full-check and scope-check slots, by calling them. */
  lemma ApplyTimers(s: State, tr: Transaction)
    ensures var t := ApplyTransaction(s, tr).timers;
      t.now == s.timers.now && t.click == s.timers.click && t.accept == s.timers.accept
      && t.fullCheck.wait == s.timers.fullCheck.wait && t.scopeCheck.wait == s.timers.scopeCheck.wait
  {
  }

  /** The delays are the ones the instance was created with, and the clock has not run
      backwards, in every state reachable from `init`. */
  lemma {:induction false} DelaysAlways(doc: Doc, ui: Option<UiStrings>, events: seq<Event>)
    ensures Delays(Run(Init(doc, ui), events).timers) && Run(Init(doc, ui), events).timers.now >= 0
  {
    RunKeepsDelays(Init(doc, ui), events);
  }

  lemma {:induction false} RunKeepsDelays(s: State, events: seq<Event>)
    requires Delays(s.timers)
    ensures Delays(Run(s, events).timers) && Run(s, events).timers.now >= s.timers.now
    decreases |events|
  {
    if |events| > 0 {
      StepKeepsDelays(s, events[0]);
      RunKeepsDelays(Step(s, events[0]), events[1..]);
    }
  }

  /** Every full check starts at position 1, whether it comes from the command or from
      the debounce firing. */
  lemma FullChecksFromOne(s: State, doc: Doc, dt: nat)
    ensures Step(s, CheckSpelling(doc)).checks == s.checks + [Check(ExtractText(doc), 1)]
    ensures s.timers.fullCheck.pending == Some(Pending(doc, s.timers.now)) ==>
      Check(ExtractText(doc), 1) in Step(s, Tick(dt)).checks
  {
  }

  /** A check's answer replaces exactly the markers touching its scope with the markers
      of the reported matches, and the call leaves the set of calls in flight. */
  lemma CheckDoneReconciles(s: State, i: nat, found: seq<Match>)
    requires i < |s.checks|
    ensures var c := s.checks[i];
      var s' := Step(s, CheckDone(i, found));
      && s'.markers == Reconcile(s.markers, found, c.base, |c.text|)
      && |s'.checks| == |s.checks| - 1
      && s'.initialDone == s.initialDone && s'.didPaste == s.didPaste
  {
  }

  /** A click in the editor always hides the box. */
  lemma ClickEditorHides(s: State)
    ensures Step(s, ClickEditor).box == Hidden()
  {
  }

  /** A click on a marker asks about the word in its payload, for the range recorded in
      the payload, once the zero-delay debounce has run. */
  lemma ClickAsksAboutMarker(s: State, i: nat)
    requires Delays(s.timers)
    requires i < |s.markers| && !Due(s.timers.click, s.timers.now)
    ensures var s1 := Step(s, ClickMarker(i));
      var s2 := Step(s1, Tick(0));
      var mk := s.markers[i];
      s2.asks == s.asks + [Ask(mk.payload.found.word, mk.payload.docFrom, mk.payload.docTo)]
  {
    var s1 := Step(s, ClickMarker(i));
    assert Due(s1.timers.click, s1.timers.now);
  }

  /** A click on a list entry, once the zero-delay debounce has run, replaces the entry's
      range by its text (when a view is attached) and hides the box. */
  lemma ClickItemAccepts(s: State, i: nat)
    requires Delays(s.timers)
    requires i < |s.box.items| && !Due(s.timers.accept, s.timers.now) && !Due(s.timers.click, s.timers.now)
    requires !Due(s.timers.fullCheck, s.timers.now) && !Due(s.timers.scopeCheck, s.timers.now)
    ensures var s2 := Step(Step(s, ClickItem(i)), Tick(0));
      var item := s.box.items[i];
      && s2.box == Hidden()
      && s2.edits == s.edits + (if s.hasView then [InsertText(item.text, item.from, item.to)] else [])
  {
    var s1 := Step(s, ClickItem(i));
    assert Due(s1.timers.accept, s1.timers.now);
  }

  /** After typing `k > 0` characters before a marked word, a click on its marker asks
      about the range the marker was made with, `k` positions before where the word now
      is. */
  lemma StaleClickAsks(s: State, m: Match, base: int, p: int, k: nat)
    requires Delays(s.timers) && !Due(s.timers.click, s.timers.now)
    requires m.length > 0 && p < m.offset + base && k > 0
    requires s.markers == MapMarkers([MarkerFor(m, base)], Insertion(p, k))
    ensures var s2 := Step(Step(s, ClickMarker(0)), Tick(0));
      var mk := s.markers[0];
      && s2.asks == s.asks + [Ask(m.word, mk.from - k, mk.to - k)]
      && ClickRange(mk) != (mk.from - k, mk.to - k)
  {
    StalePayload(m, base, p, k);
    ClickAsksAboutMarker(s, 0);
  }
}
