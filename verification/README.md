# Spell checker for the tiptap editor, modelled in Dafny

This project models the core of `@farscrl/tiptap-extension-spellchecker`. It covers:

- **The plugin.** The extension's ProseMirror plugin: `init`, `apply`, `handlePaste`, `handleClick`, the view `update` and the `checkSpelling` command.
- **The `Spellchecker` instance behind it.** It turns the document into one string (`proofreadDoc`), hands scopes to a proofreader, keeps one inline marker per reported word (`getMatchAndSetDecorations`), maps the markers through transactions, and on a click fills a suggestion box and applies the chosen suggestion.
- **The `debounce` helper** that delays four of those calls.
- **The two demo proofreaders:**
  - the word-list proofreader, which splits the text with `/\W+/`, looks each piece up in a dictionary object and builds single-letter substitutions as suggestions;
  - the Hunspell proofreader, whose `spell` and `suggest` come from the Hunspell engine.

Modules follow the program:

| module | what it models |
|---|---|
| `Wrappers` | `Option` |
| `Seqs` | order-preserving filtering |
| `Ascii` | `\w`, white space, `toLowerCase`, `trim` |
| `WordSplit` | `split(/\W+/)` and the running offsets the demo proofreaders attach to the pieces |
| `Proofreading` | `ITextWithPosition` |
| `LocalProofreader`, `HunspellProofreader` | the two demo proofreaders |
| `Debounce` | `util.ts` |
| `Document` | the pre-order walk `descendants` performs, and the changed-block search of `apply` |
| `TextExtract` | the grouping and layout loops of `proofreadDoc` |
| `Markers` | the decoration set, its reconciliation and its mapping |
| `Suggestions` | the suggestion box as data |
| `Scheduler` | plugin and instance as one sequential state machine over events |
| `Scenarios` | concrete runs on a two-paragraph document |

Asynchrony is modelled by events:

- A proofreader call or a suggestions call is recorded as "in flight". Its answer arrives later as a `CheckDone` or `SuggestionsDone` event, in any order.
- `setTimeout` is a virtual clock advanced by `Tick` events.
- The proofreader itself is a parameter: `isKnown` or `spell` for the demo proofreaders, and the `found` list of a `CheckDone` event for the plugin.

**When the initial proofread counts as done.** `proofreadDoc` sets `isInitialProofreadingDone` synchronously, at the end of the call, not when the check answers. `init` always calls `proofreadDoc`. So the `!completeProofreadingDone` branch of `apply` cannot be reached from `init`. `Scheduler.InitialDoneAlways` proves this; `Scheduler.NotDoneSchedulesFullCheck` still describes that branch.

## Model

| member | source | states |
|---|---|---|
| Ascii.ToLower | demo/src/local/proofreader.ts:20 | lower-casing maps character for character, so it keeps length and positions, and leaves no capital letter |
| Ascii.ToLowerIdempotent | demo/src/local/proofreader.ts:55 | lower-casing an already lower-cased text changes nothing |
| Ascii.ToLowerConcat | demo/src/local/proofreader.ts:55 | lower-casing distributes over concatenation |
| Ascii.TrimFacts | demo/src/local/proofreader.ts:20 | `trim` returns a slice of its input; only white space lies outside the slice; the slice neither starts nor ends with white space |
| Ascii.TrimStartFacts | demo/src/local/proofreader.ts:20 | removing leading white space keeps a suffix that does not start with white space, and drops white space only |
| Ascii.TrimEndFacts | demo/src/local/proofreader.ts:20 | removing trailing white space keeps a prefix that does not end with white space, and drops white space only |
| Ascii.TrimWordRun | demo/src/local/proofreader.ts:18-20 | a piece of the `/\W+/` split holds no white space, so trimming it changes nothing |
| WordSplit.SplitRuns | demo/src/local/proofreader.ts:18 | splitting yields one more piece than separator runs; the pieces rejoined with their separators give back the input; pieces hold only word characters and separators only non-word characters; inner pieces are non-empty |
| WordSplit.TokensShape | demo/src/hunspell/proofreader.ts:36-52 | there is one token per piece, empty pieces included; each token carries its piece and that piece's length, at the running sum of `length + 1`; offsets strictly increase |
| WordSplit.TokenAt | demo/src/hunspell/proofreader.ts:41-48 | token `i` is piece `i` at the running offset of the pieces before it |
| WordSplit.RunningOffsetGrows | demo/src/hunspell/proofreader.ts:48 | every piece advances the running offset by its length plus one |
| WordSplit.JoinSlice | demo/src/hunspell/proofreader.ts:40 | piece `i` sits in the joined text at the sum of the lengths of the pieces and separators before it |
| WordSplit.SingleSeparatorAligned | demo/src/local/proofreader.ts:29 | when every separator run is one character long, the running offset is the true start of each piece, and each token marks its own word |
| WordSplit.RunningOffsetDrift | demo/src/hunspell/proofreader.ts:48 | on `"ab  cd"` the second token gets offset 3 but the word starts at 4, so the token does not mark its word |
| WordSplit.AlignedTokensMark | demo/src/local/proofreader.ts:29 | tokens placed at each piece's true start keep the words and lengths of the running-offset tokens, and every one marks its own word whatever the separators |
| WordSplit.FilterSameWords | demo/src/hunspell/proofreader.ts:27-31 | a filter that looks only at the word keeps the same words, position by position, from two token lists that have the same words |
| WordSplit.SplitRunsLower | demo/src/hunspell/proofreader.ts:19-21 | splitting the lower-cased text gives the lower-cased pieces and separators |
| WordSplit.NormalizeKeepsTokens | demo/src/hunspell/proofreader.ts:19-21 | normalising before tokenizing keeps every token's offset and length and only lower-cases its word |
| WordSplit.Normalize | demo/src/local/proofreader.ts:52-56 | `normalizeTextForLanguage` keeps length and positions, lower-cases each character, and keeps each token's offset and length |
| HunspellProofreader.TokenizeString | demo/src/hunspell/proofreader.ts:36-52 | the loop produces exactly the token list: one token per piece, with its word and length, in strictly increasing offset order |
| HunspellProofreader.ProofreadText | demo/src/hunspell/proofreader.ts:23-34 | the errors are the tokens `spell` rejects, in token order; a token is reported if and only if `spell` rejects its word |
| HunspellProofreader.RejectedFacts | demo/src/hunspell/proofreader.ts:27-31 | the filtered tokens are exactly the rejected ones, and offsets stay strictly increasing |
| HunspellProofreader.ProofreadAlignedMarks | demo/src/hunspell/proofreader.ts:23-34 | the corrected report rejects the same words in the same order, and each reported match marks its own word in the checked text |
| LocalProofreader.KnownDiffers | demo/src/local/proofreader.ts:22 | the lookup as written and the own-key lookup disagree exactly on inherited `Object.prototype` names the list does not define |
| LocalProofreader.InheritedKeyAccepted | demo/src/local/proofreader.ts:22 | with an empty word list, `constructor` is a token that the own-key lookup reports and the lookup as written accepts |
| LocalProofreader.ProofreadText | demo/src/local/proofreader.ts:14-33 | the report is the pieces whose trimmed lower-case form is non-empty and unknown, at their running offsets, in order; membership is an if-and-only-if; every reported match is non-empty with length equal to its word's; offsets strictly increase |
| LocalProofreader.ReportStep | demo/src/local/proofreader.ts:19-30 | one loop round appends piece `i` at its running offset exactly when its trimmed lower-case form is non-empty and unknown |
| LocalProofreader.ReportedFacts | demo/src/local/proofreader.ts:19-30 | the report holds exactly the flagged tokens, each non-empty, in strictly increasing offset order |
| LocalProofreader.ProofreadAlignedMarks | demo/src/local/proofreader.ts:29 | the corrected report flags the same words in the same order, and each match marks its own word in the checked text |
| LocalProofreader.AlphabetIsLiteral | demo/src/local/proofreader.ts:38 | the letters tried are `a` to `z` in order |
| LocalProofreader.Substitute | demo/src/local/proofreader.ts:42 | `slice(0, i) + c + slice(i + 1)` has the word's length, holds `c` at `i` and the word's characters elsewhere |
| LocalProofreader.GetSuggestions | demo/src/local/proofreader.ts:35-50 | the nested loops return exactly the known substitutions, by position and then by letter |
| LocalProofreader.KnownInRow | demo/src/local/proofreader.ts:41-46 | the inner loop returns the known substitutions at position `i`, in alphabetical order |
| LocalProofreader.CandidatesUpToShape | demo/src/local/proofreader.ts:40-46 | every candidate is a single-letter substitution at an earlier position |
| LocalProofreader.CandidatesUpToComplete | demo/src/local/proofreader.ts:40-46 | every single-letter substitution at an earlier position is a candidate |
| LocalProofreader.SuggestionFacts | demo/src/local/proofreader.ts:35-50 | every suggestion is known and at most one lower-case letter away from the word; every known substitution by a lower-case letter is suggested; an empty word gets none |
| Debounce.Create | src/util.ts:2-3 | a new wrapper keeps its delay and holds no pending call |
| Debounce.Call | src/util.ts:4-9 | a call drops whatever was pending and schedules its own arguments at now plus the delay |
| Debounce.Fire | src/util.ts:6-9 | when the clock reaches a due call it runs with the last arguments and the slot empties; otherwise nothing happens |
| Debounce.Run | src/util.ts:2-11 | the delay never changes, and each event runs the callback at most once |
| Debounce.BurstRunsOnce | src/util.ts:2-11 | a burst of calls, each before the previous deadline, followed by the clock passing the last deadline, runs the callback once, with the last call's arguments |
| Document.ChangedBlock | src/spellchecker-extension.ts:113-124 | the search returns the last block in walk order whose range contains the selection, or nothing exactly when no block does |
| TextExtract.Extend | src/spellchecker.ts:95-104 | a text node either continues the open group (same start, text appended) or starts one at its position; `to` is always `from` plus the text length |
| TextExtract.GroupsFrom | src/spellchecker.ts:81-107 | every group the walk produces is well-formed |
| TextExtract.Spaces | src/spellchecker.ts:112-115 | `Array(diff + 1).join(' ')` is `diff` blanks when `diff > 0` and nothing otherwise |
| TextExtract.GroupsSplit | src/spellchecker.ts:83-86 | a non-text node closes the group: grouping around it is grouping each side |
| TextExtract.GroupsOfTextRun | src/spellchecker.ts:95-98 | consecutive text nodes form one group starting at the first node, holding all their text |
| TextExtract.NoTextNoGroups | src/spellchecker.ts:81-119 | a walk without text nodes gives no groups and the empty text |
| TextExtract.MergeInvisible | src/spellchecker.ts:109-119 | when text nodes consecutive in the walk are also adjacent in the document, merging them into groups gives the same layout as padding each text node separately |
| TextExtract.FlattenAligned | src/spellchecker.ts:109-119 | for ordered, non-overlapping groups starting at position 1 or later, each group's characters land at their document position minus 1 |
| TextExtract.RenderCharAt | src/spellchecker.ts:109-119 | character `k` of a text node lands at its document position minus the base, plus `k` |
| TextExtract.RenderBlankAt | src/spellchecker.ts:111-119 | every offset that no text node covers holds a blank |
| TextExtract.ExtractAligned | src/spellchecker.ts:78-121 | when text nodes consecutive in the walk are adjacent in the document and text nodes sit at position 1 or later without overlapping, text offset `p` is document position `p + 1`: every text character sits there, everything else is a blank, and an empty walk gives the empty text |
| TextExtract.FlattenIsRender | src/spellchecker.ts:109-119 | laying out the groups is laying out one text node per group, padded from where the previous one ended |
| TextExtract.InlineContentMisaligned | src/spellchecker.ts:81-119 | in the walk of `<p>ab<span>cd</span>ef</p>`, with `span` an inline node with content, `cd` and `ef` are merged into one group, so the text is `ab cdef` and `ef` (position 7) starts at index 5, not 6 |
| TextExtract.ExtractTextByNodeAligned | src/spellchecker.ts:109-119 | laid out node by node, every text character sits at its document position minus 1 and everything else is a blank, for any walk whose text nodes sit at position 1 or later without overlapping |
| Markers.MarkerFor | src/spellchecker.ts:140-148 | a match at `offset` in a text checked at `originalFrom` gets the marker `[offset + originalFrom, +length)`, whose payload records the match and that range |
| Markers.MarkersFor | src/spellchecker.ts:140-148 | one marker per match, in match order |
| Markers.MarkersRoundTrip | src/spellchecker.ts:140-148 | the payloads give back the matches; each marker is as long as its match; increasing offsets give increasing marker starts |
| Markers.Reconcile | src/spellchecker.ts:150-152 | every marker after an answer is an old one or a non-empty marker of a reported match; there are at most as many as old markers and matches together |
| Markers.ReconcileMembers | src/spellchecker.ts:150-152 | after an answer a marker is present exactly when it is an old one that does not touch the checked scope or the non-empty marker of a reported match; every non-empty match gets its marker; the new markers come last, in match order |
| Markers.MarkerInScope | src/spellchecker.ts:150 | a marker for a match inside the checked text touches the checked scope |
| Markers.NewMarkersInScope | src/spellchecker.ts:150-152 | removing the markers that touch the scope removes every marker of matches inside the checked text |
| Markers.ReconcileIdempotent | src/spellchecker.ts:135-152 | the same answer for the same scope applied twice gives the marker set of one application |
| Markers.MapMarkers | src/spellchecker-extension.ts:136 | every marker that survives a mapping is non-empty |
| Markers.MapMarkersSound | src/spellchecker-extension.ts:136 | every mapped marker is an old marker moved by the mapping, payload kept, and is non-empty |
| Markers.MapMarkersKeeps | src/spellchecker-extension.ts:136 | an old marker whose mapped range does not collapse survives the mapping |
| Markers.MapIdentity | src/spellchecker-extension.ts:136 | a transaction that changes nothing keeps every non-empty marker |
| Markers.MapCompose | src/spellchecker-extension.ts:136 | mapping through two transactions in turn is mapping through their composition |
| Markers.MapMarkersConcat | src/spellchecker-extension.ts:136 | mapping distributes over concatenation of marker lists |
| Markers.InsertionShifts | src/spellchecker-extension.ts:136 | typing `k` characters before a marker shifts it by `k`; typing after it leaves it in place |
| Markers.StalePayload | src/spellchecker.ts:239-245 | after typing before a fresh marker, the range in its payload differs from where the marker now is |
| Markers.ClickRangeFollowsMapping | src/spellchecker.ts:239-245 | the corrected click range is always the mapped range of an old marker |
| Suggestions.Hidden | src/spellchecker.ts:67-70 | the hidden box is not displayed and holds no list and no message |
| Suggestions.NoSuggestionsText | src/spellchecker.ts:301-306 | the empty-list message is the configured text when that is a non-empty string, and `No suggestions found` otherwise |
| Suggestions.DefaultFallsThrough | src/spellchecker-extension.ts:39-46 | the default option `noSuggestions: ''` shows the built-in message |
| Suggestions.ShowList | src/spellchecker.ts:286-307 | the list has one entry per suggestion, in order, each with the clicked range; a message appears exactly when there are no suggestions |
| Suggestions.ItemTexts | src/spellchecker.ts:292-298 | reads back the text of every entry, in order |
| Suggestions.ShowListRoundTrip | src/spellchecker.ts:286-307 | reading back the entries gives the suggestions, and every entry carries the clicked range |
| Suggestions.OnSuggestions | src/spellchecker.ts:241-246 | with an editor view the box shows the list and is displayed; without one the box is left as it is |
| Suggestions.Accept | src/spellchecker.ts:270-284 | accepting an entry edits exactly when a view is attached, replacing the entry's range by its text, and always hides the box |
| Suggestions.ReplaceRange | src/spellchecker.ts:281 | `insertText(text, from, to)` keeps the text before `from`, puts the new text at `from` and shifts the rest |
| Suggestions.ReplaceRangeIdentity | src/spellchecker.ts:281 | replacing a range by its own text changes nothing; accepting the same text twice is accepting it once |
| Scheduler.ProofreadDoc | src/spellchecker.ts:78-133 | a full check is the flattened document checked from position 1, and the initial proofread counts as done; nothing else changes |
| Scheduler.Init | src/spellchecker-extension.ts:85-93 | `init` leaves no markers, a hidden box, no pending debounced call, the four delays, and exactly one full check in flight |
| Scheduler.OnNodeChanged | src/spellchecker.ts:217-225 | a scope at a new position is checked at once; a scope at the remembered position goes through the 300 ms debounce and nothing else changes; the position is remembered either way |
| Scheduler.AcceptItem | src/spellchecker.ts:270-284 | accepting an entry always hides the box, records the entry's edit exactly when a view is attached, and changes nothing else |
| Scheduler.Advance | src/util.ts:4-9 | letting time pass sets the clock, keeps the delays, never touches the markers or the paste flag, and only adds checks, asks and edits |
| Scheduler.RunDue | src/spellchecker.ts:19-22 | in the model, the callbacks that fell due never touch a debounce slot or the clock; they only add checks, asks and edits |
| Scheduler.ApplyTransaction | src/spellchecker-extension.ts:94-139 | the plugin's own transactions change nothing; any other maps the markers, adds at most one check at the end, and leaves the box, asks, edits and flags other than the paste flag alone |
| Scheduler.Step | src/spellchecker-extension.ts:74-139 | a click or an answer that names no marker, list entry or call in flight changes nothing |
| Scheduler.SelfTaggedIgnored | src/spellchecker-extension.ts:96-98 | the plugin's own transactions change nothing |
| Scheduler.NoDocChangeOnlyMaps | src/spellchecker-extension.ts:100-136 | a transaction that leaves the document alone only maps the markers |
| Scheduler.PasteSchedulesFullCheck | src/spellchecker-extension.ts:101-103 | a document change after a paste clears the flag, schedules a full check of the new document 500 ms on, checks nothing at once, and maps the markers |
| Scheduler.NotDoneSchedulesFullCheck | src/spellchecker-extension.ts:104-105 | before the initial proofread is done, a document change schedules a full check and nothing else |
| Scheduler.DoneChecksChangedBlock | src/spellchecker-extension.ts:106-132 | afterwards a change checks the last block in walk order containing the selection, at its inside position, at once or debounced; without such a block it only maps the markers |
| Scheduler.SameBlockTwiceDebounced | src/spellchecker.ts:217-225 | two changes in the same block in a row: the first is checked at once, the second is debounced with the new text |
| Scheduler.InitialDoneKept | src/spellchecker.ts:132 | once the initial proofread is done it stays done |
| Scheduler.InitialDoneAlways | src/spellchecker-extension.ts:85-93 | in every state reachable from `init` the initial proofread is done |
| Scheduler.RunKeepsDone | src/spellchecker.ts:132 | no sequence of events undoes the done flag |
| Scheduler.PasteFlagOnlyFromPaste | src/spellchecker-extension.ts:76-78 | only `handlePaste` raises the paste flag |
| Scheduler.StepKeepsDelays | src/spellchecker.ts:19-22 | no event moves the clock backwards or changes a debounce delay |
| Scheduler.TickKeepsDelays | src/spellchecker.ts:19-22 | letting time pass keeps the delays and does not move the clock backwards |
| Scheduler.AdvanceTimers | src/util.ts:4-9 | letting time pass empties exactly the slots whose calls fell due |
| Scheduler.ApplyTimers | src/spellchecker-extension.ts:94-139 | `apply` touches only the full-check and scope-check slots, and keeps their delays |
| Scheduler.DelaysAlways | src/spellchecker.ts:19-22 | every state reachable from `init` keeps the delays 500, 300, 0 and 0, with the clock not before 0 |
| Scheduler.RunKeepsDelays | src/spellchecker.ts:19-22 | any sequence of events keeps the delays and does not move the clock backwards |
| Scheduler.FullChecksFromOne | src/spellchecker.ts:121 | a full check, from the command or from the debounce, checks the flattened document from position 1 |
| Scheduler.CheckDoneReconciles | src/spellchecker.ts:135-152 | an answer reconciles the markers of its own scope and leaves the calls in flight; the done and paste flags are unchanged |
| Scheduler.ClickEditorHides | src/spellchecker-extension.ts:79-82 | a click in the editor hides the box |
| Scheduler.AskAbout | src/spellchecker.ts:237-245 | a click asks about the word in the marker's payload, for the range recorded in that payload, and changes nothing else |
| Scheduler.ClickAsksAboutMarker | src/spellchecker.ts:227-245 | a click on a marker asks, after the zero-delay debounce, about the word and range recorded in its payload |
| Scheduler.StaleClickAsks | src/spellchecker.ts:239-245 | after typing `k` characters before a marked word, a click asks about the range `k` positions before where the marker now is |
| Scheduler.ClickItemAccepts | src/spellchecker.ts:270-284 | a click on a list entry, after the zero-delay debounce, hides the box and, with a view, dispatches the entry's edit |
| Scenarios.TwoParagraphsText | src/spellchecker.ts:109-119 | `<p>Ths</p><p>tst</p>` flattens to `"Ths  tst"` |
| Scenarios.SecondWordMarker | src/spellchecker.ts:140-143 | the second word reported at its true offset gets exactly its text node's range; at the running offset it would start one position early |
| Scenarios.FirstAnswer | src/spellchecker.ts:135-152 | the first answer to the full check sets one marker per match, in order, and leaves the timers and asks alone |
| Scenarios.InitThenCheck | src/spellchecker-extension.ts:85-93 | after `init` and the answer, each word has a marker over its text node |
| Scenarios.InitCheckClick | src/spellchecker.ts:227-245 | clicking the second marker asks about `tst` over `[6, 9)` |
| Scenarios.AcceptedEditText | src/spellchecker.ts:281 | the accepted edit `[6, 9)` covers exactly `tst` in the flattened text and turns it into `Ths  test` |
| Scenarios.AcceptFirstSuggestion | src/spellchecker.ts:270-307 | when suggestions for `tst` arrive, the box lists them; clicking the first one replaces `[6, 9)` and closes the box |

## Left out

- DOM work is not modelled:
  - positioning the box (`coordsAtPos`, `getBoundingClientRect`, styles);
  - appending the box to the editor's parent;
  - the event listeners installed by `addEventListenersToDecorations`, `addEventListenersToSuggestionBox` and the `setTimeout(…, 100)` that calls them.

  Clicks are events on a marker or list entry, identified by index.
- `JSON.stringify`/`JSON.parse` of the payload and the `trim()` of the attribute are not modelled: the payload is kept as a datatype.
- The `Number(...)` conversions of `data-from`/`data-to` and `textContent || ''` are not modelled: list entries hold integers and strings.
- The `LOADING_TRANSACTION` dispatches are left out: nothing in the core reacts to them. The `SPELLCHECKER_TRANSACTION` dispatch is represented by its effect on `apply` (`Scheduler.SelfTaggedIgnored`).
- `showSuggestionsEvent` is left out: it is an optional outward callback with no effect on the state.
- `findChangedTextNodes` is left out: it is never called.
- The proofreader's `normalizeTextForLanguage` is left out of the plugin's calls: checks and asks carry the raw text and word. `WordSplit.Normalize` and `WordSplit.NormalizeKeepsTokens` show that the demo normalisation keeps every offset and length.
- The Hunspell engine and the parsing of the word list are left out. They are the parameters `spell` and `isKnown`.
- The Hunspell proofreader's `getSuggestions` is left out: it only forwards to the engine's `suggest`. Suggestions reach the plugin as the list carried by a `SuggestionsDone` event.
- `Scheduler.Advance`: every slot that falls due within one `Tick` runs in the order the wrappers were created (full check, scope check, click, accept), even when their deadlines differ. The browser runs them in deadline order, and timers with equal deadlines in the order they were set. So the order of the checks, asks and edits one `Tick` adds can differ from the browser's.
- `Scheduler.RunDue`: in the source, the edit that `acceptSuggestionListener` dispatches (src/spellchecker.ts:281) re-enters `apply` synchronously. That call may map the markers and fill the full-check or scope-check slot. The model records the edit and treats it as a later, separate `Apply` event, so `RunDue` keeps the timers and markers unchanged. The same holds for the `LOADING_TRANSACTION` dispatches.
- `Markers.Reconcile`: a match of length 0 gets no marker. ProseMirror's `DecorationSet.add` drops an inline decoration whose `from` is not before its `to`, and the model applies that rule when a marker is added rather than when the set is built.
- `Markers.MapMarkers`: a marker whose mapped range collapses is dropped, as ProseMirror drops empty inline decorations. The exact bias rules live in the `Mapping` parameter (start right-biased, end left-biased) and are not derived from ProseMirror's step maps.
- The decoration set is a sequence. ProseMirror's tree layout and `find`'s handling of zero-width decorations are not modelled: `find` is "touches the closed range".
- A check in flight remembers the base it was made with. The model does not map that base through later transactions, and neither does the source.
- `apply`'s block search does not model `return false` for non-block nodes stopping the descent. In ProseMirror documents blocks only sit inside blocks, so the walk over all nodes finds the same block.
- Lengths and offsets count Unicode scalar values, since a Dafny string is a sequence of those. JavaScript's `length` and `slice` and ProseMirror's positions count UTF-16 code units instead. In the source, a character outside the Basic Multilingual Plane counts twice (src/spellchecker.ts:99-103 and the tokenizers' `length + 1`). In the model it counts once, so every offset after such a character is one less than the source's.
- `toLowerCase` is modelled on ASCII letters only, and `\w` on `[A-Za-z0-9_]`. Other characters are left unchanged.
- `Ascii.Trim`: its own contract states only that the result is no longer than the input. The slice and white-space facts are in `Ascii.TrimFacts`, kept separate so that callers do not carry them.

## Findings

| source | as written | input that shows it | evidently intended | confidence | as-written member | corrected member |
|---|---|---|---|---|---|---|
| demo/src/hunspell/proofreader.ts:48 | every token's offset is the running sum of `length + 1`, as if each separator were one character (the same in demo/src/local/proofreader.ts:29) | `"ab  cd"`: `cd` gets offset 3 but starts at 4. The flattened document has two blanks at every paragraph break, so every word after the first paragraph is marked one position early per extra separator character | each token at the true start of its piece | high (not executed) | WordSplit.RunningOffsetDrift | WordSplit.AlignedTokensMark |
| src/spellchecker.ts:239-245 | the suggestion list offers to replace the range recorded in the marker's payload when the marker was made, and the payload is not mapped with the marker | typing one character before a freshly marked word: the marker moves by one, the payload range does not, and accepting a suggestion replaces the wrong characters | replace the range the marker covers now | medium (not executed) | Scheduler.StaleClickAsks | Markers.ClickRangeFollowsMapping |
| demo/src/local/proofreader.ts:22 | `!this.wordList[lowerWord]` also finds properties inherited from `Object.prototype` | with an empty word list, the word `constructor` is never reported | look up only the list's own keys | low (not executed) | LocalProofreader.InheritedKeyAccepted | LocalProofreader.KnownDiffers |
| src/spellchecker.ts:81-107 | a text node joins the open group whenever the node before it in the walk was a text node, whatever its position. This also happens when an inline node with content separates the two text nodes | the walk of `<p>ab<span>cd</span>ef</p>` with `span` an inline node with content: the text is `ab cdef`, and `ef` at position 7 starts at index 5, so its marker lands one position early | each group continues only at the position where the previous text ended | low (not executed) | TextExtract.InlineContentMisaligned | TextExtract.ExtractTextByNodeAligned |

The state machine in `Scheduler` follows the code as written: it extracts the text with `TextExtract.ExtractText` and asks about the payload range (`Markers.ClickRangeAsWritten`). The corrected members are proved alongside it, so each discrepancy can be stated against the behaviour the plugin actually has.
