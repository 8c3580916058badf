# TechCon event page — a Dafny model

This project models the logic behind the event listing of the TechCon 2025 page (`scripts.js`).
The model covers:

- **Filter and search.** `updateEventView` combines the type filter with a case-insensitive search over title, description, speaker and type. It normalises the search term with lower-casing and trimming.
- **Countdown text.** The countdown splits the remaining milliseconds into days, hours, minutes and seconds and writes them as `Starts in: …`.
- **Countdown registry.** `updateCountdown` registers intervals in `countdownIntervals`. `renderEvents` clears them for removed cards and the unload handler clears them all. The model is a class over an explicit table of handles plus a set of intervals still running.
- **Reconciliation.** `renderEvents` plans which cards leave, which events get a new card and which cards only get their highlighting redone, and what the live region announces. The model also covers its two deferred phases (10 ms and 400 ms) over the card container. Any other calls, ticks and detaches may interleave with those phases.
- **Highlighting.** `highlightMatch` wraps occurrences of the term in `<mark>` tags.
- **Theme.** `applyTheme`, `initializeTheme` and the toggle handler, over the body class, the toggle's icon and label, and the stored choice.
- **Calendar file.** `createIcsFile` builds the iCalendar text: the `YYYYMMDDTHHMMSSZ` stamps, the one-hour `DTEND`, the thirteen content lines and the download file name.

Modules: `Options`, `Seqs` (a generic filter), `Text` (ASCII lower-casing, JavaScript whitespace and `trim`, `includes`, decimal numerals), `Events`, `EventFilter`, `Countdown`, `Timers`, `Reconcile`, `Highlight`, `Page`, `Theme`, `Calendar`.

The model takes the following as parameters:

- the clock: each `now` and `remaining` value;
- the system colour preference: `prefersDark`;
- the browser's conversion from epoch days to a calendar date: `civil`.

## Model

| member | source | states |
|---|---|---|
| Text.LowerStr | scripts.js:311 | lower-casing keeps the length and maps each character on its own, ASCII letters to lower case |
| Text.Trim | scripts.js:311 | the trimmed text is a slice of the input with no whitespace at either end, and only whitespace was cut off |
| Text.TrimIdempotent | scripts.js:311 | trimming again changes nothing |
| Text.ContainsIffOccurs | scripts.js:319-322 | `includes` holds exactly when the term occurs at some position |
| Text.NatToDecimal | scripts.js:80 | `String(n)` of a natural number is a non-empty string of digits without a superfluous leading zero |
| Text.DecimalRoundTrip | scripts.js:80 | the digits read back as the number |
| Text.DecimalInjective | scripts.js:148 | different numbers have different numerals |
| Text.IntToString | scripts.js:80 | `String(n)` of an integer starts with a minus sign exactly when `n` is negative; the rest is a non-empty digit string with no superfluous leading zero |
| Text.IntToStringReadsBack | scripts.js:80 | reading the text back, sign first, gives the integer |
| Seqs.Filter | scripts.js:313-325 | `Array.prototype.filter` returns only elements of the input that pass, and every element that passes |
| Seqs.FilterSelectsMatchingIndices | scripts.js:313-325 | the filtered sequence is the input at exactly the passing positions, in increasing order |
| Seqs.FilterIdempotent | scripts.js:313-325 | filtering twice with the same test is filtering once |
| Seqs.FilterDistinct | scripts.js:313-325 | filtering keeps distinct elements distinct |
| EventFilter.NormalizeTerm | scripts.js:311 | the term is the slice of the lower-cased text that starts after its leading whitespace and has only whitespace after it; it is lower-case and starts and ends with a non-whitespace character |
| EventFilter.NormalizeTermIdempotent | scripts.js:311 | normalising a normalised term changes nothing |
| EventFilter.UpdateEventView | scripts.js:310-328 | an event of the store is shown exactly when it passes both the type test and the search test; only store events are shown; the term handed on is the normalised one |
| EventFilter.ViewIsMatchingSubsequence | scripts.js:313-325 | the shown events are the store at exactly the matching positions, in store order |
| EventFilter.AllWithEmptySearchShowsStore | scripts.js:315-318 | with `All` and an empty term every event is shown |
| EventFilter.EmptyTermIsTypeFilter | scripts.js:318 | with an empty term the selection is the type filter alone |
| EventFilter.SelectIsTypeThenSearch | scripts.js:313-325 | selecting is filtering by type, then searching within the result |
| EventFilter.SelectIdempotent | scripts.js:313-325 | selecting from a selection again with the same filter and term changes nothing |
| EventFilter.VisibleIdsDistinct | scripts.js:313-325 | with unique store ids, the shown ids are unique |
| EventFilter.TalkFilterOnStore | scripts.js:2-57 | on the sample store, the `Talk` filter shows events 1, 3 and 6, in that order |
| EventFilter.ViewState.SetSearchTerm | scripts.js:67 | the search handler stores the raw text, keeps the filter and recomputes the view |
| EventFilter.ViewState.SetFilter | scripts.js:66 | a filter button stores its filter, keeps the search text and recomputes the view |
| Countdown.Split | scripts.js:143-146 | hours below 24, minutes and seconds below 60, and the parts bracket the remainder to within one second |
| Countdown.DivModUnique | scripts.js:143-146 | floor division and remainder are the unique quotient and remainder |
| Countdown.SplitUnique | scripts.js:143-146 | any breakdown with those bounds that brackets the remainder is the split |
| Countdown.SplitWholeSeconds | scripts.js:143-146 | the split is the remainder rounded down to the whole second |
| Countdown.CountdownText | scripts.js:148 | the text starts with `Starts in: ` and ends with the seconds' unit `s`; which texts are equal is stated by the two lemmas below |
| Countdown.LeadingNumber | scripts.js:148 | a number written before its unit letter is read back unambiguously |
| Countdown.CountdownTextReadsBack | scripts.js:148 | equal countdown texts come from equal splits |
| Countdown.CountdownTextPerSecond | scripts.js:143-148 | two texts are equal exactly when the whole numbers of seconds left are equal |
| Timers.ClearedForKeepsInvariant | scripts.js:120-122 | clearing an id's interval keeps the table invariant |
| Timers.Ticked | scripts.js:133-149 | a tick touches only the display of its id and, at most, stops intervals; the table and the next handle stay |
| Timers.Registered | scripts.js:115-155 | registering changes only the id's own entry and display; the only interval it can start uses the next handle |
| Timers.Cancelled | scripts.js:258-262 | cancelling deletes exactly the id's key, keeps the other handles, stops at most intervals and touches no display |
| Timers.CancelledAll | scripts.js:255-262 | after cancelling a sequence of ids, the keys left are exactly those not in the sequence, with their handles unchanged |
| Timers.Unloaded | scripts.js:413-416 | the unload loop stops every interval stored in the table and changes nothing else |
| Timers.TickKeepsInvariant | scripts.js:133-149 | a tick keeps the table invariant |
| Timers.RegisterKeepsInvariant | scripts.js:115-155 | registering keeps the invariant, because the stored handle is fresh |
| Timers.RegisterStopsPrevious | scripts.js:119-122 | registering stops the interval an earlier registration of the same id left running |
| Timers.RegisterEnded | scripts.js:124-128 | an event already started shows `Event has ended` and gets no running interval |
| Timers.RegisterStarts | scripts.js:132-154 | an event still ahead gets exactly one running interval under a fresh handle, and its display shows the countdown |
| Timers.RegisterLeavesOthers | scripts.js:115-155 | registering one id changes nothing about any other id |
| Timers.TickEnds | scripts.js:135-140 | with no time left the tick shows `Event has ended` and stops that interval |
| Timers.TickShowsTimeLeft | scripts.js:143-149 | with time left the tick only rewrites the id's text |
| Timers.TickLeavesOthers | scripts.js:132-150 | a tick leaves every other id alone |
| Timers.CancelRemoves | scripts.js:258-262 | cancelling stops the id's interval, deletes its key and leaves the other ids alone |
| Timers.CancelAllRemoves | scripts.js:255-262 | cancelling a sequence of ids leaves none of them in the table or running, and every other id as it was |
| Timers.KeyUntouched | scripts.js:255-262 | an id a sequence of cancellations never names keeps its entry |
| Timers.UnloadStopsAll | scripts.js:413-416 | the unload loop leaves no interval running |
| Timers.OnlyRegistrationRestarts | scripts.js:115-155 | once an id's interval is stopped, only a new registration of that id starts one again |
| Timers.CountdownRegistry.Tick | scripts.js:132-150 | the `tick` closure changes the registry as `Ticked` says and keeps it valid |
| Timers.CountdownRegistry.Register | scripts.js:115-155 | `updateCountdown` changes the registry as `Registered` says and keeps it valid |
| Timers.CountdownRegistry.Cancel | scripts.js:258-262 | the removal branch changes the registry as `Cancelled` says |
| Timers.CountdownRegistry.ClearAll | scripts.js:413-416 | the unload loop leaves no interval running |
| Reconcile.MakePlan | scripts.js:245-300 | a card leaves exactly when its id is not among the new ids; an event gets a new card exactly when its id was not present, and is refreshed otherwise; the status announces the event count |
| Reconcile.PlanPartitions | scripts.js:250-291 | removed, added and refreshed do not overlap, and every event is added or refreshed |
| Reconcile.PlanAddsInOrder | scripts.js:280-283 | the new cards are the events with new ids, in the order the events are given |
| Reconcile.RerenderRefreshesOnly | scripts.js:245-291 | re-rendering the events over their own cards removes and adds nothing and refreshes every card |
| Reconcile.FirstRenderAddsAll | scripts.js:280-283 | rendering into an empty container adds every event |
| Reconcile.RemovalStopsTimers | scripts.js:255-262 | after the removal loop, no removed id has an entry or a running interval, and every other id is as it was |
| Reconcile.StatusText | scripts.js:295-300 | the empty, singular and plural texts are told apart by their third character, their length and their last letters, and the plural text carries the count's digits after `Now showing ` |
| Reconcile.StatusTextInjective | scripts.js:295-298 | different counts are announced differently |
| Highlight.Scan | scripts.js:236-237 | every piece that gets wrapped has the length of the term and equals it ignoring case |
| Highlight.ScanIsLeftmost | scripts.js:236-237 | scanning from the left, a piece is wrapped exactly when the term occurs, ignoring case, where the piece starts; so every occurrence not overlapping an earlier wrapped one is wrapped |
| Highlight.ScanFlattens | scripts.js:237 | with the tags removed, the pieces are the text again |
| Highlight.RenderLength | scripts.js:237 | each wrapped occurrence adds exactly the 13 characters of its tags |
| Highlight.ScanMarksIffContains | scripts.js:236-237 | something is wrapped exactly when the lower-cased text contains the lower-cased term |
| Highlight.HighlightMatch | scripts.js:234-238 | an empty term gives the text back; otherwise the text grows by the 13 tag characters per wrapped occurrence, and keeps its length exactly when the term does not occur, ignoring case |
| Highlight.HighlightUnchangedIff | scripts.js:234-238 | the text comes back unchanged exactly when the term is empty or does not occur, ignoring case |
| Highlight.HighlightTagsRemoved | scripts.js:236-237 | the highlighted string is a rendering of pieces that flatten to the text |
| Page.FindCard | scripts.js:286 | `querySelector` finds the first card with the id, or reports that there is none |
| Page.Append | scripts.js:165-226 | a new card for the event, not leaving and under the next identity, is appended after the unchanged cards, and its countdown is registered |
| Page.Begin | scripts.js:247-269 | every card stays in place with its identity and id; it is leaving exactly when it was or its id is not among the new ids; every card's id is remembered |
| Page.FinishAsWritten | scripts.js:273-302 | the deferred part as written announces the count, empties the container when there are no events and otherwise keeps the cards in place |
| Page.StepFixed | scripts.js:280-291 | one corrected turn keeps the cards in place |
| Page.StepsFixed | scripts.js:280-292 | the corrected loop keeps the cards in place and the status as it was |
| Page.FinishFixed | scripts.js:273-302 | the corrected deferred part announces the count, empties the container when there are no events and otherwise keeps the cards in place |
| Page.Detach | scripts.js:264-268 | the first card with the identity, if any, is taken out and nothing else changes |
| Page.TickPage | scripts.js:132-150 | a countdown tick changes the table as `Ticked` says and leaves the cards alone |
| Page.RemovedIdsArePlanned | scripts.js:250-262 | the countdowns cancelled are exactly the plan's removals |
| Page.BeginFollowsPlan | scripts.js:247-269 | the immediate part marks exactly the plan's removals as leaving and remembers every card's id |
| Page.BeginKeepsCards | scripts.js:255-256 | marking keeps every card in place and every leaving card leaving; no id outside the new ones stays on show |
| Page.AppendKeepsInv | scripts.js:165-226 | adding a card for an event not on show keeps the page invariant, which includes that every card on show has a countdown that is running or says `Event has ended` |
| Page.AppendShowsCountdowns | scripts.js:165-226 | after an append every card on show, the new one included, has a countdown that is running or says `Event has ended` |
| Page.StepFixedKeepsInv | scripts.js:280-291 | one corrected turn keeps the page invariant |
| Page.FinishFixedKeepsInv | scripts.js:273-302 | the corrected deferred part keeps the page invariant |
| Page.BeginKeepsInv | scripts.js:250-269 | the immediate part keeps the page invariant |
| Page.DetachKeepsInv | scripts.js:264-268 | taking out a card keeps the page invariant |
| Page.TickPageKeepsInv | scripts.js:132-150 | a tick of a running countdown keeps the page invariant |
| Page.StepsFixedLive | scripts.js:280-291 | after the corrected loop an id is on show exactly when it was before or is one of the events |
| Page.RenderShowsExactly | scripts.js:245-302 | corrected, a render whose deferred part runs next shows exactly one card per event, no other card, and announces the count |
| Page.BeginSchedulesDeparting | scripts.js:264-268 | every detach scheduled is for a leaving card |
| Page.FinishFixedKeepsDeparting | scripts.js:273-302 | a leaving card stays leaving through the corrected deferred part |
| Page.DetachDepartingKeepsLive | scripts.js:264-268 | taking out a leaving card changes nothing about which events are on show |
| Page.StepsAsWrittenNoRevive | scripts.js:281-291 | as written, an id remembered at the call never gets back a card on show from its loop |
| Page.StepsAsWrittenAppends | scripts.js:281-283 | as written, an event whose id was not remembered gets a new card on show |
| Page.ExitWindowLosesEvent | scripts.js:247-291 | as written, an event whose card is still leaving when it is filtered back in is not on show afterwards |
| Page.DoubleRenderDuplicates | scripts.js:247-283 | as written, two renders within 10 ms both add a card for the same new event |
| Page.ExitWindowKeepsEvent | scripts.js:264-291 | corrected, the event is on show after the second render, and stays on show when the leaving card is taken out |
| Page.DoubleRenderShowsOnce | scripts.js:273-291 | corrected, two renders within 10 ms leave the event on show exactly once |
| Page.StaleFinishShowsUnwanted | scripts.js:245-302 | corrected, when two calls both begin before either's deferred part runs, an event only the first call selected stays on show while the status counts the second call's events |
| Page.EventPage.RenderEvents | scripts.js:247-269 | the immediate part on the container object is `Begin` of the old state |
| Page.EventPage.MarkAll | scripts.js:250-269 | the loop marks exactly the cards whose id is not among the new ids as leaving, cancels their countdowns in order and returns their identities |
| Page.EventPage.LeaveCard | scripts.js:255-262 | marks one card as leaving and cancels its countdown, and changes nothing else |
| Page.EventPage.AddCards | scripts.js:273-302 | the corrected deferred part on the container object is `FinishFixed` of the old state |
| Page.EventPage.AddAll | scripts.js:280-292 | the corrected loop over the events is `StepsFixed` of the old state and keeps the page valid |
| Page.EventPage.AddCard | scripts.js:280-291 | one corrected turn is `StepFixed` of the old state |
| Page.EventPage.AppendCard | scripts.js:282-283 | appending a new card on the container object is `Append` of the old state |
| Page.EventPage.DetachCard | scripts.js:264-268 | the detach is `Detach` of the old state |
| Page.EventPage.TickCountdown | scripts.js:132-150 | a countdown tick is `TickPage` of the old state |
| Theme.Applied | scripts.js:362-380 | the theme is as asked; a manual change stores `dark` or `light`; otherwise the stored choice is kept |
| Theme.AppliedConsistent | scripts.js:366-374 | the icon and label always match the theme |
| Theme.ApplyIdempotent | scripts.js:362-380 | applying the same theme again changes nothing |
| Theme.Initialized | scripts.js:385-396 | a stored choice decides the theme when there is one, the system preference otherwise; the stored entry is not written; icon and label match |
| Theme.Toggled | scripts.js:399-402 | the theme flips and the new one is stored as `dark` or `light`; icon and label match |
| Theme.InitialDarkIff | scripts.js:386-395 | start-up is dark exactly when the stored choice says `dark`, or there is none and the system prefers dark |
| Theme.ToggleTwice | scripts.js:399-402 | toggling twice gives back the theme, now stored |
| Theme.ToggleSurvivesReload | scripts.js:376-395 | what the toggle stores wins at the next start-up, whatever the system prefers |
| Theme.ThemeController.ApplyTheme | scripts.js:362-380 | the object's new state is `Applied` of the old one |
| Theme.ThemeController.InitializeTheme | scripts.js:385-396 | the object's new state is `Initialized` of the old one |
| Theme.ThemeController.Toggle | scripts.js:399-402 | the object's new state is `Toggled` of the old one |
| Calendar.StampDigits | scripts.js:77-86 | the fourteen digits of a stamp make up the year, the month counted from 1, the day, the hour, the minute and the second |
| Calendar.Stamp | scripts.js:77-86 | `formattedDate`: the year, then month (counted from 1), day, and after a `T` the hour, minute and second, each padded to two digits, and a closing `Z`; its meaning is stated by the round trip below |
| Calendar.StampRoundTrip | scripts.js:77-86 | a stamp of readable fields has 16 characters and parses back to those fields |
| Calendar.StampInjective | scripts.js:77-86 | different readable fields give different stamps |
| Calendar.UtcOf | scripts.js:79-84 | the UTC hour, minute and second are in range and give the time of day to within one second; year, month and day are the calendar date of the day number |
| Calendar.EndIsOneHourLater | scripts.js:88-90 | the end keeps the minute and second and is the next hour, or hour 0 of the next day when the start is in the last hour |
| Calendar.SplitJoin | scripts.js:92 | splitting the joined lines at the breaks gives the lines back |
| Calendar.Property | scripts.js:92 | a found property is the value of a line of that name |
| Calendar.PropertyOfTexts | scripts.js:92 | reading a property from the text finds the value of the first line with that name |
| Calendar.IcsContent | scripts.js:92 | the template text: the thirteen content lines joined with `\n`; what it carries is stated by the next row |
| Calendar.IcsCarriesEvent | scripts.js:88-92 | the calendar text is 13 lines from `BEGIN:VCALENDAR` to `END:VCALENDAR` whose UID, DTSTAMP, DTSTART, DTEND (one hour later), SUMMARY and DESCRIPTION read back the event's values |
| Calendar.StampHasNoBreak | scripts.js:77-86 | a stamp holds no line break |
| Calendar.DownloadName | scripts.js:100 | the name is the title with each whitespace character made `_`, then `.ics`; it holds no whitespace |
| Calendar.DownloadNameStable | scripts.js:100 | sanitising a sanitised name changes nothing, and titles differing only in their whitespace characters get the same name |

## Left out

- Events: the DOM is modelled as explicit values: card nodes, the container's children and the status region. Event listeners, `console.log`, the card's image, alt text, details markup and calendar button are not modelled.
- Highlight.Scan: reads the term as a literal string. `new RegExp` reads it as a pattern. A metacharacter such as `.` therefore matches more in the source, and a term such as `(` throws. Regular-expression semantics are not modelled.
- Text.LowerStr: lower-cases ASCII letters only. Unicode case mapping is out of scope.
- Timers.CountdownRegistry.Register: the source reads the clock twice, once for `difference` and once in the first `tick`. The model takes both readings as parameters. Timer scheduling is modelled as explicit steps (`Tick` and `DetachCard`) that may come in any order, not as a clock.
- Page.EventPage.AddCards: the removal of `card-enter` 400 ms after a card is made (scripts.js:220-223) only changes styling and is not modelled.
- Page.FinishFixed: the corrected deferred part fixes both windows shown below. It does not fix two calls that both begin before either's deferred part runs (begin A, begin B, finish A, finish B, with different events). Finish A adds a card for an event only A selected, and finish B marks nothing as leaving, so that card stays on show (`Page.StaleFinishShowsUnwanted`). The source does the same when that event had no card before A began. A fix would have to mark cards as leaving again in the deferred part.
- Page.Append: one clock reading `now` serves both reads of `updateCountdown` (scripts.js:116 and 133), and `Page.StepsFixed` uses the same reading for every card of one deferred part. In the source the clock moves between these reads. `Timers.Registered` takes the two readings separately.
- Theme.ThemeController.constructor: the toggle button's initial markup text lives in the HTML page and is not modelled. It starts empty.
- Calendar.UtcOf: the conversion from an epoch day to year, month and day is a parameter (`civil`), not Dafny code. Only the time-of-day arithmetic and the day offset are modelled.
- Calendar.StampRoundTrip: covers years of four digits, 1000 to 9999. Other years give stamps of other lengths, and those are not parsed.
- Calendar.IcsCarriesEvent: the text is joined with `\n`, exactly as the source does, not with the CRLF that section 3.1 of RFC 5545 prescribes. The source escapes no TEXT values and folds no long lines, and the model mirrors that. The read-back is proved for events whose title, description and speaker hold no line break, because a break inside a value would split it into further lines.
- Calendar: the `Blob`, the object URL and the temporary link that triggers the download are browser I/O and are not modelled.
- Events: `toLocaleDateString` in the card's details is locale formatting and is not modelled.

## Findings

| source | as written | input that shows it | evidently intended | confidence | as-written member | corrected member |
|---|---|---|---|---|---|---|
| scripts.js:247,264-268,281-291 | A card removed by one call stays in the container for 400 ms. A second call in that window remembers its id as existing, so it adds no card and only refreshes the leaving one, which is then detached. | Filter `Talk`, then `All` within 400 ms: the Workshop and Social cards are gone while the status says `Now showing 6 events.` | every event passed to `renderEvents` ends up with a card on show | not executed | Page.ExitWindowLosesEvent | Page.ExitWindowKeepsEvent |
| scripts.js:247,273-283 | The ids of the existing cards are read when the call starts, but the cards are appended 10 ms later. Two calls within 10 ms both see the event as new. | On an empty container, type two characters within 10 ms whose terms both match an event: its card is added twice | each event is shown by one card | not executed | Page.DoubleRenderDuplicates | Page.DoubleRenderShowsOnce |
