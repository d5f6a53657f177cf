# daily_mints: announcement parser and mint reminders, in Dafny

This project models the logic of the `daily_mints` Discord bot.

The bot reads announcements written in a small tag language and turns each one into an embed:

- A `[tituloinicio]…[titulofin]` span becomes a heading field.
- The text between headings is cut at `[eventoN]` markers.
- Each event segment is trimmed, then `[remember]` is captured and stripped.
- `[linki]URL[linke]LABEL` becomes a Markdown link, and `)(` becomes `) - (`.
- Each segment then becomes one field.

The segments tagged `[remember]` get a "Mint i" button. Pressing it stores a reminder for the `<t:SECONDS:F>` instant in the text. Once a minute a check sends a direct message for every pending reminder that is due within the next thirty minutes, and marks it `'notified'` when the message went out.

The modules are:

- `PyStr` (`pystr.dfy`): the Python `str` built-ins the code relies on, over `seq<char>`. These are `isspace`/`\s`, `in`, `strip`, `replace`, `split`/`join`, `str(n)` and `int(s)`.
- `Models` (`models.dfy`): the `Reminder` row, from the columns at models.py:15-22.
- `ReminderStore` (`reminder_store.dfy`): an in-memory class `Store` with the operations the call sites use: `add_reminder`, `check_reminder_exists`, `get_pending_reminders` and `update_reminder_status`.
- `ReminderTasks` (`reminder_tasks.dfy`), covering reminder_tasks.py:
  - `extract_event_time`;
  - `ReminderButton` with its `callback`, as the `Button` datatype and its `Callback` method;
  - `ReminderView.__init__`, as a class whose constructor loops over `AddItem`;
  - the selection and update loop of `reminder_check`, as the method `ReminderCheck`.
- `Markup` (`markup.dfy`): the parsing part of `on_message`.
  - main.py:66-88 and bot.py:38-60 are the same code line for line. The same members model both.
  - `Parse`, `ParseBlock`, `ParseEvents` and `RenderSegment` are the nested loops of the handler.
  - Each one is proved equal to a specification function (`ParseAnnouncement`, `BlockResult`, `EventsResult`, `RenderEvent`), and the lemmas state what those functions guarantee.

Every regular expression is a hand-written scanner. Each one tries a match at the head of the text, and otherwise keeps one character and moves on. That is the leftmost-first, non-overlapping search that `re.split`, `re.sub` and `str.replace` perform.

Representation choices:

- Instants are whole seconds since the Unix epoch (`int`).
- Discord ids and row keys are `nat`.
- The current time is a parameter of `ReminderCheck`.
- Sending a direct message is an oracle parameter `deliver`. It answers for each (user, text) pair whether a message came back (`Delivered`), a falsy value (`NoMessage`) or an exception (`Raised`).

### Where the intended behaviour and the code differ (the model follows the code)

- **Malformed heading.** The intended behaviour is that a block which only looks like a heading is shown as ordinary text. A block can contain both markers in the wrong order, for example a trailing `[titulofin] … [tituloinicio]`. It passes the test at main.py:71. Then `re.search(...)` returns `None` and `.group(1)` raises, so the whole handler stops and nothing is sent. `BlockResult` returns `Failure(NoTitleMatch(...))` here.
- **Heading with a line break.** The intended behaviour is that any `[tituloinicio]…[titulofin]` span becomes a heading. The split at main.py:67 passes `re.DOTALL`, but the search at main.py:72 (bot.py:44) does not, so its `.` stops at `'\n'`. A heading span whose text holds a line break is cut out by the split. Then the search either finds nothing, so the handler raises (`BrokenHeadingRaises` for `[tituloinicio]a\nb[titulofin]`), or it matches from a later `[tituloinicio]` on the last line of the span, and the field is named after the text that follows it (`HeadingWithBreak`). `ParseFailsIff` shows that the handler raises exactly in these two cases: a malformed last piece, or a heading span broken in this way.
- **Bold rule.** The intended behaviour is that the first token of every event is bolded. The bold rule at main.py:78 needs an `[eventoN]` marker in the segment. The split at main.py:75 has already removed it, so the rule never changes anything (`BoldWithoutMarker`, `SegmentRendering`).
- **`[remember]` stripping.** The intended behaviour is that the tag never reaches the embed. The stripping at main.py:82 is a single `str.replace` pass, and `[rem[remember]ember]` becomes `[remember]` (`RememberStripIsOnePass`), so the emitted text can still contain the tag.
- **Duplicate reminders.** The intended behaviour is that the store holds at most one reminder per (user, event), enforced by the table. The code only calls `check_reminder_exists` before inserting. The model proves that this check keeps one row per (user, button) when presses are handled one after another (`PressesKeepOnePerUser`).
- **Event time in the past.** The intended behaviour is that a stored `event_time` lies in the future. The callback does not check this: a press stores whatever instant the text holds.

## Model

| member | source | states |
|---|---|---|
| Markup.OnMessage | main.py:66-88 | returns the parse result of the message, and builds a view exactly when the parse succeeded with a non-empty button list; the view then holds one button per captured segment, in order; when the parse raises (`ParseFailsIff`: a malformed last piece or a heading span broken by a line break) nothing is built |
| Markup.Parse | bot.py:39-58 | the outer loop over the heading split equals `ParseAnnouncement`: blocks in split order, fields and button texts appended in order, the first block on which the non-DOTALL search of bot.py:44 fails ends the handler with its error |
| Markup.ParseBlock | main.py:71-86 | one pass of the outer loop equals `BlockResult`: a block that passes the line-71 test gives one field named by the text of the line-72 match, which does not cross a line break, or fails when that search finds no match; any other block gives its events |
| Markup.ParseEvents | main.py:76-86 | the loop over `range(1, len(eventos), 2)` equals `EventsResult`: one field per marker, built from the piece that follows it |
| Markup.RenderSegment | main.py:77-85 | the step-by-step rewriting of one segment equals `RenderEvent`: trim, bold, capture and strip `[remember]`, rewrite links, separate `)(` |
| Markup.TitleMatch | main.py:67 | a span found by the DOTALL search that drives the split lies inside the text, with the closing marker after the opening one |
| Markup.TitleMatchFound | main.py:67 | the DOTALL match is leftmost: the opening marker at the reported place and none before it; the closing marker is the first one after the opening marker (the lazy `.*?`), line breaks included |
| Markup.LineSpanAt | main.py:72 | a match of the line-72 pattern from a given position ends at a closing marker inside the text, after the opening marker |
| Markup.LineSpanAtSpec | main.py:72 | a match from a position is found exactly when one exists: an opening marker there, and the first closing marker after it reached without a line break |
| Markup.HeadingSearch | main.py:72 | `re.search` without DOTALL reports a span inside the text, with the closing marker after the opening one |
| Markup.HeadingSearchFound | main.py:72 | the line-72 match is the leftmost opening marker from which the first closing marker is reached without crossing `'\n'`; no match starts earlier |
| Markup.HeadingSearchNone | main.py:72 | the line-72 search finds nothing exactly when no opening marker is followed by a closing marker on the same line |
| Markup.TitleMatchNone | main.py:67 | the DOTALL search finds nothing exactly when no opening marker is followed, on any line, by a closing marker |
| Markup.SplitTitles | main.py:67 | the split with one capture group always has an odd number of pieces |
| Markup.SplitTitlesJoin | main.py:67 | joining the pieces of the heading split gives back the message: nothing is lost or duplicated |
| Markup.SplitTitlesHeading | main.py:67 | every odd piece of the split is a whole heading span: opening marker, text with no closing marker, closing marker |
| Markup.SplitTitlesText | main.py:67 | every even piece except the last holds no opening marker |
| Markup.SplitTitlesLast | main.py:67 | the last piece holds no opening marker that a closing marker follows |
| Markup.MatchedSpanIsTitle | main.py:67 | the span the split cuts out is a heading span |
| Markup.HeadingBlock | bot.py:43-45 | a heading span is the opening marker, its inner text and the closing marker; when the inner text holds no line break it becomes exactly one field named by that untrimmed inner text, with an empty value and no button text |
| Markup.HeadingWithBreak | main.py:71-73 | a heading span whose inner text holds a line break raises exactly when the line-72 search finds no match in it; otherwise the match starts at a later opening marker on the span's last line, and the one field is named by the text after it |
| Markup.BrokenHeadingRaises | main.py:71-73 | `[tituloinicio]a\nb[titulofin]` makes the block raise `NoTitleMatch` |
| Markup.BlockFails | main.py:71-72 | a block raises exactly when it contains both marker strings and the pattern matches nowhere without crossing a line break |
| Markup.InnerPieceRaises | main.py:70-73 | a piece of the heading split other than the last raises exactly when it is a heading span on which the line-72 search fails, and such a span has a line break in its inner text; text pieces never raise |
| Markup.ParseFailsIff | main.py:67-73 | the whole parse raises exactly when the last piece of the heading split contains both marker strings, or an earlier heading span is broken by line breaks so that the line-72 search fails; the last piece never holds a real span |
| Markup.BlocksFailIff | main.py:70-86 | the outer loop fails exactly when one of its blocks fails |
| Markup.FailureIsFinal | main.py:70-86 | once a block has raised, later blocks change nothing |
| Markup.BlocksResult | main.py:70-86 | the outer `for bloque in bloques` loop as a fold over the blocks in order: an error is always the error of one of the blocks; `BlocksFailIff`, `FailureIsFinal` and `BlocksResultStep` state when it fails and how it grows |
| Markup.BlocksResultStep | main.py:70-86 | one more block appends its fields and button texts to what came before, unless one of them failed |
| Markup.BlockResult | main.py:71-86 | only a block that passes the line-71 test can raise, and such a block that does not raise gives exactly one field and no button text; `BlockFails`, `HeadingBlock` and `HeadingWithBreak` state the rest |
| Markup.ParseAnnouncement | main.py:67-86 | the blocks of the heading split, folded in order; `ParseFailsIff`, `BlocksFailIff` and `FailureIsFinal` state when it raises, and `BlocksResultStep` how it grows |
| Markup.MarkerAtHead | main.py:75 | a marker found at the head is at least as long as `[evento`, one digit and `]`, and lies inside the text |
| Markup.MarkerAtHeadSpec | main.py:75 | the head scanner finds a marker exactly when one starts the text, and reports its one possible end (the digit run is greedy) |
| Markup.FirstMarker | main.py:75 | a found marker is a non-empty slice of the text |
| Markup.FirstMarkerFound | main.py:75 | the reported marker is a marker, and no marker starts before it |
| Markup.FirstMarkerNone | main.py:75 | no marker is reported exactly when the text holds none |
| Markup.SplitOnMarkers | main.py:75 | the marker split always has an odd number of pieces |
| Markup.SplitOnMarkersJoin | main.py:75 | joining the pieces of the marker split gives back the block |
| Markup.SplitOnMarkersMarker | main.py:75 | every odd piece of the marker split is a marker |
| Markup.SplitOnMarkersSegment | main.py:75-77 | every even piece, and so every event segment, holds no marker |
| Markup.NoMarkerNoEvents | main.py:74-76 | a non-heading block with no marker adds no field and no button text |
| Markup.EventsResult | main.py:76 | a split of `2n + 1` pieces gives exactly `n` event fields |
| Markup.Events | main.py:76-86 | the first `k` events give exactly `k` fields |
| Markup.EventsStep | main.py:76-86 | one more event appends the field and the button texts of the segment after the next marker |
| Markup.EventsIgnoreLeadingText | bot.py:47-49 | the text before the first marker has no effect on the fields or the button list |
| Markup.EventsShape | main.py:76-86 | every event field is unnamed; each segment adds at most one button text, and each one carries `[remember]` |
| Markup.RenderEvent | main.py:77-85 | one event segment, trimmed, bolded, tag-captured and stripped, link-rewritten and `)(`-separated; `RenderEventShape`, `SegmentRendering` and `PlainSegment` state what it gives |
| Markup.RenderEventShape | main.py:80-85 | a rendered segment never shows `)(`, and adds at most one button text, which carries `[remember]` |
| Markup.SegmentRendering | bot.py:49-57 | for a segment from the split, the bold step is the identity; the segment is captured as trimmed exactly when it holds `[remember]`, before the link rewrite; the value is the tag-stripped, re-trimmed text with links and then `)(` rewritten, in that order |
| Markup.PlainSegment | main.py:77-85 | a segment with no tag, link opener or `)(` becomes its trimmed text and adds no button text |
| Markup.Bold | main.py:78 | `re.sub` of the bold pattern, scanned left to right; `BoldWithoutMarker` states that it is the identity on segments, which hold no marker |
| Markup.BoldWithoutMarker | main.py:78 | the bold substitution changes nothing in a text without a marker |
| Markup.BoldAtHead | main.py:78 | a bold match at the head needs a marker at the head and consumes part of the text |
| Markup.NonSpaceRun | main.py:78 | the `\S+` run is the longest prefix with no white space |
| Markup.UrlRun | main.py:84 | the URL run is the longest prefix with no white space and no `[` |
| Markup.LinkAtHead | main.py:84 | a link match at the head starts with `[linki]` and consumes part of the text |
| Markup.LinkAtHeadOf | main.py:84 | `[linki]URL[linke]LABEL` followed by white space or the end is matched whole and becomes `[LABEL](URL)` |
| Markup.RewriteOneLink | main.py:84 | the rewrite turns such a link into `[LABEL](URL)` and goes on after it |
| Markup.RewriteLinksAbsent | main.py:84 | a text without `[linki]` is left unchanged |
| Markup.RewriteLinks | main.py:84 | `re.sub` of the link pattern, scanned left to right; `RewriteOneLink`, `RewriteLinkAfterText`, `RewriteLinksKeepsPrefix` and `RewriteLinksNoLink` state what it does |
| Markup.LinkAtHeadParts | main.py:84 | what the head scanner matches is a whole link: `[linki]`, an `http(s)://` URL without white space or `[`, `[linke]`, and a caption of non-space characters that ends at white space or the end |
| Markup.LinkAtMatches | main.py:84 | a whole link at the head is matched and replaced by `[LABEL](URL)` |
| Markup.LinkAtHeadIff | main.py:84 | the scanner matches at the head exactly when a whole link starts there; a `[linki]` with another scheme, no `[linke]` or an empty caption is no match |
| Markup.RewriteLinksSkip | main.py:84 | where no link starts, the first character is kept and the scan moves on by one |
| Markup.RewriteLinksNoLink | main.py:84 | a text in which no whole link starts anywhere is left unchanged, whatever `[linki]` it holds |
| Markup.RewriteLinksKeepsPrefix | main.py:84 | text in which no link starts before a point is copied unchanged up to that point |
| Markup.RewriteLinkAfterText | main.py:84 | leading text without `[` is kept, and the link after it is rewritten to `[LABEL](URL)` |
| Markup.NoLinkWithoutBracket | main.py:84 | no link starts at a character other than `[` |
| Markup.UrlRunOf | main.py:84 | a URL made of allowed characters and followed by `[` is taken whole |
| Markup.NonSpaceRunOf | main.py:84 | a label with no white space, followed by white space or the end, is taken whole |
| Markup.NoParenJoinLeft | main.py:85 | after the rewrite no `)(` is left |
| Markup.RememberStripIsOnePass | main.py:82 | stripping `[remember]` from `[rem[remember]ember]` leaves `[remember]`, because the replace makes one pass |
| PyStr.Strip | main.py:77 | the result is the text with its leading and trailing `isspace` characters removed, and starts and ends with a non-space character |
| PyStr.StripIdempotent | main.py:82 | a general fact about `str.strip`, not used by the rest of the model: trimming twice is trimming once |
| PyStr.ContainsStrip | main.py:80 | anything found in the trimmed text is also in the untrimmed one |
| PyStr.Replace | main.py:82-85 | `str.replace`, scanning left to right; `ReplaceIsJoinOfSplit`, `ReplaceAbsent`, `ReplaceBySelf` and `ReplaceKeepsPrefix` state what it does |
| PyStr.ReplaceIsJoinOfSplit | main.py:82-85 | `s.replace(p, r)` equals `r.join(s.split(p))`: every occurrence is replaced, left to right, without overlap |
| PyStr.ReplaceAbsent | main.py:82 | replacing a string that does not occur changes nothing |
| PyStr.ReplaceBySelf | main.py:82-85 | replacing a string by itself changes nothing |
| PyStr.SplitJoinRoundTrip | main.py:82-85 | a general fact about `str.split` and `str.join`, not used by the rest of the model: joining the split with its own separator gives back the text |
| PyStr.ReplaceKeepsPrefix | main.py:82-85 | text before the first occurrence is copied unchanged |
| PyStr.Find | main.py:72 | a found position leaves room for the pattern |
| PyStr.FindSome | main.py:72 | a found position holds the pattern, and no earlier position does |
| PyStr.FindNone | main.py:72 | nothing found means the pattern does not occur |
| PyStr.NatToString | reminder_tasks.py:42-43 | `str(n)` is a non-empty run of digits with no leading zero |
| PyStr.DigitsValueOfNatToString | reminder_tasks.py:16 | `int(str(n)) == n` |
| PyStr.NatToStringInjective | reminder_tasks.py:42 | distinct numbers have distinct decimal forms |
| PyStr.DigitRun | reminder_tasks.py:14 | the `\d+` run is the longest prefix of digits |
| ReminderTasks.TagAtHead | reminder_tasks.py:14 | a tag found at the head lies inside the text and has digits between `<t:` and `:F>` |
| ReminderTasks.TagAtHeadFound | reminder_tasks.py:14 | what the head scanner finds is a `<t:DIGITS:F>` tag |
| ReminderTasks.TagAtHeadShape | reminder_tasks.py:14 | a tag at the head is always found, with its end |
| ReminderTasks.ExtractEventTime | reminder_tasks.py:13-18 | the number of the first `<t:DIGITS:F>` tag, or none; `ExtractNone`, `ExtractFirstTag` and `ExtractFormatted` state what it gives |
| ReminderTasks.ExtractNone | reminder_tasks.py:13-18 | no event time exactly when the text holds no `<t:DIGITS:F>` tag |
| ReminderTasks.ExtractFirstTag | reminder_tasks.py:13-18 | the event time is the number in the first tag of the text |
| ReminderTasks.ExtractFormatted | reminder_tasks.py:14-16 | the tag for any instant gives that instant back |
| ReminderTasks.NoStyleLetter | reminder_tasks.py:14 | a text without the letter `F` has no event time |
| ReminderTasks.RelativeStyleIgnored | reminder_tasks.py:14 | `<t:123:R>` has no event time: only the `F` style matches |
| ReminderTasks.ReminderView.constructor | reminder_tasks.py:39-43 | the view holds one button per text, in order, built by the enumerate loop |
| ReminderTasks.ReminderView.AddItem | reminder_tasks.py:43 | adding a button appends it to the view's children |
| ReminderTasks.ButtonsFor | reminder_tasks.py:41-43 | one button per eligible text |
| ReminderTasks.ButtonsForSnoc | reminder_tasks.py:41-43 | the loop's next button is numbered by its position in the list |
| ReminderTasks.ButtonNumbering | reminder_tasks.py:42-43 | the i-th button (from 0) keeps its text, reads `Mint i+1` and has id `reminder_i+1`, numbered by list position |
| ReminderTasks.ButtonIdsDistinct | reminder_tasks.py:42 | the buttons of one view have distinct ids |
| ReminderTasks.Button.Callback | reminder_tasks.py:25-36 | a press changes the store and replies exactly as `Press` says, keeps keys distinct, and uses up a key exactly when a reminder is set, so a run of presses is the fold `Presses` |
| ReminderTasks.Press | reminder_tasks.py:25-36 | the reply and the rows after one press; `PressEffect`, `PressKeepsOnePerUser`, `PressesKeepOnePerUser` and `PressTwice` state what it does |
| ReminderTasks.PressEffect | reminder_tasks.py:26-36 | without an event time, no reply and no row; otherwise the user ends up with a reminder for the button; a row with the interaction's ids, the button's id and the event time is appended exactly when the reply says it was set, and the reply shows thirty minutes before that time |
| ReminderTasks.PressKeepsOnePerUser | reminder_tasks.py:28-35 | a press keeps at most one row per (user, button id) |
| ReminderTasks.PressesKeepOnePerUser | reminder_tasks.py:28-35 | any sequence of presses handled one after another keeps at most one row per (user, button id) |
| ReminderTasks.PressTwice | reminder_tasks.py:26-30 | the same user pressing the same button again adds no row, and replies "already set" (or nothing, when the text has no event time) |
| ReminderTasks.ReminderCheck | reminder_tasks.py:50-70 | one tick leaves the rows as `CheckRows` of the pending rows and attempts a send for exactly `Attempts` of them, in order; keys stay distinct |
| ReminderTasks.CheckRows | reminder_tasks.py:53-70 | handling the reminders keeps the number of rows: nothing is inserted or deleted |
| ReminderTasks.CheckStep | reminder_tasks.py:53-70 | one more reminder marks its row `'notified'` when its message was delivered, and adds its send when it was due |
| ReminderTasks.CheckRowsAt | reminder_tasks.py:53-70 | a row ends up `'notified'` exactly when a handled reminder with its key fired; nothing else in it changes |
| ReminderTasks.IsDue | reminder_tasks.py:54-56 | pending, and the event at most thirty minutes ahead but not yet begun; `CheckOutcome`, `AttemptsMembers` and `NotifiedOnce` use it |
| ReminderTasks.Fires | reminder_tasks.py:56-65 | due, and the direct message came back; `CheckOutcome` and `CheckRowsAt` use it |
| ReminderTasks.MessageLink | reminder_tasks.py:60 | the link to the announcement message from the stored guild, channel and message ids |
| ReminderTasks.DmText | reminder_tasks.py:61 | the direct message names the button id and links to the announcement; `AttemptsMembers` states which ones are sent |
| ReminderTasks.CheckOutcome | reminder_tasks.py:56-70 | a row is marked `'notified'` exactly when it was pending, 0 < event_time - now <= 1800 and its message came back; otherwise (not due, no message, an exception) it is left as it was, whatever happened to other rows |
| ReminderTasks.NotifiedOnce | reminder_tasks.py:56-65 | a reminder notified in one tick is never due in a later tick |
| ReminderTasks.AttemptsOfPending | reminder_tasks.py:50-56 | the sends attempted are the same as if every row of the table were scanned: fetching the pending rows first changes nothing, because the loop tests the status again |
| ReminderTasks.Attempts | reminder_tasks.py:56-62 | the (user, text) pairs `user.send` is called with, in loop order, at most one per reminder; `AttemptsMembers` states that a pair is attempted exactly for a due reminder, `AttemptsOfPending` that prefetching the pending rows does not change them |
| ReminderTasks.AttemptsMembers | reminder_tasks.py:56-62 | a (user, text) pair is attempted exactly when it belongs to a due reminder |
| ReminderTasks.FiredForSnoc | reminder_tasks.py:53-65 | one more reminder handled fired for a key exactly when it or an earlier one did |
| ReminderTasks.AttemptedForSnoc | reminder_tasks.py:53-62 | one more reminder handled was attempted exactly when it or an earlier one was |
| ReminderStore.PendingOf | reminder_tasks.py:50 | the pending rows are exactly the table's rows with status `'pending'` |
| ReminderStore.PendingIndex | reminder_tasks.py:50 | each pending row is a row of the table |
| ReminderStore.SetStatus | reminder_tasks.py:65 | the update changes the status of the rows with that key and nothing else |
| ReminderStore.SameIdSameRow | models.py:15 | with distinct keys, a key names one row |
| ReminderStore.Store.constructor | models.py:13-22 | a new store is empty and valid |
| ReminderStore.Store.ReminderExists | reminder_tasks.py:28 | `check_reminder_exists`: some row has that user and button id; `PressEffect` and `PressKeepsOnePerUser` rely on it |
| ReminderStore.Store.PendingReminders | reminder_tasks.py:50 | `get_pending_reminders`: the pending rows in table order, as `PendingOf` states |
| ReminderStore.Store.AddReminder | reminder_tasks.py:35 | an insert appends one `'pending'` row with the given columns under a fresh key |
| ReminderStore.Store.UpdateReminderStatus | reminder_tasks.py:65 | the update sets the status of the row with that key and changes nothing else |

## Left out

- Discord I/O is not modelled: the gateway, `bot.run`, `on_ready`, the error handlers, `process_commands`, and the send loop to the destination channels (main.py:91-96, bot.py:63-68).
- The author and channel filter at the start of `on_message` (main.py:62-64) is not modelled. `OnMessage` starts where that filter has let a message through.
- Logging, `.env` loading and `os.getenv` are configuration only.
- `cleanup_past_reminders` (reminder_tasks.py:73-81) is not modelled. `delete_past_reminders` is not part of this model, so what it deletes is unknown.
- `database_operations` is not part of this model. `Store` assumes the following:
  - `add_reminder` inserts one `'pending'` row under a fresh key;
  - `check_reminder_exists` looks for a row with that user and custom id;
  - `get_pending_reminders` returns the `'pending'` rows in table order;
  - `update_reminder_status` sets the status of the row with that key.
- Database exceptions are not modelled. An exception in the callback propagates; the outer `try` of `reminder_check` (reminder_tasks.py:71-72) catches a failing fetch.
- ReminderTasks.ExtractFirstTag: states the instant for every digit string. `datetime.utcfromtimestamp` raises for instants beyond the year 9999, and the callback then stops without a reply; this is not modelled.
- Python's `\d` also matches non-ASCII decimal digits. The scanners for `[eventoN]` and `<t:…:F>` accept ASCII digits only.
- ReminderTasks.CheckOutcome: `now` is a whole second. `datetime.utcnow()` has microseconds and `total_seconds()` is a float, so the window boundaries are stated for whole-second instants only.
- ReminderTasks.Button.Callback: the confirmation reply is modelled as the instant it shows (`event_time - 30 min`), not as the formatted `datetime` text. The ephemeral flag is left out.
- ReminderTasks.ReminderView.constructor: discord.py refuses a view with more than 25 items. The model builds a button for every eligible text.
- Button style, the emoji, the embed colour and `inline=False` are display only.
- `user_id` is a `String(255)` column (models.py:16), but it is modelled as the numeric Discord id that the code passes in.
- `tasks.loop` timers, async scheduling and concurrent button presses are not modelled. The code has no atomicity, so `PressesKeepOnePerUser` holds only for presses handled one after another.
- Direct-message delivery (`fetch_user`, `user.send`) is the oracle `deliver`. It depends on the user and the text only.
