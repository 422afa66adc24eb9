# DeepSeek-R1 chat front end: the reasoning splitter and its driver

`app.py` is a Gradio chat page in front of a streaming chat-completion API. A
reply mixes hidden reasoning, written between `<think>` and `</think>`, with the
answer. The page shows the reasoning in a collapsible block, with a status line
that times the thinking, and shows the answer below it. This project models the
logic behind that display, in five modules:

- `Text` (text.dfy): the parts of Python's string library the code relies on.
  These are `str.find`, `str.replace`, `str.join`, `str.strip` with Python's
  whitespace set, and `str(n)` for a non-negative integer.
- `TimeFormat` (time_format.dfy): `format_time`, from the already rounded number
  of seconds onward.
- `Parser` (parser.dfy): `ParserState` as a class with its six fields (`answer`, `thought`, `in_think`,
  `start_time`, `last_pos`, `total_think_time`), and
  `parse_response` as a method whose `while` loop is proved against the pure
  function `Scan`. The clock is an integer argument `now`, read once per call.
- `Render` (render.dfy): `format_response` and the `"\n\n".join(...)` that
  builds the assistant message.
- `Chat` (chat.dfy): `user` as a function with an error result, and
  `generate_response` as four methods, two of them with loops (`BuildMessages`,
  `StreamChunks`), then `FinishTurn` and `GenerateResponse`, proved against the
  pure function `Respond`. The API client is replaced by a
  `Stream` value. A stream lists its chunk contents. It also gives the
  cancellation flag as read before each chunk, the clock at each parse, and how
  the stream ends (finished, or failed with an error).

Three behaviours of the code are easy to misread. The model follows the code:

- An empty history returns (app.py:244-245) before the `try`/`finally`. So the
  flag is not cleared in that case; `Chat.Respond` keeps it unchanged.
- A marker split across two chunks is not recovered. The cursor jumps to the
  end of the text (app.py:189), and the first piece is already stored. See
  `Parser.SplitMarkerNotRecovered`.
- The answer shown can still contain a marker. The single `replace` pass
  (app.py:218) can assemble one. See `Render.StrippedAnswerMayHoldMarker`.

## Model

| member | source | states |
|---|---|---|
| `Text.Find` | app.py:193 | `str.find`: the result is -1 or an index where the pattern occurs, and no earlier index holds an occurrence |
| `Text.FindBounds` | app.py:193-203 | a found index leaves room for the whole pattern; -1 exactly when the pattern occurs nowhere |
| `Text.Replace` | app.py:218 | `str.replace` for a non-empty pattern; replacing by the empty string never lengthens the text |
| `Text.ReplaceIsLeftmost` | app.py:218 | the find-based replacement equals the position-by-position one: at each position a match is replaced, otherwise the character is kept |
| `Text.ReplaceAbsent` | app.py:218 | with no occurrence of the pattern, `replace` returns the text unchanged |
| `Text.Join` | app.py:284 | `str.join`: empty for no parts, starts with the first part, and its length is the parts' lengths plus one separator between each two |
| `Text.JoinSmall` | app.py:284 | joining one part gives it back; joining two puts the separator between them |
| `Text.Strip` | app.py:238 | `message.strip()` is a slice of the message with only whitespace before and after it, neither starts nor ends with whitespace, and is empty exactly when every character is whitespace |
| `Text.NatToString` | app.py:14 | `str(n)` is a non-empty string of decimal digits with no leading zero unless `n` is 0 |
| `Text.ParseNatToString` | app.py:14 | reading back the digits `str(n)` writes gives `n` |
| `TimeFormat.FormatTime` | app.py:6-18 | the rendered duration is never empty and always ends with the seconds letter `s` |
| `TimeFormat.Clock` | app.py:8-11 | hours, minutes and seconds recombine to the count, with minutes and seconds below 60 |
| `TimeFormat.Significant` | app.py:13-18 | the units kept are a non-empty suffix of hours, minutes, seconds; every unit dropped is zero, and the first unit kept is non-zero unless it is the seconds |
| `TimeFormat.FormatTimeOmitsLeadingZeros` | app.py:6-18 | `format_time(n)` is the space-separated `{count}{letter}` groups from the first non-zero unit on, seconds always written |
| `TimeFormat.FormatTimeSeconds` | app.py:17-18 | 0 and 5 seconds render as `0s` and `5s` |
| `TimeFormat.FormatTimeMinutes` | app.py:15-16 | 60 and 65 seconds render as `1m 0s` and `1m 5s` |
| `TimeFormat.FormatTimeHours` | app.py:13-14 | 3600 and 3661 seconds render as `1h 0m 0s` and `1h 1m 1s` |
| `TimeFormat.FormatTimeNegative` | app.py:8-11 | floor division makes -5 seconds render as `59m 55s` |
| `Parser.Unscanned` | app.py:188 | `text[last_pos:]` is a suffix of the text, `len(text) - last_pos` long when the cursor is inside it, empty past the end |
| `Parser.ParserState` | app.py:177-185 | the splitter's state is an object with the six fields answer, thought, in-span flag, span start, total think time and cursor, updated in place by `ParseResponse` |
| `Parser.ParserState.constructor` | app.py:177-185 | a new state has empty answer and thought, no open span, zero times and the cursor at 0 |
| `Parser.ParseResponse` | app.py:187-215 | the loop leaves the fields as `Scan` of the old fields and the unscanned text, moves the cursor to the end, returns the open span's elapsed time, and a repeated call with the same text changes no field |
| `Parser.Scan` | app.py:191-212 | the `while buffer:` loop as a function: the answer and the thought together gain at most the scanned text, and a span is open afterwards but not before only when the text holds a `<think>` |
| `Parser.Elapsed` | app.py:214 | the returned elapsed time is zero unless a span is open, and not negative when the clock is not behind the span's start |
| `Parser.ScanIsPartition` | app.py:191-212 | the answer gains exactly the text outside the spans and the thought exactly the text inside, markers removed, and the final mode is the one the position-by-position split ends in |
| `Parser.FreshScanSplits` | app.py:177-212 | from a fresh state, one call splits the whole text into outside and inside text |
| `Parser.ScanAppends` | app.py:195-211 | the old answer and the old thought are prefixes of the new ones |
| `Parser.UnmatchedCloseStaysInAnswer` | app.py:192-201 | outside a span, a text without `<think>` goes to the answer verbatim, any `</think>` included |
| `Parser.UnclosedSpanStaysInThought` | app.py:202-212 | inside a span, a text without `</think>` goes to the thought and the span stays open |
| `Parser.ScanThinkTime` | app.py:196-209 | the think time grows by `now - start_time` exactly when the span open on entry is closed, and by nothing otherwise; a span opened in the call starts at `now` |
| `Parser.ScanThinkTimeGrows` | app.py:206-214 | when a span open on entry started no later than the clock, the think time never decreases, a span open afterwards started no later than the clock, and the returned elapsed time is not negative |
| `Parser.PiecesWithoutOpenStayInAnswer` | app.py:188-201 | two calls whose new pieces hold no `<think>` put both pieces in the answer, even when together they spell a marker |
| `Parser.SplitMarkerNotRecovered` | app.py:188-198 | `<` then `think>` ends with answer `<think>` and no span, while one call on `<think>` opens a span |
| `Render.Status` | app.py:222-228 | the status line starts with the thinking icon while a span is open and with the light bulb otherwise, and ends with the formatted time and `)`: the total think time plus the elapsed time while a span is open, the total think time otherwise |
| `Render.Block` | app.py:230-233 | the block starts with `<details><summary>`, holds the status line after it, then the body's opening tag, then the thought verbatim, and ends with `</div></details>` |
| `Render.StripMarkers` | app.py:218 | removing the markers never lengthens the answer |
| `Render.FormatResponse` | app.py:217-235 | at most one block, none exactly when the thought is empty and no span is open, the block is the status line and the thought, and the answer part is no longer than the answer |
| `Render.AnswerWithoutMarkersUnchanged` | app.py:218 | an answer with neither marker is shown unchanged |
| `Render.StripMarkersPositionwise` | app.py:218 | the two removals equal the position-by-position deletion of `<think>`, then of `</think>` |
| `Render.StrippedAnswerMayHoldMarker` | app.py:218 | `<th<think>ink>` is shown as `<think>` |
| `Render.Content` | app.py:284 | `"\n\n".join(...)`: without a block the message is the answer part; with one, it starts with the block |
| `Render.ContentShape` | app.py:284 | without a block the message is the answer part; with one, the block, a blank line, then the answer part |
| `Render.ContentEndsWithAnswer` | app.py:284 | the message always ends with the answer part |
| `Chat.Prior` | app.py:240 | `history or []`: empty exactly when the history is `None` or empty, and the history itself otherwise |
| `Chat.User` | app.py:237-241 | a whitespace-only message fails with `请输入有效的消息`; otherwise the box is cleared and the history, `None` read as empty, gains exactly one user entry at the end |
| `Chat.UserStartsHistory` | app.py:240-241 | with no history, `user` starts one that holds just the message |
| `Chat.Request` | app.py:247-256 | the request is the history, preceded by a system entry exactly when the system prompt is non-empty |
| `Chat.BuildMessages` | app.py:247-256 | the copy loop builds exactly that request |
| `Chat.Consume` | app.py:276-285 | the loop only extends the accumulated text and only appends to the yields |
| `Chat.StreamChunks` | app.py:258-285 | the loop over a fresh `ParserState` ends in the state, text and yields of `Consume`, stopped exactly when the flag was read cleared, with the cursor at the end of the text and the assistant entry holding the last yield |
| `Chat.Outcome` | app.py:287-298 | after the loop at most one more yield is added, and the earlier ones are kept; nothing is added exactly when the loop was stopped or the flag read at line 287 is cleared |
| `Chat.FinishTurn` | app.py:287-298 | the statements after the loop add exactly the yield `Outcome` adds, the assistant entry holds the last yield, and the final parse leaves the splitter's fields and cursor unchanged |
| `Chat.Respond` | app.py:243-300 | an empty history yields nothing and keeps the flag; otherwise the request is built, exactly one assistant entry is appended and holds the last yield, and the flag ends cleared |
| `Chat.GenerateResponse` | app.py:243-300 | the imperative driver produces exactly the request, history, yields and flag of `Respond` |
| `Chat.ConsumeIgnoresAfterStop` | app.py:276-278 | chunks after the first one read with the flag cleared make no difference |
| `Chat.ConsumeStopsBeforeInactive` | app.py:276-278 | the first chunk read with the flag cleared is not parsed: the loop ends as it stood after the chunks before it, marked stopped |
| `Chat.ConsumeStopsAtInactive` | app.py:277-278 | a chunk read with the flag cleared stops the loop |
| `Chat.ConsumeRunsToEnd` | app.py:276-285 | with the flag set for every chunk the loop is not stopped |
| `Chat.ConsumeSkipsEmpty` | app.py:280 | an empty chunk read with the flag set changes nothing and yields nothing |
| `Chat.ConsumeAppends` | app.py:281-282 | over the stream the answer and the thought only grow |
| `Chat.ConsumeThinkTimeGrows` | app.py:282 | with a clock that never goes back, and not behind the start of a span open on entry, the think time never decreases over the stream |
| `Chat.DisplayEndsWithAnswer` | app.py:282-284 | every rendering yielded after a parse ends with the answer, markers removed |
| `Chat.FinishedShowsFinalParse` | app.py:287-291 | a finished stream with the flag still set yields last the final parse's rendering, which ends with the answer, markers removed |
| `Chat.ErrorBlock` | app.py:293-297 | the error block is the `error-message` div holding the fixed `GROQ_API_KEY` hint when the key is missing and the error's text otherwise |
| `Chat.FailureShowsError` | app.py:293-298 | a failure yields last the error block, with the fixed `GROQ_API_KEY` hint when the key is missing and the error's text otherwise |

## Left out

- The API client, the `GROQ_API_KEY` lookup and the exception's text are foreign calls. They become the `Stream` input: its chunks and its `End` value, which carries the error text and whether the key is missing. `temperature` and `max_tokens` only reach the client (and `max_tokens` not even that), so they are not parameters.
- The Gradio page, its CSS and HTML, and the event wiring (app.py:20-175, 302-413) are user interface.
- `time.perf_counter()` and float seconds: the clock is an integer `now`. It is read once per `parse_response` call, where the code reads it up to once per marker and once more for `elapsed`. Since every reading in one call is the same, a span opened and closed within one call adds nothing to the think time.
- `int(round(x))` in `format_time` (Python rounds halves to even) is left out. `TimeFormat.FormatTime` takes the already rounded whole number of seconds.
- The cancellation flag `active_gen` is not shared state. The model takes, as input, the value read before each chunk, and the `active` value of `Finished` as the value read after the loop. Setting it to false on exit is the `active` field of the result.
- After the loop stops early on a cleared flag, the model takes the flag to be still false when line 287 reads it, and ignores `Finished`'s `active` value: nothing between the `break` and that read can set it again, since the test runs without yielding.
- `generate_response` extends the caller's history list in place and yields that same list object. The model returns the new history and the sequence of assistant contents, one per yield. It does not model the aliasing.
- History entries hold only `role` and `content`, so copying them into the request drops nothing. Other keys a Gradio message may carry are not modelled.
- A chunk whose `delta.content` is `None` is modelled as empty content. Both are skipped.
- A marker split across two chunks is not recovered, and the answer shown may still contain a marker. Both are properties of the code, proved as stated above, and not corrected.
