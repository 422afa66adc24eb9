/**
 * The chat handlers of the front end: `user`, which checks and records the
 * user's message, and `generate_response`, which streams the assistant's reply
 * into the history through the splitter and the renderer.
 *
 * The language-model client is replaced by a `Stream`: the chunk contents it
 * delivers, the value of the cancellation flag read before each chunk, the clock
 * at each parse, and how the stream ends.
 */
module Chat {
  import opened Text
  import opened Parser
  import opened Render

  datatype Result<T, E> = Success(value: T) | Failure(error: E)

  datatype Role = SystemRole | UserRole | AssistantRole

  /** A history entry: the role and the content fields of the message dictionaries. */
  datatype Message = Message(role: Role, content: string)

  const EmptyMessageError: string := "请输入有效的消息"
  const KeyMissingError: string := "请设置 GROQ_API_KEY 环境变量"

  /** `history or []`: a missing history is an empty one. */
  function Prior(history: Option<seq<Message>>): (h: seq<Message>)
    ensures h == [] <==> history == None || history == Some([])
    ensures history.Some? ==> h == history.value
  {
    match history
    case None => []
    case Some(h) => h
  }

  /**
   * `user(message, history)`: a message that is empty after `strip()` is refused
   * with an error; otherwise the input box is cleared and a new history is
   * returned with the message appended as a user entry.
   */
  function User(message: string, history: Option<seq<Message>>): (r: Result<(string, seq<Message>), string>)
    ensures r.Failure? <==> AllSpace(message)
    ensures r.Failure? ==> r.error == EmptyMessageError
    ensures r.Success? ==> r.value.0 == []
    ensures r.Success? ==> var h := r.value.1;
      |h| == |Prior(history)| + 1 && h[..|Prior(history)|] == Prior(history)
      && h[|Prior(history)|] == Message(UserRole, message)
  {
    if Strip(message) == [] then Failure(EmptyMessageError)
    else Success(([], Prior(history) + [Message(UserRole, message)]))
  }

  /** Without any history, `user` starts one holding just the message. */
  lemma UserStartsHistory(message: string)
    requires !AllSpace(message)
    ensures User(message, None) == User(message, Some([]))
    ensures User(message, None) == Success(([], [Message(UserRole, message)]))
  {
  }

  // ---------------------------------------------------------------------------
  // The streaming driver.
  // ---------------------------------------------------------------------------

  /**
   * One streamed chunk: its content, the flag `active_gen[0]` as read before
   * the chunk is handled, and the clock when the accumulated text is parsed.
   */
  datatype Chunk = Chunk(content: string, active: bool, now: int)

  /**
   * How the stream ends: it runs out, and the flag is read once more with the
   * clock at the final parse; or the client raises, with its message and
   * whether `GROQ_API_KEY` is missing from the environment.
   */
  datatype End = Finished(active: bool, now: int) | Failed(error: string, keyMissing: bool)

  datatype Stream = Stream(chunks: seq<Chunk>, end: End)

  /** The request: the system prompt, when it is not empty, then a copy of the history. */
  function Request(history: seq<Message>, systemPrompt: string): (ms: seq<Message>)
    ensures systemPrompt == [] ==> ms == history
    ensures systemPrompt != [] ==>
      |ms| == |history| + 1 && ms[0] == Message(SystemRole, systemPrompt) && ms[1..] == history
  {
    (if systemPrompt != [] then [Message(SystemRole, systemPrompt)] else []) + history
  }

  /** The error block shown in place of the reply when the client raises. */
  function ErrorBlock(error: string, keyMissing: bool): (b: string)
    ensures OccursAt(b, ErrorOpen, 0)
    ensures OccursAt(b, if keyMissing then KeyMissingError else error, |ErrorOpen|)
    ensures EndsWith(b, ErrorClose)
    ensures |b| == |ErrorOpen| + |if keyMissing then KeyMissingError else error| + |ErrorClose|
  {
    var text := if keyMissing then KeyMissingError else error;
    var b := ErrorOpen + text + ErrorClose;
    assert b[..|ErrorOpen|] == ErrorOpen;
    assert b[|ErrorOpen|..|ErrorOpen| + |text|] == text;
    b
  }

  const ErrorOpen: string := "<div class='error-message'>\U{26A0}\U{FE0F} "
  const ErrorClose: string := "</div>"

  /** What the message shows after a parse at time `now`. */
  function Display(f: Fields, now: int): string {
    Content(FormatResponse(f, Elapsed(f, now)))
  }

  /** The splitter's fields, the accumulated text, the contents yielded so far, and whether the flag stopped the loop. */
  datatype Progress = Progress(fields: Fields, full: string, renders: seq<string>, stopped: bool)

  /**
   * The `for chunk in stream` loop: stop at the first chunk read with the flag
   * cleared, skip empty chunks, and otherwise extend the text, parse the new
   * part and yield the rendered message.
   */
  function Consume(f: Fields, full: string, renders: seq<string>, chunks: seq<Chunk>): (p: Progress)
    ensures full <= p.full
    ensures |renders| <= |p.renders| && p.renders[..|renders|] == renders
    decreases |chunks|
  {
    if chunks == [] then Progress(f, full, renders, false)
    else
      var c := chunks[0];
      if !c.active then Progress(f, full, renders, true)
      else if c.content == [] then
        Consume(f, full, renders, chunks[1..])
      else
        var g := Scan(f, c.content, c.now);
        var p := Consume(g, full + c.content, renders + [Display(g, c.now)], chunks[1..]);
        assert (renders + [Display(g, c.now)])[..|renders|] == renders;
        p
  }

  /** The content of the last yield, or the placeholder's empty content. */
  function LastOr(renders: seq<string>): string {
    if renders == [] then [] else renders[|renders| - 1]
  }

  /**
   * The yields after the chunk loop: none when the flag stopped it; otherwise
   * the final parse's rendering if the flag is still set, or the error block.
   */
  function Outcome(p: Progress, end: End): (renders: seq<string>)
    ensures |p.renders| <= |renders| <= |p.renders| + 1 && renders[..|p.renders|] == p.renders
    ensures renders == p.renders <==> p.stopped || (end.Finished? && !end.active)
  {
    if p.stopped then p.renders
    else match end
      case Finished(a, now) => if a then p.renders + [Display(p.fields, now)] else p.renders
      case Failed(error, keyMissing) => p.renders + [ErrorBlock(error, keyMissing)]
  }

  /** The observable effect of `generate_response`. */
  datatype Turn = Turn(messages: seq<Message>, history: seq<Message>, renders: seq<string>, active: bool)

  /**
   * `generate_response(history, ..., system_prompt, ..., active_gen)`.  An empty
   * history returns before anything else, so the flag keeps its value.
   * Otherwise one assistant entry is appended and overwritten with every yield;
   * the final parse runs only when the loop was not stopped and the flag is
   * still set; a failure shows the error block; the flag is always cleared.
   */
  function Respond(history: seq<Message>, systemPrompt: string, active: bool, stream: Stream): (t: Turn)
    ensures history == [] ==> t == Turn([], [], [], active)
    ensures history != [] ==> t.messages == Request(history, systemPrompt) && !t.active
    ensures history != [] ==>
      |t.history| == |history| + 1 && t.history[..|history|] == history
      && t.history[|history|] == Message(AssistantRole, LastOr(t.renders))
  {
    if history == [] then Turn([], history, [], active)
    else
      var renders := Outcome(Consume(Fresh, [], [], stream.chunks), stream.end);
      var answer := Message(AssistantRole, LastOr(renders));
      assert (history + [answer])[..|history|] == history;
      Turn(Request(history, systemPrompt), history + [answer], renders, false)
  }

  lemma RespondUnfold(history: seq<Message>, systemPrompt: string, active: bool, stream: Stream)
    requires history != []
    ensures var renders := Outcome(Consume(Fresh, [], [], stream.chunks), stream.end);
      Respond(history, systemPrompt, active, stream)
      == Turn(Request(history, systemPrompt), history + [Message(AssistantRole, LastOr(renders))], renders, false)
  {
  }

  // ---------------------------------------------------------------------------
  // Properties of the driver.
  // ---------------------------------------------------------------------------

  /** Chunks after the first one read with the flag cleared are never looked at. */
  lemma {:induction false} ConsumeIgnoresAfterStop(
    f: Fields, full: string, renders: seq<string>, before: seq<Chunk>, c: Chunk, after: seq<Chunk>)
    requires !c.active
    ensures Consume(f, full, renders, before + [c] + after) == Consume(f, full, renders, before + [c])
    decreases |before|
  {
    if before == [] {
      assert ([] + [c] + after)[1..] == after;
      assert [] + [c] + after == [c] + after && [] + [c] == [c];
    } else {
      var x := before[0];
      assert (before + [c] + after)[0] == x && (before + [c])[0] == x;
      assert (before + [c] + after)[1..] == before[1..] + [c] + after;
      assert (before + [c])[1..] == before[1..] + [c];
      if x.active {
        if x.content == [] {
          ConsumeIgnoresAfterStop(f, full, renders, before[1..], c, after);
        } else {
          var g := Scan(f, x.content, x.now);
          ConsumeIgnoresAfterStop(g, full + x.content, renders + [Display(g, x.now)], before[1..], c, after);
        }
      }
    }
  }

  /** An empty chunk read with the flag set changes nothing and yields nothing. */
  lemma ConsumeSkipsEmpty(f: Fields, full: string, renders: seq<string>, c: Chunk, rest: seq<Chunk>)
    requires c.active && c.content == []
    ensures Consume(f, full, renders, [c] + rest) == Consume(f, full, renders, rest)
  {
    assert ([c] + rest)[1..] == rest;
  }

  /** The answer and the thought only grow over the stream. */
  lemma {:induction false} ConsumeAppends(f: Fields, full: string, renders: seq<string>, chunks: seq<Chunk>)
    ensures f.answer <= Consume(f, full, renders, chunks).fields.answer
    ensures f.thought <= Consume(f, full, renders, chunks).fields.thought
    decreases |chunks|
  {
    if chunks != [] && chunks[0].active {
      var c := chunks[0];
      if c.content == [] {
        ConsumeAppends(f, full, renders, chunks[1..]);
      } else {
        var g := Scan(f, c.content, c.now);
        ScanAppends(f, c.content, c.now);
        ConsumeAppends(g, full + c.content, renders + [Display(g, c.now)], chunks[1..]);
      }
    }
  }

  /** While a span is open, every chunk's clock is at or after its start `t`; and the clocks never go back. */
  predicate ClockFrom(inThink: bool, t: int, chunks: seq<Chunk>) {
    (inThink ==> forall i :: 0 <= i < |chunks| ==> t <= chunks[i].now)
    && (forall i, j :: 0 <= i < j < |chunks| ==> chunks[i].now <= chunks[j].now)
  }

  /** With a clock that never goes back, the think time never decreases over the stream. */
  lemma {:induction false} ConsumeThinkTimeGrows(f: Fields, full: string, renders: seq<string>, chunks: seq<Chunk>)
    requires ClockFrom(f.inThink, f.startTime, chunks)
    ensures f.totalThinkTime <= Consume(f, full, renders, chunks).fields.totalThinkTime
    decreases |chunks|
  {
    if chunks != [] && chunks[0].active {
      var c := chunks[0];
      assert forall i :: 0 <= i < |chunks| - 1 ==> chunks[1..][i] == chunks[i + 1];
      if c.content == [] {
        ConsumeThinkTimeGrows(f, full, renders, chunks[1..]);
      } else {
        var g := Scan(f, c.content, c.now);
        ScanThinkTimeGrows(f, c.content, c.now);
        assert ClockFrom(g.inThink, g.startTime, chunks[1..]);
        ConsumeThinkTimeGrows(g, full + c.content, renders + [Display(g, c.now)], chunks[1..]);
      }
    }
  }

  /** Every rendering ends with the answer, markers removed. */
  lemma DisplayEndsWithAnswer(f: Fields, now: int)
    ensures EndsWith(Display(f, now), StripMarkers(f.answer))
  {
    ContentEndsWithAnswer(FormatResponse(f, Elapsed(f, now)));
  }

  /**
   * When the stream runs out with the flag still set, the last yield is the
   * final parse's rendering, which ends with the answer, markers removed.
   */
  lemma FinishedShowsFinalParse(history: seq<Message>, systemPrompt: string, active: bool, chunks: seq<Chunk>, now: int)
    requires history != [] && forall i :: 0 <= i < |chunks| ==> chunks[i].active
    ensures var r := Respond(history, systemPrompt, active, Stream(chunks, Finished(true, now))).renders;
      r != [] && r[|r| - 1] == Display(Consume(Fresh, [], [], chunks).fields, now)
    ensures var f := Consume(Fresh, [], [], chunks).fields;
      EndsWith(Display(f, now), StripMarkers(f.answer))
  {
    ConsumeRunsToEnd(Fresh, [], [], chunks);
    DisplayEndsWithAnswer(Consume(Fresh, [], [], chunks).fields, now);
  }

  /** A failure is shown last as the error block, with the fixed hint when the key is missing. */
  lemma FailureShowsError(history: seq<Message>, systemPrompt: string, active: bool, chunks: seq<Chunk>, error: string)
    requires history != [] && forall i :: 0 <= i < |chunks| ==> chunks[i].active
    ensures var r := Respond(history, systemPrompt, active, Stream(chunks, Failed(error, true))).renders;
      r != [] && r[|r| - 1] == "<div class='error-message'>\U{26A0}\U{FE0F} " + KeyMissingError + "</div>"
    ensures var r := Respond(history, systemPrompt, active, Stream(chunks, Failed(error, false))).renders;
      r != [] && r[|r| - 1] == "<div class='error-message'>\U{26A0}\U{FE0F} " + error + "</div>"
  {
    ConsumeRunsToEnd(Fresh, [], [], chunks);
  }

  /** With the flag set for every chunk, the loop is not stopped. */
  lemma {:induction false} ConsumeRunsToEnd(f: Fields, full: string, renders: seq<string>, chunks: seq<Chunk>)
    requires forall i :: 0 <= i < |chunks| ==> chunks[i].active
    ensures !Consume(f, full, renders, chunks).stopped
    decreases |chunks|
  {
    if chunks != [] {
      var c := chunks[0];
      assert forall i :: 0 <= i < |chunks| - 1 ==> chunks[1..][i] == chunks[i + 1];
      if c.content == [] {
        ConsumeRunsToEnd(f, full, renders, chunks[1..]);
      } else {
        var g := Scan(f, c.content, c.now);
        ConsumeRunsToEnd(g, full + c.content, renders + [Display(g, c.now)], chunks[1..]);
      }
    }
  }

  /**
   * The loop stops before the first chunk read with the flag cleared: that
   * chunk's content is not parsed and nothing after it is looked at.
   */
  lemma ConsumeStopsBeforeInactive(
    f: Fields, full: string, renders: seq<string>, before: seq<Chunk>, c: Chunk, after: seq<Chunk>)
    requires (forall i :: 0 <= i < |before| ==> before[i].active) && !c.active
    ensures Consume(f, full, renders, before + [c] + after) == Consume(f, full, renders, before).(stopped := true)
  {
    ConsumeIgnoresAfterStop(f, full, renders, before, c, after);
    ConsumeStopsAtChunk(f, full, renders, before, c);
  }

  lemma {:induction false} ConsumeStopsAtChunk(f: Fields, full: string, renders: seq<string>, before: seq<Chunk>, c: Chunk)
    requires (forall i :: 0 <= i < |before| ==> before[i].active) && !c.active
    ensures Consume(f, full, renders, before + [c]) == Consume(f, full, renders, before).(stopped := true)
    decreases |before|
  {
    if before == [] {
      assert [] + [c] == [c];
    } else {
      var x := before[0];
      assert (before + [c])[0] == x;
      assert (before + [c])[1..] == before[1..] + [c];
      assert forall i :: 0 <= i < |before| - 1 ==> before[1..][i] == before[i + 1];
      if x.content == [] {
        ConsumeStopsAtChunk(f, full, renders, before[1..], c);
      } else {
        var g := Scan(f, x.content, x.now);
        ConsumeStopsAtChunk(g, full + x.content, renders + [Display(g, x.now)], before[1..], c);
      }
    }
  }

  /** A chunk read with the flag cleared stops the loop. */
  lemma {:induction false} ConsumeStopsAtInactive(
    f: Fields, full: string, renders: seq<string>, chunks: seq<Chunk>, k: nat)
    requires k < |chunks| && !chunks[k].active
    ensures Consume(f, full, renders, chunks).stopped
    decreases |chunks|
  {
    var c := chunks[0];
    if k > 0 && c.active {
      assert chunks[1..][k - 1] == chunks[k];
      if c.content == [] {
        ConsumeStopsAtInactive(f, full, renders, chunks[1..], k - 1);
      } else {
        var g := Scan(f, c.content, c.now);
        ConsumeStopsAtInactive(g, full + c.content, renders + [Display(g, c.now)], chunks[1..], k - 1);
      }
    }
  }

  // ---------------------------------------------------------------------------
  // The driver as the source writes it.
  // ---------------------------------------------------------------------------

  /** The request built by `generate_response`: the system entry, then a copy of each history entry. */
  method BuildMessages(history: seq<Message>, systemPrompt: string) returns (messages: seq<Message>)
    ensures messages == Request(history, systemPrompt)
  {
    messages := [];
    if systemPrompt != [] {
      messages := messages + [Message(SystemRole, systemPrompt)];
    }
    ghost var head := messages;
    for i := 0 to |history|
      invariant messages == head + history[..i]
    {
      messages := messages + [Message(history[i].role, history[i].content)];
      assert history[..i + 1] == history[..i] + [history[i]];
    }
    assert history[..|history|] == history;
  }

  /**
   * The `for chunk in stream` loop over a fresh `ParserState`, overwriting the
   * assistant entry appended to `history` with each yield.
   */
  method StreamChunks(history: seq<Message>, chunks: seq<Chunk>, state: ParserState)
    returns (fullResponse: string, newHistory: seq<Message>, renders: seq<string>, flag: bool)
    requires state.Snapshot() == Fresh && state.lastPos == 0
    modifies state
    ensures Consume(Fresh, [], [], chunks) == Progress(state.Snapshot(), fullResponse, renders, !flag)
    ensures state.lastPos == |fullResponse|
    ensures newHistory == history + [Message(AssistantRole, LastOr(renders))]
  {
    fullResponse := [];
    newHistory := history + [Message(AssistantRole, [])];
    renders := [];
    flag := true;
    var i := 0;
    while i < |chunks|
      invariant 0 <= i <= |chunks|
      invariant state.lastPos == |fullResponse|
      invariant Consume(state.Snapshot(), fullResponse, renders, chunks[i..]) == Consume(Fresh, [], [], chunks)
      invariant newHistory == history + [Message(AssistantRole, LastOr(renders))]
      invariant flag
    {
      var chunk := chunks[i];
      flag := chunk.active;
      if !flag {
        break;
      }
      assert chunks[i..][1..] == chunks[i + 1..];
      if chunk.content != [] {
        ghost var f := state.Snapshot();
        fullResponse := fullResponse + chunk.content;
        var elapsed := ParseResponse(fullResponse, state, chunk.now);
        assert Unscanned(fullResponse, |fullResponse| - |chunk.content|) == chunk.content;
        ghost var g := Scan(f, chunk.content, chunk.now);
        assert state.Snapshot() == g;
        var content := Content(FormatResponse(state.Snapshot(), elapsed));
        assert content == Display(g, chunk.now);
        newHistory := newHistory[|history| := Message(AssistantRole, content)];
        renders := renders + [content];
      }
      i := i + 1;
    }
  }

  /**
   * What follows the chunk loop: the final parse when the stream ran out with
   * the flag still set, or the error block when the client raised, each shown
   * as the assistant entry.
   */
  method FinishTurn(ghost p: Progress, history: seq<Message>, end: End, fullResponse: string, state: ParserState,
                    historyIn: seq<Message>, rendersIn: seq<string>, flag: bool)
    returns (newHistory: seq<Message>, renders: seq<string>)
    requires p == Progress(state.Snapshot(), fullResponse, rendersIn, !flag) && state.lastPos == |fullResponse|
    requires historyIn == history + [Message(AssistantRole, LastOr(rendersIn))]
    modifies state
    ensures renders == Outcome(p, end)
    ensures newHistory == history + [Message(AssistantRole, LastOr(renders))]
    ensures state.Snapshot() == old(state.Snapshot()) && state.lastPos == old(state.lastPos)
  {
    newHistory, renders := historyIn, rendersIn;
    match end {
      case Finished(a, now) =>
        if flag && a {
          var elapsed := ParseResponse(fullResponse, state, now);
          var content := Content(FormatResponse(state.Snapshot(), elapsed));
          assert content == Display(p.fields, now);
          newHistory := newHistory[|history| := Message(AssistantRole, content)];
          renders := renders + [content];
        }
      case Failed(error, keyMissing) =>
        if flag {
          var content := ErrorBlock(error, keyMissing);
          newHistory := newHistory[|history| := Message(AssistantRole, content)];
          renders := renders + [content];
        }
    }
  }

  /**
   * `generate_response`: builds the request, appends the assistant placeholder,
   * runs the chunk loop over a fresh `ParserState`, then the final parse or the
   * error block, and clears the flag.
   */
  method GenerateResponse(history: seq<Message>, systemPrompt: string, active: bool, stream: Stream)
    returns (messages: seq<Message>, newHistory: seq<Message>, renders: seq<string>, activeAfter: bool)
    ensures Turn(messages, newHistory, renders, activeAfter) == Respond(history, systemPrompt, active, stream)
  {
    if history == [] {
      return [], history, [], active;
    }
    messages := BuildMessages(history, systemPrompt);
    var state := new ParserState();
    var fullResponse, flag;
    fullResponse, newHistory, renders, flag := StreamChunks(history, stream.chunks, state);
    ghost var p := Consume(Fresh, [], [], stream.chunks);
    newHistory, renders := FinishTurn(p, history, stream.end, fullResponse, state, newHistory, renders, flag);
    RespondUnfold(history, systemPrompt, active, stream);
    activeAfter := false;
  }
}
