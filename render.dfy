/**
 * The rendering of the splitter's state (`format_response` in app.py): the
 * thought as one collapsible HTML block headed by a status line, and the answer
 * with the markers removed.
 */
module Render {
  import opened Text
  import opened TimeFormat
  import opened Parser

  /** What `format_response` returns: the collapsible blocks and the answer text. */
  datatype Response = Response(collapsible: seq<string>, answerPart: string)

  /** `s` ends with `t`. */
  predicate EndsWith(s: string, t: string) {
    |t| <= |s| && s[|s| - |t|..] == t
  }

  /**
   * The status line: while a span is open, a thinking icon and the think time
   * including the open span's elapsed time; afterwards, a light bulb and the
   * total think time.
   */
  function Status(f: Fields, elapsed: int): (s: string)
    ensures |s| >= 2 && s[0] == (if f.inThink then '\U{1F914}' else '\U{1F4A1}')
    ensures s[|s| - 2] == 's' && s[|s| - 1] == ')'
    ensures EndsWith(s, FormatTime(if f.inThink then f.totalThinkTime + elapsed else f.totalThinkTime) + ")")
  {
    var time := FormatTime(if f.inThink then f.totalThinkTime + elapsed else f.totalThinkTime);
    var head := if f.inThink then "\U{1F914} 思考中... (" else "\U{1F4A1} 推理过程 (";
    assert head + time + ")" == head + (time + ")");
    head + time + ")"
  }

  const SummaryOpen: string := "<details><summary>"
  const BodyOpen: string := "</summary><div class='thinking-container'>"
  const BlockClose: string := "</div></details>"

  /**
   * The collapsible block: `<details><summary>`, the status line, the body's
   * opening tag, the thought verbatim, and the closing tags.
   */
  function Block(status: string, thought: string): (b: string)
    ensures OccursAt(b, SummaryOpen, 0)
    ensures OccursAt(b, status, |SummaryOpen|)
    ensures OccursAt(b, BodyOpen, |SummaryOpen| + |status|)
    ensures OccursAt(b, thought, |SummaryOpen| + |status| + |BodyOpen|)
    ensures EndsWith(b, BlockClose)
    ensures |b| == |SummaryOpen| + |status| + |BodyOpen| + |thought| + |BlockClose|
  {
    var head := SummaryOpen + status + BodyOpen;
    var b := head + thought + BlockClose;
    assert b[..|SummaryOpen|] == SummaryOpen;
    assert b[|SummaryOpen|..|SummaryOpen| + |status|] == status;
    assert b[|SummaryOpen| + |status|..|head|] == BodyOpen;
    assert b[|head|..|head| + |thought|] == thought;
    assert b[|b| - |BlockClose|..] == BlockClose;
    b
  }

  /** `answer.replace('<think>', '').replace('</think>', '')`. */
  function StripMarkers(answer: string): (r: string)
    ensures |r| <= |answer|
  {
    Replace(Replace(answer, Open, ""), Close, "")
  }

  /** `format_response(state, elapsed)`. */
  function FormatResponse(f: Fields, elapsed: int): (r: Response)
    ensures |r.collapsible| <= 1
    ensures r.collapsible == [] <==> f.thought == [] && !f.inThink
    ensures r.collapsible != [] ==> r.collapsible[0] == Block(Status(f, elapsed), f.thought)
    ensures |r.answerPart| <= |f.answer|
  {
    var answerPart := StripMarkers(f.answer);
    var collapsible := if f.thought != [] || f.inThink then [Block(Status(f, elapsed), f.thought)] else [];
    Response(collapsible, answerPart)
  }

  /** An answer with neither marker is shown unchanged. */
  lemma AnswerWithoutMarkersUnchanged(f: Fields, elapsed: int)
    requires Absent(f.answer, Open) && Absent(f.answer, Close)
    ensures FormatResponse(f, elapsed).answerPart == f.answer
  {
    ReplaceAbsent(f.answer, Open, "");
    ReplaceAbsent(f.answer, Close, "");
  }

  /** Each removal, described position by position, deletes every occurrence a left-to-right scan meets. */
  lemma StripMarkersPositionwise(answer: string)
    ensures StripMarkers(answer)
         == ReplaceAtEachPosition(ReplaceAtEachPosition(answer, Open, ""), Close, "")
  {
    ReplaceIsLeftmost(answer, Open, "");
    ReplaceIsLeftmost(Replace(answer, Open, ""), Close, "");
  }

  /**
   * Removing a marker can assemble another one: `<th<think>ink>` loses its inner
   * `<think>`, and what is left is `<think>`.
   */
  lemma StrippedAnswerMayHoldMarker()
    ensures StripMarkers("<th" + Open + "ink>") == Open
  {
    var a, b := "<th", "ink>";
    var s := a + Open + b;
    assert Absent(b, Open);
    forall i | 0 <= i < |a| ensures !OccursAt(s, Open, i) {
      assert s[i + 3] == Open[3] ==> i == 0;
      assert s[i] == Open[0] ==> i == 0;
    }
    ReplaceSingle(a, Open, b);
    assert a + b == Open;
    assert Absent(Open, Close);
    ReplaceAbsent(Open, Close, []);
  }

  /** `"\n\n".join(collapsible + [answer_part])`: what the assistant message shows. */
  function Content(r: Response): (c: string)
    ensures r.collapsible == [] ==> c == r.answerPart
    ensures r.collapsible != [] ==> r.collapsible[0] <= c
  {
    Join("\n\n", r.collapsible + [r.answerPart])
  }

  /** Without a block the message is the answer; with one, the block, a blank line, the answer. */
  lemma ContentShape(r: Response)
    requires |r.collapsible| <= 1
    ensures r.collapsible == [] ==> Content(r) == r.answerPart
    ensures |r.collapsible| == 1 ==> Content(r) == r.collapsible[0] + "\n\n" + r.answerPart
  {
    if r.collapsible == [] {
      assert r.collapsible + [r.answerPart] == [r.answerPart];
    } else {
      JoinSmall("\n\n", r.collapsible[0], r.answerPart);
      assert r.collapsible + [r.answerPart] == [r.collapsible[0], r.answerPart];
    }
  }

  /** The message always ends with the answer part. */
  lemma ContentEndsWithAnswer(r: Response)
    requires |r.collapsible| <= 1
    ensures EndsWith(Content(r), r.answerPart)
  {
    ContentShape(r);
    var c := Content(r);
    if r.collapsible != [] {
      assert c == (r.collapsible[0] + "\n\n") + r.answerPart;
    }
  }
}
