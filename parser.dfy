/**
 * The reasoning/answer splitter of the chat front end (`ParserState` and
 * `parse_response` in app.py).  The model streams text that may contain
 * `<think>` ... `</think>` spans; the splitter keeps the text outside the spans
 * as the answer and the text inside as the thought, scanning on each call only
 * what was added since the previous call.
 *
 * The clock the source reads with `time.perf_counter()` is the argument `now`
 * of each call: one reading per call, in whole ticks.
 */
module Parser {
  import opened Text

  const Open: string := "<think>"
  const Close: string := "</think>"

  /** The values of the splitter's fields other than the cursor. */
  datatype Fields = Fields(
    answer: string,
    thought: string,
    inThink: bool,
    startTime: int,
    totalThinkTime: int)

  /** The fields of a newly created `ParserState`. */
  const Fresh: Fields := Fields("", "", false, 0, 0)

  /** The marker the splitter looks for while outside (`<think>`) or inside (`</think>`) a span. */
  function Marker(inThink: bool): string {
    if inThink then Close else Open
  }

  /** The text before the expected marker is added, then the span opens or closes. */
  function Advance(f: Fields, before: string, now: int): Fields {
    if f.inThink then
      f.(thought := f.thought + before,
         totalThinkTime := f.totalThinkTime + (now - f.startTime),
         inThink := false)
    else f.(answer := f.answer + before, inThink := true, startTime := now)
  }

  /** No expected marker is left: the rest of the text joins the current mode. */
  function Absorb(f: Fields, rest: string): Fields {
    if f.inThink then f.(thought := f.thought + rest) else f.(answer := f.answer + rest)
  }

  /**
   * The `while buffer:` loop of `parse_response` as a function of the fields and
   * the unscanned text: outside a span look for `<think>`, inside one look for
   * `</think>`; the text before the marker goes to the answer or the thought,
   * and closing a span adds the time since it opened.
   */
  function Scan(f: Fields, buffer: string, now: int): (r: Fields)
    ensures |r.answer| + |r.thought| <= |f.answer| + |f.thought| + |buffer|
    ensures r.inThink && !f.inThink ==> Find(buffer, Open) != -1
    decreases |buffer|
  {
    if buffer == [] then f
    else
      var k := Find(buffer, Marker(f.inThink));
      if k == -1 then Absorb(f, buffer)
      else Scan(Advance(f, buffer[..k], now), buffer[k + |Marker(f.inThink)|..], now)
  }

  /** One pass of the loop when the expected marker is found. */
  lemma ScanFound(f: Fields, b: string, now: int, k: int)
    requires b != [] && k == Find(b, Marker(f.inThink)) && k != -1
    ensures Scan(f, b, now) == Scan(Advance(f, b[..k], now), b[k + |Marker(f.inThink)|..], now)
  {
  }

  /** One pass of the loop when the expected marker is missing. */
  lemma ScanMissing(f: Fields, b: string, now: int)
    requires b != [] && Find(b, Marker(f.inThink)) == -1
    ensures Scan(f, b, now) == Absorb(f, b)
  {
  }

  /** What `parse_response` returns beside the state: the time spent in the open span. */
  function Elapsed(f: Fields, now: int): (e: int)
    ensures e != 0 ==> f.inThink
    ensures f.startTime <= now ==> 0 <= e
  {
    if f.inThink then now - f.startTime else 0
  }

  /** `text[last_pos:]`, which is empty once the cursor is at or past the end. */
  function Unscanned(text: string, pos: nat): (r: string)
    ensures |r| <= |text| && r == text[|text| - |r|..]
    ensures pos <= |text| ==> |r| == |text| - pos
    ensures pos >= |text| ==> r == []
  {
    if pos <= |text| then text[pos..] else []
  }

  // ---------------------------------------------------------------------------
  // A reference description of the split, one position at a time.
  // ---------------------------------------------------------------------------

  /** The text that went outside and inside the spans, and whether a span is still open. */
  datatype Parts = Parts(outside: string, inside: string, open: bool)

  /** `t` put in front of the outside or the inside text. */
  function Prepend(inThink: bool, t: string, p: Parts): Parts {
    if inThink then p.(inside := t + p.inside) else p.(outside := t + p.outside)
  }

  /**
   * The split described position by position: the marker expected in the
   * current mode switches the mode and is dropped; any other character belongs to
   * the current mode.
   */
  function Partition(s: string, inThink: bool): Parts
    decreases |s|
  {
    if s == [] then Parts([], [], inThink)
    else if OccursAt(s, Marker(inThink), 0) then Partition(s[|Marker(inThink)|..], !inThink)
    else Prepend(inThink, [s[0]], Partition(s[1..], inThink))
  }

  lemma PrependJoins(inThink: bool, a: string, b: string, p: Parts)
    ensures Prepend(inThink, a, Prepend(inThink, b, p)) == Prepend(inThink, a + b, p)
    ensures Prepend(inThink, [], p) == p
  {
    assert a + (b + p.inside) == a + b + p.inside;
    assert a + (b + p.outside) == a + b + p.outside;
    assert [] + p.inside == p.inside && [] + p.outside == p.outside;
  }

  /** Before the first expected marker every character stays in the current mode. */
  lemma {:induction false} PartitionPrefix(s: string, inThink: bool, k: nat)
    requires k <= |s|
    requires forall i :: 0 <= i < k ==> !OccursAt(s, Marker(inThink), i)
    ensures Partition(s, inThink) == Prepend(inThink, s[..k], Partition(s[k..], inThink))
  {
    var rest := Partition(s[k..], inThink);
    if k == 0 {
      assert s[k..] == s && s[..k] == [];
      PrependJoins(inThink, [], [], rest);
    } else {
      assert !OccursAt(s, Marker(inThink), 0);
      forall i | 0 <= i < k - 1 ensures !OccursAt(s[1..], Marker(inThink), i) {
        OccursInTail(s, Marker(inThink), i);
      }
      PartitionPrefix(s[1..], inThink, k - 1);
      assert s[1..][k - 1..] == s[k..];
      assert Partition(s, inThink) == Prepend(inThink, [s[0]], Partition(s[1..], inThink));
      assert Partition(s[1..], inThink) == Prepend(inThink, s[1..][..k - 1], rest);
      PrependJoins(inThink, [s[0]], s[1..][..k - 1], rest);
      assert [s[0]] + s[1..][..k - 1] == s[..k];
    }
  }

  /** At the first expected marker the split drops it and switches mode. */
  lemma PartitionAtMarker(s: string, inThink: bool, k: nat)
    requires OccursAt(s, Marker(inThink), k)
    requires forall i :: 0 <= i < k ==> !OccursAt(s, Marker(inThink), i)
    ensures Partition(s, inThink)
         == Prepend(inThink, s[..k], Partition(s[k + |Marker(inThink)|..], !inThink))
  {
    PartitionPrefix(s, inThink, k);
    var t := s[k..];
    assert t[0..|Marker(inThink)|] == s[k..k + |Marker(inThink)|];
    assert t[|Marker(inThink)|..] == s[k + |Marker(inThink)|..];
  }

  /** Without the expected marker the whole text stays in the current mode. */
  lemma PartitionWithoutMarker(s: string, inThink: bool)
    requires Find(s, Marker(inThink)) == -1
    ensures Partition(s, inThink) == Prepend(inThink, s, Parts([], [], inThink))
  {
    PartitionPrefix(s, inThink, |s|);
    assert s[|s|..] == [];
    assert s[..|s|] == s;
  }

  /**
   * The find-based loop appends to the answer exactly the text outside the spans
   * and to the thought exactly the text inside them, markers removed, and ends in
   * the mode the position-by-position split ends in.
   */
  lemma {:induction false} ScanIsPartition(f: Fields, b: string, now: int)
    ensures Scan(f, b, now).answer == f.answer + Partition(b, f.inThink).outside
    ensures Scan(f, b, now).thought == f.thought + Partition(b, f.inThink).inside
    ensures Scan(f, b, now).inThink == Partition(b, f.inThink).open
    decreases |b|
  {
    if b != [] {
      var m := Marker(f.inThink);
      var k := Find(b, m);
      if k == -1 {
        PartitionWithoutMarker(b, f.inThink);
        assert Scan(f, b, now) == Absorb(f, b);
        AbsorbIsPrepend(f, b);
      } else {
        var rest := b[k + |m|..];
        var g := Advance(f, b[..k], now);
        assert Scan(f, b, now) == Scan(g, rest, now);
        ScanIsPartition(g, rest, now);
        PartitionAtMarker(b, f.inThink, k);
        AdvanceIsPrepend(f, b[..k], now, Partition(rest, !f.inThink));
      }
    }
  }

  lemma AbsorbIsPrepend(f: Fields, t: string)
    ensures var p := Prepend(f.inThink, t, Parts([], [], f.inThink));
      Absorb(f, t).answer == f.answer + p.outside && Absorb(f, t).thought == f.thought + p.inside
      && Absorb(f, t).inThink == p.open
  {
    assert t + [] == t;
    assert f.answer + [] == f.answer && f.thought + [] == f.thought;
  }

  lemma AdvanceIsPrepend(f: Fields, t: string, now: int, p: Parts)
    ensures var g := Advance(f, t, now); var q := Prepend(f.inThink, t, p);
      g.answer + p.outside == f.answer + q.outside && g.thought + p.inside == f.thought + q.inside
      && g.inThink == !f.inThink && q.open == p.open
  {
    assert f.answer + t + p.outside == f.answer + (t + p.outside);
    assert f.thought + t + p.inside == f.thought + (t + p.inside);
  }

  /** From a fresh state one call splits the whole text. */
  lemma FreshScanSplits(text: string, now: int)
    ensures Scan(Fresh, text, now).answer == Partition(text, false).outside
    ensures Scan(Fresh, text, now).thought == Partition(text, false).inside
    ensures Scan(Fresh, text, now).inThink == Partition(text, false).open
  {
    ScanIsPartition(Fresh, text, now);
  }

  // ---------------------------------------------------------------------------
  // Properties of one scan.
  // ---------------------------------------------------------------------------

  /** The answer and the thought are only ever appended to. */
  lemma {:induction false} ScanAppends(f: Fields, b: string, now: int)
    ensures f.answer <= Scan(f, b, now).answer
    ensures f.thought <= Scan(f, b, now).thought
    decreases |b|
  {
    if b != [] {
      var k := Find(b, Marker(f.inThink));
      if k != -1 {
        ScanAppends(Advance(f, b[..k], now), b[k + |Marker(f.inThink)|..], now);
      }
    }
  }

  /** Outside a span, a text without `<think>` goes to the answer verbatim, `</think>` included. */
  lemma UnmatchedCloseStaysInAnswer(f: Fields, b: string, now: int)
    requires !f.inThink && Absent(b, Open)
    ensures Scan(f, b, now) == f.(answer := f.answer + b)
  {
    FindBounds(b, Open);
  }

  /** Inside a span, a text without `</think>` goes to the thought and the span stays open. */
  lemma UnclosedSpanStaysInThought(f: Fields, b: string, now: int)
    requires f.inThink && Absent(b, Close)
    ensures Scan(f, b, now) == f.(thought := f.thought + b)
  {
    FindBounds(b, Close);
  }

  /**
   * Within one call the clock reads `now` throughout, so only the span open on
   * entry contributes to the think time, by `now - startTime`, and only if the
   * call closes it; a span opened during the call starts at `now`.
   */
  lemma {:induction false} ScanThinkTime(f: Fields, b: string, now: int)
    ensures Scan(f, b, now).totalThinkTime
         == f.totalThinkTime + (if f.inThink && Find(b, Close) != -1 then now - f.startTime else 0)
    ensures Scan(f, b, now).startTime == f.startTime || Scan(f, b, now).startTime == now
    ensures Scan(f, b, now).inThink && !(f.inThink && Find(b, Close) == -1)
        ==> Scan(f, b, now).startTime == now
    decreases |b|
  {
    if b != [] {
      var k := Find(b, Marker(f.inThink));
      if k != -1 {
        var g := Advance(f, b[..k], now);
        ScanThinkTime(g, b[k + |Marker(f.inThink)|..], now);
      }
    }
  }

  /** With the clock not behind the span's start, the think time never decreases. */
  lemma ScanThinkTimeGrows(f: Fields, b: string, now: int)
    requires f.inThink ==> f.startTime <= now
    ensures f.totalThinkTime <= Scan(f, b, now).totalThinkTime
    ensures Scan(f, b, now).inThink ==> Scan(f, b, now).startTime <= now
    ensures 0 <= Elapsed(Scan(f, b, now), now)
  {
    ScanThinkTime(f, b, now);
  }

  /**
   * Two calls whose new text holds no `<think>` put everything in the answer,
   * even when the two pieces together spell a marker.
   */
  lemma PiecesWithoutOpenStayInAnswer(first: string, second: string, t0: int, t1: int)
    requires Absent(first, Open) && Absent(second, Open)
    ensures Scan(Scan(Fresh, first, t0), second, t1) == Fresh.(answer := first + second)
  {
    UnmatchedCloseStaysInAnswer(Fresh, first, t0);
    assert [] + first == first;
    UnmatchedCloseStaysInAnswer(Fresh.(answer := first), second, t1);
  }

  /**
   * A marker cut in two by the stream is not recognised: the `<` that ends the
   * first piece is kept as answer text and `think>` no longer completes it,
   * whereas one scan of the whole text opens a span.
   */
  lemma SplitMarkerNotRecovered()
    ensures Scan(Scan(Fresh, "<", 0), "think>", 1) == Fresh.(answer := "<think>")
    ensures Scan(Fresh, "<think>", 1) == Fresh.(inThink := true, startTime := 1)
  {
    PiecesWithoutOpenStayInAnswer("<", "think>", 0, 1);
    assert OccursAt("<think>", Open, 0);
  }

  // ---------------------------------------------------------------------------
  // The mutable splitter.
  // ---------------------------------------------------------------------------

  /** `ParserState`: the splitter's fields and the cursor into the streamed text. */
  class ParserState {
    var answer: string
    var thought: string
    var inThink: bool
    var startTime: int
    var lastPos: nat
    var totalThinkTime: int

    constructor ()
      ensures Snapshot() == Fresh && lastPos == 0
    {
      answer := "";
      thought := "";
      inThink := false;
      startTime := 0;
      lastPos := 0;
      totalThinkTime := 0;
    }

    function Snapshot(): Fields
      reads this
    {
      Fields.Fields(answer, thought, inThink, startTime, totalThinkTime)
    }
  }

  /**
   * `parse_response(text, state)`: scans the part of `text` past the cursor,
   * moves the cursor to the end of `text` and returns the time spent in the span
   * still open.  A second call with the same text changes none of the fields.
   */
  method ParseResponse(text: string, state: ParserState, now: int) returns (elapsed: int)
    modifies state
    ensures state.lastPos == |text|
    ensures state.Snapshot() == Scan(old(state.Snapshot()), Unscanned(text, old(state.lastPos)), now)
    ensures old(state.lastPos) >= |text| ==> state.Snapshot() == old(state.Snapshot())
    ensures elapsed == Elapsed(state.Snapshot(), now)
  {
    var buffer := Unscanned(text, state.lastPos);
    state.lastPos := |text|;
    ghost var start := state.Snapshot();
    ghost var whole := buffer;
    while buffer != []
      invariant state.lastPos == |text|
      invariant Scan(state.Snapshot(), buffer, now) == Scan(start, whole, now)
      decreases |buffer|
    {
      ghost var f := state.Snapshot();
      if !state.inThink {
        var thinkStart := Find(buffer, Open);
        if thinkStart != -1 {
          ScanFound(f, buffer, now, thinkStart);
          ghost var g := Advance(f, buffer[..thinkStart], now);
          state.answer := state.answer + buffer[..thinkStart];
          state.inThink := true;
          state.startTime := now;
          buffer := buffer[thinkStart + 7..];
          assert state.Snapshot() == g;
        } else {
          ScanMissing(f, buffer, now);
          state.answer := state.answer + buffer;
          break;
        }
      } else {
        var thinkEnd := Find(buffer, Close);
        if thinkEnd != -1 {
          ScanFound(f, buffer, now, thinkEnd);
          ghost var g := Advance(f, buffer[..thinkEnd], now);
          state.thought := state.thought + buffer[..thinkEnd];
          var duration := now - state.startTime;
          state.totalThinkTime := state.totalThinkTime + duration;
          state.inThink := false;
          buffer := buffer[thinkEnd + 8..];
          assert state.Snapshot() == g;
        } else {
          ScanMissing(f, buffer, now);
          state.thought := state.thought + buffer;
          break;
        }
      }
    }
    elapsed := if state.inThink then now - state.startTime else 0;
  }
}
