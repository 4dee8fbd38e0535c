/** `split_transcript_by_timestamps` of clipify/core/content_analysis.py:
    a pass over the transcript's fragments (each word of a segment that has
    a `words` list, otherwise the segment itself) that buffers their texts
    and closes a window on a large gap or when the window would outgrow the
    interval, then flushes the last window. Each window has a
    `"start - end"` label and the concatenated text.

    The module calls `format_time` without importing it, so as written the
    first window it emits raises `NameError`; `WindowsAsWritten` models
    that, and `Windows` the behaviour with the import in place. */
module Windowing {
  import opened Wrappers
  import opened Text
  import opened Transcript
  import opened TimeFormat

  /** A word, or a segment without a `words` list (`wordLevel` false). */
  datatype Fragment = Fragment(text: string, start: int, end: int, wordLevel: bool)

  /** A `{"time", "text"}` dictionary. The time label is kept as the two
      times it formats (`TimeLabel` renders it); `end` is the time the label
      shows, which for a segment-level window is not always a fragment end. */
  datatype Window = Window(start: int, end: int, text: string)

  /** The loop's variables: closed windows, buffered texts, the current
      window's start and the end of the last fragment. */
  datatype WindowState = WindowState(windows: seq<Window>, buffer: seq<string>, windowStart: int, lastEnd: int)

  /** The `KeyError` of a segment without `start`, `end` or `text`. */
  datatype WindowError = MissingKey

  /** The label `f"{format_time(a)} - {format_time(b)}"`. */
  function Label(a: int, b: int): string {
    FormatTime(a) + " - " + FormatTime(b)
  }

  function TimeLabel(w: Window): string {
    Label(w.start, w.end)
  }

  /** The state once the first segment has been read. */
  function Init(windowStart: int): WindowState {
    WindowState([], [], windowStart, 0)
  }

  /** A large gap since the last fragment (`interval / 2` in true division),
      or a fragment ending more than `interval` after the window start. */
  predicate Closes(st: WindowState, f: Fragment, interval: int) {
    (2 * (f.start - st.lastEnd) > interval && st.lastEnd != 0) || f.end - st.windowStart > interval
  }

  /** The end written in the label of a window closed by `f`: the last end
      for words; for segments, the last end only if it lies after the window
      start, otherwise the segment's start. */
  function LabelEnd(st: WindowState, f: Fragment): int {
    if f.wordLevel || st.lastEnd > st.windowStart then st.lastEnd else f.start
  }

  function Step(st: WindowState, f: Fragment, interval: int): WindowState {
    if Closes(st, f, interval) then
      var windows :=
        if st.buffer != [] then st.windows + [Window(st.windowStart, LabelEnd(st, f), Concat(st.buffer))]
        else st.windows;
      WindowState(windows, [f.text], f.start, f.end)
    else
      WindowState(st.windows, st.buffer + [f.text], st.windowStart, f.end)
  }

  /** A window is emitted only when the fragment closes the current one
      and the buffer is not empty; the emitted window holds the buffered
      texts, and the next one starts at the fragment's start with only its
      text. A fragment that does not close the window joins the buffer. */
  lemma StepCloses(st: WindowState, f: Fragment, interval: int)
    ensures var nx := Step(st, f, interval);
      && (|nx.windows| == |st.windows| + 1 <==> Closes(st, f, interval) && st.buffer != [])
      && (|nx.windows| == |st.windows| + 1 ==>
            (nx.windows[..|st.windows|] == st.windows
             && nx.windows[|st.windows|].text == Concat(st.buffer) && nx.windows[|st.windows|].start == st.windowStart))
      && (|nx.windows| != |st.windows| + 1 ==> nx.windows == st.windows)
      && (Closes(st, f, interval) ==> nx.windowStart == f.start && nx.buffer == [f.text])
      && (!Closes(st, f, interval) ==> nx.windowStart == st.windowStart && nx.buffer == st.buffer + [f.text])
      && nx.lastEnd == f.end
  {
  }

  function Run(st: WindowState, frags: seq<Fragment>, interval: int): WindowState {
    if frags == [] then st else Step(Run(st, frags[..|frags| - 1], interval), frags[|frags| - 1], interval)
  }

  /** The final flush (lines 76-80). */
  function Flush(st: WindowState): seq<Window> {
    if st.buffer != [] then st.windows + [Window(st.windowStart, st.lastEnd, Concat(st.buffer))]
    else st.windows
  }

  predicate Complete(seg: Segment) {
    seg.text.Some? && HasTimes(seg)
  }

  predicate AllComplete(segs: seq<Segment>) {
    forall k :: 0 <= k < |segs| ==> Complete(segs[k])
  }

  function WordFragments(words: seq<Word>): (r: seq<Fragment>)
    ensures |r| == |words|
  {
    if words == [] then []
    else
      var w := words[|words| - 1];
      WordFragments(words[..|words| - 1]) + [Fragment(w.text, w.start, w.end, true)]
  }

  function SegmentFragments(seg: Segment): seq<Fragment>
    requires Complete(seg)
  {
    match seg.words
    case Some(words) => WordFragments(words)
    case None => [Fragment(seg.text.value, seg.start.value, seg.end.value, false)]
  }

  /** The fragments of all segments, in order. */
  function Fragments(segs: seq<Segment>): seq<Fragment>
    requires AllComplete(segs)
  {
    if segs == [] then [] else Fragments(segs[..|segs| - 1]) + SegmentFragments(segs[|segs| - 1])
  }

  /** The windows of the complete, non-empty segment list `segs`, unlabelled. */
  function SegmentWindows(segs: seq<Segment>, interval: int): seq<Window>
    requires AllComplete(segs) && segs != []
  {
    Flush(Run(Init(segs[0].start.value), Fragments(segs), interval))
  }

  /** `split_transcript_by_timestamps(result, interval)` with `format_time`
      available. An absent or empty result, or one without `segments`, gives
      no windows; an incomplete segment raises `KeyError`. */
  function Windows(result: Option<Transcription>, interval: int): (r: Result<seq<Window>, WindowError>)
    ensures result.None? || result.value.segments.None? ==> r == Ok([])
  {
    if result.None? || result.value.segments.None? then Ok([])
    else
      var segs := result.value.segments.value;
      if !AllComplete(segs) then Err(MissingKey)
      else if segs == [] then Ok([])
      else Ok(SegmentWindows(segs, interval))
  }

  // ---------------------------------------------------------------------
  // Properties of the fold

  function WindowTexts(ws: seq<Window>): (r: seq<string>)
    ensures |r| == |ws|
  {
    if ws == [] then [] else WindowTexts(ws[..|ws| - 1]) + [ws[|ws| - 1].text]
  }

  function FragmentTexts(frags: seq<Fragment>): (r: seq<string>)
    ensures |r| == |frags|
  {
    if frags == [] then [] else FragmentTexts(frags[..|frags| - 1]) + [frags[|frags| - 1].text]
  }

  predicate IsStart(frags: seq<Fragment>, a: int) {
    exists i :: 0 <= i < |frags| && frags[i].start == a
  }

  predicate IsEnd(frags: seq<Fragment>, b: int) {
    exists i :: 0 <= i < |frags| && frags[i].end == b
  }

  /** A window starting at the first segment's start or at a fragment's
      start, and labelled with a fragment's end or start as its end. */
  predicate WindowFrom(w: Window, first: int, frags: seq<Fragment>) {
    (w.start == first || IsStart(frags, w.start)) && (IsEnd(frags, w.end) || IsStart(frags, w.end))
  }

  /** What holds of the loop's variables after any prefix of the fragments. */
  predicate StateInv(st: WindowState, first: int, frags: seq<Fragment>) {
    && Concat(WindowTexts(st.windows)) + Concat(st.buffer) == Concat(FragmentTexts(frags))
    && |st.windows| + (if st.buffer == [] then 0 else 1) <= |frags|
    && (frags == [] ==> st == Init(first))
    && (frags != [] ==> st.buffer != [] && st.lastEnd == frags[|frags| - 1].end)
    && (st.windowStart == first || IsStart(frags, st.windowStart))
    && forall k :: 0 <= k < |st.windows| ==> WindowFrom(st.windows[k], first, frags)
  }

  lemma IsStartGrows(frags: seq<Fragment>, f: Fragment, a: int)
    requires IsStart(frags, a)
    ensures IsStart(frags + [f], a)
  {
    var i :| 0 <= i < |frags| && frags[i].start == a;
    assert (frags + [f])[i] == frags[i];
  }

  lemma IsEndGrows(frags: seq<Fragment>, f: Fragment, b: int)
    requires IsEnd(frags, b)
    ensures IsEnd(frags + [f], b)
  {
    var i :| 0 <= i < |frags| && frags[i].end == b;
    assert (frags + [f])[i] == frags[i];
  }

  lemma WindowFromGrows(w: Window, first: int, frags: seq<Fragment>, f: Fragment)
    requires WindowFrom(w, first, frags)
    ensures WindowFrom(w, first, frags + [f])
  {
    if w.start != first { IsStartGrows(frags, f, w.start); }
    if IsEnd(frags, w.end) { IsEndGrows(frags, f, w.end); } else { IsStartGrows(frags, f, w.end); }
  }

  lemma ConcatSingle(t: string)
    ensures Concat([t]) == t
  {
    assert [t][..0] == [];
  }

  /** What appending `f` to the fragments preserves, before the step. */
  lemma GrowFacts(st: WindowState, first: int, frags: seq<Fragment>, f: Fragment)
    requires StateInv(st, first, frags)
    ensures Concat(FragmentTexts(frags + [f])) == Concat(FragmentTexts(frags)) + f.text
    ensures forall k :: 0 <= k < |st.windows| ==> WindowFrom(st.windows[k], first, frags + [f])
    ensures IsStart(frags + [f], f.start)
    ensures st.windowStart == first || IsStart(frags + [f], st.windowStart)
    ensures frags != [] ==> IsEnd(frags + [f], st.lastEnd)
  {
    var all := frags + [f];
    assert all[..|frags|] == frags;
    assert FragmentTexts(all) == FragmentTexts(frags) + [f.text];
    ConcatSnoc(FragmentTexts(frags), f.text);
    ConcatSingle(f.text);
    forall k | 0 <= k < |st.windows|
      ensures WindowFrom(st.windows[k], first, all)
    {
      WindowFromGrows(st.windows[k], first, frags, f);
    }
    assert all[|frags|] == f;
    if st.windowStart != first { IsStartGrows(frags, f, st.windowStart); }
    if frags != [] {
      assert all[|frags| - 1] == frags[|frags| - 1];
    }
  }

  /** Closing with a non-empty buffer emits the buffer as a window. */
  lemma CloseInv(st: WindowState, first: int, frags: seq<Fragment>, f: Fragment, interval: int)
    requires StateInv(st, first, frags)
    requires Closes(st, f, interval) && st.buffer != []
    ensures StateInv(WindowState(st.windows + [Window(st.windowStart, LabelEnd(st, f), Concat(st.buffer))], [f.text], f.start, f.end),
      first, frags + [f])
  {
    GrowFacts(st, first, frags, f);
    var w := Window(st.windowStart, LabelEnd(st, f), Concat(st.buffer));
    var ws := st.windows + [w];
    assert ws[..|st.windows|] == st.windows;
    ConcatSnoc(WindowTexts(st.windows), w.text);
    ConcatSingle(w.text);
    ConcatSingle(f.text);
    assert WindowFrom(w, first, frags + [f]);
    assert forall k :: 0 <= k < |ws| ==> WindowFrom(ws[k], first, frags + [f]) by {
      forall k | 0 <= k < |ws|
        ensures WindowFrom(ws[k], first, frags + [f])
      {
        if k < |st.windows| { assert ws[k] == st.windows[k]; }
      }
    }
  }

  /** Closing with an empty buffer only restarts the window. */
  lemma RestartInv(st: WindowState, first: int, frags: seq<Fragment>, f: Fragment)
    requires StateInv(st, first, frags)
    requires st.buffer == []
    ensures StateInv(WindowState(st.windows, [f.text], f.start, f.end), first, frags + [f])
  {
    GrowFacts(st, first, frags, f);
    ConcatSingle(f.text);
  }

  /** A fragment that does not close the window joins the buffer. */
  lemma ExtendInv(st: WindowState, first: int, frags: seq<Fragment>, f: Fragment)
    requires StateInv(st, first, frags)
    ensures StateInv(WindowState(st.windows, st.buffer + [f.text], st.windowStart, f.end), first, frags + [f])
  {
    var st' := WindowState(st.windows, st.buffer + [f.text], st.windowStart, f.end);
    var all := frags + [f];
    GrowFacts(st, first, frags, f);
    ConcatSnoc(st.buffer, f.text);
    ConcatSingle(f.text);
    assert Concat(st'.buffer) == Concat(st.buffer) + f.text;
    assert Concat(WindowTexts(st'.windows)) + Concat(st'.buffer) == Concat(FragmentTexts(all));
    assert |st'.windows| + 1 <= |all|;
    assert st'.buffer != [] && st'.lastEnd == all[|all| - 1].end;
  }

  lemma StepInv(st: WindowState, first: int, frags: seq<Fragment>, f: Fragment, interval: int)
    requires StateInv(st, first, frags)
    ensures StateInv(Step(st, f, interval), first, frags + [f])
  {
    if Closes(st, f, interval) {
      if st.buffer != [] {
        CloseInv(st, first, frags, f, interval);
      } else {
        RestartInv(st, first, frags, f);
      }
    } else {
      ExtendInv(st, first, frags, f);
    }
  }

  lemma {:induction false} RunInv(first: int, frags: seq<Fragment>, interval: int)
    ensures StateInv(Run(Init(first), frags, interval), first, frags)
  {
    if frags != [] {
      var init := frags[..|frags| - 1];
      RunInv(first, init, interval);
      StepInv(Run(Init(first), init, interval), first, init, frags[|frags| - 1], interval);
      assert init + [frags[|frags| - 1]] == frags;
    }
  }

  /** The windows of a complete, non-empty segment list: their texts
      concatenate to the fragments' texts in order; there are at most as
      many windows as fragments and none exactly when there are no
      fragments; every window starts at the first segment's start or at a
      fragment's start and its label ends at a fragment's end or start; the
      last label ends at the last fragment's end. */
  lemma SegmentWindowsSpec(segs: seq<Segment>, interval: int)
    requires AllComplete(segs) && segs != []
    ensures var ws := SegmentWindows(segs, interval);
      var frags := Fragments(segs);
      && Concat(WindowTexts(ws)) == Concat(FragmentTexts(frags))
      && |ws| <= |frags|
      && (ws == [] <==> frags == [])
      && (forall k :: 0 <= k < |ws| ==> WindowFrom(ws[k], segs[0].start.value, frags))
      && (frags != [] ==> ws[|ws| - 1].end == frags[|frags| - 1].end)
  {
    var first := segs[0].start.value;
    RunInv(first, Fragments(segs), interval);
    FlushInv(Run(Init(first), Fragments(segs), interval), first, Fragments(segs));
  }

  /** The final flush turns a state of the fold into windows with the
      properties of `SegmentWindowsSpec`. */
  lemma FlushInv(st: WindowState, first: int, frags: seq<Fragment>)
    requires StateInv(st, first, frags)
    ensures var ws := Flush(st);
      && Concat(WindowTexts(ws)) == Concat(FragmentTexts(frags))
      && |ws| <= |frags|
      && (ws == [] <==> frags == [])
      && (forall k :: 0 <= k < |ws| ==> WindowFrom(ws[k], first, frags))
      && (frags != [] ==> ws[|ws| - 1].end == frags[|frags| - 1].end)
  {
    if st.buffer != [] {
      var w := Window(st.windowStart, st.lastEnd, Concat(st.buffer));
      var ws := st.windows + [w];
      assert ws[..|st.windows|] == st.windows;
      ConcatSnoc(WindowTexts(st.windows), w.text);
      ConcatSingle(w.text);
      assert IsEnd(frags, st.lastEnd) by {
        assert frags[|frags| - 1].end == st.lastEnd;
      }
      assert WindowFrom(w, first, frags);
      assert Flush(st) == ws;
    } else {
      assert frags == [];
      assert Flush(st) == [];
    }
  }

  // ---------------------------------------------------------------------
  // The loop

  lemma RunSnoc(st: WindowState, frags: seq<Fragment>, f: Fragment, interval: int)
    ensures Run(st, frags + [f], interval) == Step(Run(st, frags, interval), f, interval)
  {
    assert (frags + [f])[..|frags|] == frags;
  }

  lemma WordFragmentsSnoc(words: seq<Word>, j: nat)
    requires j < |words|
    ensures WordFragments(words[..j + 1]) == WordFragments(words[..j]) + [Fragment(words[j].text, words[j].start, words[j].end, true)]
  {
    assert words[..j + 1][..j] == words[..j];
  }

  lemma AllCompleteSnoc(segs: seq<Segment>, i: nat)
    requires i < |segs| && AllComplete(segs[..i]) && Complete(segs[i])
    ensures AllComplete(segs[..i + 1])
  {
    assert forall k :: 0 <= k < i ==> segs[..i + 1][k] == segs[..i][k];
  }

  lemma FragmentsSnoc(segs: seq<Segment>, i: nat)
    requires i < |segs| && AllComplete(segs[..i + 1])
    ensures AllComplete(segs[..i]) && Complete(segs[i])
    ensures Fragments(segs[..i + 1]) == Fragments(segs[..i]) + SegmentFragments(segs[i])
  {
    assert segs[..i + 1][..i] == segs[..i];
    assert segs[..i + 1][i] == segs[i];
  }

  lemma {:induction false} RunAppend(st: WindowState, a: seq<Fragment>, b: seq<Fragment>, interval: int)
    ensures Run(st, a + b, interval) == Run(Run(st, a, interval), b, interval)
  {
    if b == [] {
      assert a + b == a;
    } else {
      var init := b[..|b| - 1];
      RunAppend(st, a, init, interval);
      assert (a + b)[..|a + b| - 1] == a + init;
    }
  }

  /** The inner loop of lines 38-59 over one segment's words. */
  method WindowWords(windows0: seq<Window>, texts0: seq<string>, windowStart0: int, lastEnd0: int,
                     words: seq<Word>, interval: int)
    returns (windows: seq<Window>, texts: seq<string>, windowStart: int, lastEnd: int)
    ensures WindowState(windows, texts, windowStart, lastEnd)
      == Run(WindowState(windows0, texts0, windowStart0, lastEnd0), WordFragments(words), interval)
  {
    ghost var st0 := WindowState(windows0, texts0, windowStart0, lastEnd0);
    windows, texts, windowStart, lastEnd := windows0, texts0, windowStart0, lastEnd0;
    var j := 0;
    assert words[..0] == [];
    while j < |words|
      invariant 0 <= j <= |words|
      invariant WindowState(windows, texts, windowStart, lastEnd) == Run(st0, WordFragments(words[..j]), interval)
    {
      var w := words[j];
      ghost var f := Fragment(w.text, w.start, w.end, true);
      ghost var before := WindowState(windows, texts, windowStart, lastEnd);
      if (2 * (w.start - lastEnd) > interval && lastEnd != 0) || w.end - windowStart > interval {
        if texts != [] {
          windows := windows + [Window(windowStart, lastEnd, Concat(texts))];
          texts := [];
        }
        windowStart := w.start;
      }
      texts := texts + [w.text];
      lastEnd := w.end;
      assert WindowState(windows, texts, windowStart, lastEnd) == Step(before, f, interval);
      WordFragmentsSnoc(words, j);
      RunSnoc(st0, WordFragments(words[..j]), f, interval);
      j := j + 1;
    }
    assert words[..j] == words;
  }

  /** The body of the loop of lines 24-72 for one complete segment: its
      words, or the segment itself when it has no `words`. */
  method WindowSegment(windows0: seq<Window>, texts0: seq<string>, windowStart0: int, lastEnd0: int,
                       seg: Segment, interval: int)
    returns (windows: seq<Window>, texts: seq<string>, windowStart: int, lastEnd: int)
    requires Complete(seg)
    ensures WindowState(windows, texts, windowStart, lastEnd)
      == Run(WindowState(windows0, texts0, windowStart0, lastEnd0), SegmentFragments(seg), interval)
  {
    ghost var st0 := WindowState(windows0, texts0, windowStart0, lastEnd0);
    if seg.words.Some? {
      windows, texts, windowStart, lastEnd := WindowWords(windows0, texts0, windowStart0, lastEnd0, seg.words.value, interval);
    } else {
      var segStart, segEnd := seg.start.value, seg.end.value;
      windows, texts, windowStart, lastEnd := windows0, texts0, windowStart0, lastEnd0;
      if (2 * (segStart - lastEnd) > interval && lastEnd != 0) || segEnd - windowStart > interval {
        if texts != [] {
          var labelEnd := if lastEnd > windowStart then lastEnd else segStart;
          windows := windows + [Window(windowStart, labelEnd, Concat(texts))];
          texts := [];
        }
        windowStart := segStart;
      }
      texts := texts + [seg.text.value];
      lastEnd := segEnd;
      ghost var f := Fragment(seg.text.value, segStart, segEnd, false);
      assert WindowState(windows, texts, windowStart, lastEnd) == Step(st0, f, interval);
      RunSnoc(st0, [], f, interval);
    }
  }

  /** The loops of lines 24-80, with `format_time` available. */
  method SplitTranscriptByTimestamps(result: Option<Transcription>, interval: int)
    returns (r: Result<seq<Window>, WindowError>)
    ensures r == Windows(result, interval)
  {
    var windows: seq<Window> := [];
    var texts: seq<string> := [];
    var windowStart: Option<int> := None;
    var lastEnd := 0;
    if result.None? || result.value.segments.None? {
      return Ok([]);
    }
    var segs := result.value.segments.value;
    var i := 0;
    while i < |segs|
      invariant 0 <= i <= |segs|
      invariant AllComplete(segs[..i])
      invariant i == 0 ==> windows == [] && texts == [] && windowStart.None? && lastEnd == 0
      invariant i > 0 ==> (windowStart.Some? && Complete(segs[0])
        && WindowState(windows, texts, windowStart.value, lastEnd)
           == Run(Init(segs[0].start.value), Fragments(segs[..i]), interval))
    {
      var seg := segs[i];
      if seg.start.None? || seg.end.None? || seg.text.None? {
        assert !Complete(segs[..|segs|][i]);
        return Err(MissingKey);
      }
      if windowStart.None? {
        windowStart := Some(seg.start.value);
      }
      AllCompleteSnoc(segs, i);
      FragmentsSnoc(segs, i);
      ghost var first := segs[0].start.value;
      ghost var done := Fragments(segs[..i]);
      assert WindowState(windows, texts, windowStart.value, lastEnd) == Run(Init(first), done, interval);
      var ws;
      windows, texts, ws, lastEnd := WindowSegment(windows, texts, windowStart.value, lastEnd, seg, interval);
      windowStart := Some(ws);
      RunAppend(Init(first), done, SegmentFragments(seg), interval);
      i := i + 1;
    }
    assert segs[..i] == segs;
    if texts != [] {
      windows := windows + [Window(windowStart.value, lastEnd, Concat(texts))];
    }
    r := Ok(windows);
  }

  // ---------------------------------------------------------------------
  // As written: every emission raises NameError

  /** A step as written: emitting a window evaluates the undefined
      `format_time` and raises (`None`). */
  function StepAsWritten(st: WindowState, f: Fragment, interval: int): Option<WindowState> {
    if Closes(st, f, interval) && st.buffer != [] then None else Some(Step(st, f, interval))
  }

  function RunAsWritten(st: WindowState, frags: seq<Fragment>, interval: int): Option<WindowState> {
    if frags == [] then Some(st)
    else
      match RunAsWritten(st, frags[..|frags| - 1], interval)
      case None => None
      case Some(s) => StepAsWritten(s, frags[|frags| - 1], interval)
  }

  function FlushAsWritten(st: WindowState): Option<seq<Window>> {
    if st.buffer != [] then None else Some(st.windows)
  }

  /** `split_transcript_by_timestamps` as written; `None` when it raises
      (the `NameError` of an emission or the `KeyError` of an incomplete
      segment). */
  function WindowsAsWritten(result: Option<Transcription>, interval: int): Option<seq<Window>> {
    if result.None? || result.value.segments.None? then Some([])
    else
      var segs := result.value.segments.value;
      if !AllComplete(segs) then None
      else if segs == [] then Some([])
      else
        match RunAsWritten(Init(segs[0].start.value), Fragments(segs), interval)
        case None => None
        case Some(st) => FlushAsWritten(st)
  }

  lemma {:induction false} RunAsWrittenAgrees(st: WindowState, frags: seq<Fragment>, interval: int)
    requires RunAsWritten(st, frags, interval).Some?
    ensures RunAsWritten(st, frags, interval).value == Run(st, frags, interval)
  {
    if frags != [] {
      RunAsWrittenAgrees(st, frags[..|frags| - 1], interval);
    }
  }

  /** As written, a transcript with any text to window never returns: it
      either raises or, having no fragments, returns no windows. */
  lemma AsWrittenNeverWindows(result: Option<Transcription>, interval: int)
    ensures WindowsAsWritten(result, interval).Some? ==> WindowsAsWritten(result, interval).value == []
    ensures (result.Some? && result.value.segments.Some? && AllComplete(result.value.segments.value)
      && Fragments(result.value.segments.value) != []) ==> WindowsAsWritten(result, interval).None?
  {
    if result.Some? && result.value.segments.Some? && AllComplete(result.value.segments.value) {
      var segs := result.value.segments.value;
      if segs != [] {
        var first := segs[0].start.value;
        var frags := Fragments(segs);
        var o := RunAsWritten(Init(first), frags, interval);
        if o.Some? {
          RunAsWrittenAgrees(Init(first), frags, interval);
          RunInv(first, frags, interval);
        }
      }
    }
  }

  /** The label of the window from 0 s to 1 s. */
  lemma LabelExample()
    ensures Label(0, 1) == "0:00 - 0:01"
  {
    SmallDigits();
    FormatShort(0, 0);
    FormatShort(0, 1);
  }

  /** One segment "hi" from 0 to 1 s: as written the call raises, while with
      `format_time` imported it yields the window labelled "0:00 - 0:01". */
  lemma AsWrittenCounterexample()
    ensures var result := Some(Transcription(Some("hi"), Some([Segment(Some("hi"), Some(0), Some(1), None)])));
      && WindowsAsWritten(result, 60).None?
      && Windows(result, 60) == Ok([Window(0, 1, "hi")])
      && TimeLabel(Window(0, 1, "hi")) == "0:00 - 0:01"
  {
    var seg := Segment(Some("hi"), Some(0), Some(1), None);
    var segs := [seg];
    var f := Fragment("hi", 0, 1, false);
    assert segs[..0] == [];
    assert Fragments(segs) == [f];
    assert [f][..0] == [];
    assert Run(Init(0), [], 60) == Init(0);
    assert !Closes(Init(0), f, 60);
    var st := Run(Init(0), [f], 60);
    assert st == Step(Init(0), f, 60);
    assert st == WindowState([], ["hi"], 0, 1);
    assert RunAsWritten(Init(0), [f], 60) == Some(st);
    ConcatSingle("hi");
    assert SegmentWindows(segs, 60) == [Window(0, 1, "hi")];
    LabelExample();
  }
}
