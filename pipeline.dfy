/** `main_workflow` of main.py: the stage gating of stages 1-4 and the clip
    records carried through extraction (stage 5) and reformatting and
    captioning (stage 6) to the list of final paths. Every collaborator
    (the file system, the downloader, ffmpeg, Whisper, the tagger, moviepy)
    is an oracle of the `Environment`. */
module Pipeline {
  import opened Wrappers
  import opened Text
  import opened Paths
  import opened Transcript
  import opened Ranking
  import opened ContentAnalysis
  import opened VideoProcessing
  import opened AudioProcessing

  /** The command-line arguments the workflow reads (main.py:347-356). */
  datatype Args = Args(inputSource: string, outputDir: string, numSegments: int, minSegmentLength: int,
                       outputAspectRatio: string, skipCaptioning: bool)

  /** What the collaborators answer: whether a path exists when it is
      checked, what the downloader returns for a URL, whether copying the
      local input to a destination completes, whether the audio shell
      command completes, what Whisper returns for an audio path, the tagger,
      whether an ffmpeg argument list completes, a clip's frame size, and
      whether writing the cropped clip or the captioned clip to a path
      completes. */
  datatype Environment = Environment(
    fileExists: string -> bool,
    download: string -> Option<string>,
    copy: string -> bool,
    shell: string -> bool,
    whisper: string -> Option<Transcription>,
    tagger: Tagger,
    ffmpeg: seq<string> -> bool,
    probe: string -> Option<(nat, nat)>,
    writeCrop: string -> Crop -> bool,
    writeCaptions: string -> seq<Caption> -> bool)

  /** How a run ends: one of the early returns of stages 1-3, the uncaught
      `KeyError` of stage 6, or completion with the final clip paths. */
  datatype RunOutcome =
    | DownloadFailed
    | InputMissing
    | CopyFailed
    | VideoUnavailable
    | AudioFailed
    | TranscriptionFailed
    | Crashed
    | Completed(finalPaths: seq<string>)

  // ---------------------------------------------------------------------
  // Stages 1-4

  /** Line 36: the input is downloaded exactly when it is a URL. */
  predicate IsUrl(s: string) {
    StartsWith(s, "http://") || StartsWith(s, "https://")
  }

  function TempDir(args: Args): string {
    Join(args.outputDir, ".clipify_temp")
  }

  /** Stage 1 (lines 30-62): the video to work on and the file name the
      audio is named after, or the reason the run returns. */
  function HandleInput(env: Environment, args: Args): (r: Result<(string, string), RunOutcome>)
    ensures r.Err? ==> r.error in {DownloadFailed, InputMissing, CopyFailed, VideoUnavailable}
    ensures r.Ok? ==> r.value.0 != [] && env.fileExists(r.value.0)
    ensures r == Err(DownloadFailed) <==> IsUrl(args.inputSource) && env.download(args.inputSource).GetOr([]) == []
    ensures r == Err(InputMissing) <==> !IsUrl(args.inputSource) && !env.fileExists(args.inputSource)
    ensures r.Ok? && !IsUrl(args.inputSource) ==> r.value == (Join(TempDir(args), Basename(args.inputSource)), Basename(args.inputSource))
  {
    if IsUrl(args.inputSource) then
      var video := env.download(args.inputSource).GetOr([]);
      if video == [] then Err(DownloadFailed)
      else if !env.fileExists(video) then Err(VideoUnavailable)
      else Ok((video, Basename(video)))
    else if !env.fileExists(args.inputSource) then Err(InputMissing)
    else
      var video := Join(TempDir(args), Basename(args.inputSource));
      if !env.copy(video) then Err(CopyFailed)
      else if video == [] || !env.fileExists(video) then Err(VideoUnavailable)
      else Ok((video, Basename(args.inputSource)))
  }

  /** Lines 71-72: the audio file in the temporary directory. */
  function AudioPath(args: Args, name: string): string {
    Join(TempDir(args), SplitExt(name).0 + ".wav")
  }

  /** The audio path already ends in `.wav`, so the extractor keeps it. */
  lemma AudioPathKept(args: Args, name: string)
    ensures ForceWav(AudioPath(args, name)) == AudioPath(args, name)
  {
    var p := AudioPath(args, name);
    var b := SplitExt(name).0 + ".wav";
    assert p[|p| - |b|..] == b;
    assert b[|b| - 4..] == ".wav";
    assert p[|p| - 4..] == ".wav";
    assert p == p[..|p| - 4] + ".wav";
    WavKept(p[..|p| - 4]);
  }

  /** Stage 4 (lines 106-125): no segments, an empty list or an exception
      in the selection (a segment without times on the basic path) give no
      selection. */
  function Selection(env: Environment, args: Args, t: Transcription): (r: seq<Selected>)
    ensures t.segments.None? || t.segments.value == [] ==> r == []
    ensures (t.segments.Some? && env.tagger.LoadFailed?
             && BasicCandidates(t.segments.value, args.minSegmentLength).Err?) ==> r == []
  {
    match t.segments
    case None => []
    case Some(segs) =>
      if segs == [] then []
      else
        match ImportantSegments(env.tagger, segs, args.numSegments, args.minSegmentLength)
        case Err(_) => []
        case Ok(s) => s
  }

  // ---------------------------------------------------------------------
  // Stage 5: clip names and extraction

  /** A clip record: the selected segment, the clip extracted for it and,
      after stage 6, its final clip. */
  datatype ClipRecord = ClipRecord(segment: Selected, rawClipPath: string, finalClipPath: Option<string>)

  function SanitizeChar(c: char): char {
    if IsAlnum(c) then c else '_'
  }

  /** Each character kept if alphanumeric, otherwise `_`. */
  function Sanitize(s: string): (r: string)
    ensures |r| == |s|
    ensures forall i :: 0 <= i < |s| ==> r[i] == SanitizeChar(s[i])
  {
    if s == [] then [] else [SanitizeChar(s[0])] + Sanitize(s[1..])
  }

  /** Line 145: the first 20 characters of the text, sanitized, with
      leading and trailing `_` stripped. */
  function NamePrefix(text: string): string {
    StripChar(Sanitize(text[..if |text| < 20 then |text| else 20]), '_')
  }

  predicate NameChar(c: char) {
    IsAlnum(c) || c == '_'
  }

  /** The prefix has at most 20 characters, all alphanumeric or `_`, and
      neither begins nor ends with `_`. */
  lemma NamePrefixSpec(text: string)
    ensures var p := NamePrefix(text);
      && |p| <= 20
      && (forall i :: 0 <= i < |p| ==> NameChar(p[i]))
      && (p == [] || (p[0] != '_' && p[|p| - 1] != '_'))
  {
    var s := Sanitize(text[..if |text| < 20 then |text| else 20]);
    assert forall i :: 0 <= i < |s| ==> NameChar(s[i]);
    StrippedNameChars(s);
  }

  /** Stripping `_` keeps only characters of the string. */
  lemma StrippedNameChars(s: string)
    requires forall i :: 0 <= i < |s| ==> NameChar(s[i])
    ensures forall i :: 0 <= i < |StripChar(s, '_')| ==> NameChar(StripChar(s, '_')[i])
  {
    var t := StripCharStart(s, '_');
    var p := StripCharEnd(t, '_');
    forall i | 0 <= i < |p|
      ensures NameChar(p[i])
    {
      assert p[i] == t[i] == s[|s| - |t| + i];
    }
  }

  /** Line 146 without the extension. */
  function RawClipStem(i: nat, seg: Selected): string {
    "segment_" + IntToString(i + 1) + "_" + NamePrefix(seg.text) + "_" + IntToString(seg.start) + "s-" + IntToString(seg.end) + "s"
  }

  /** Line 146: `segment_{i+1}_{prefix}_{start}s-{end}s.mp4`. */
  function RawClipName(i: nat, seg: Selected): string {
    RawClipStem(i, seg) + ".mp4"
  }

  function RawDir(args: Args): string {
    Join(args.outputDir, "raw_clips")
  }

  /** Line 147. */
  function RawClipPath(args: Args, i: nat, seg: Selected): string {
    Join(RawDir(args), RawClipName(i, seg))
  }

  /** Whether `extract_video_segments` succeeds for the `i`-th selection. */
  predicate Extracts(env: Environment, args: Args, video: string, i: nat, seg: Selected) {
    ExtractVideoSegments(video, seg.start, seg.end, RawClipPath(args, i, seg), env.fileExists(video), env.ffmpeg).success
  }

  /** The record stage 5 builds for the `i`-th selection, if its
      extraction succeeds. */
  function RawRecords(args: Args, sel: seq<Selected>): (r: seq<ClipRecord>)
    ensures |r| == |sel|
    ensures forall i :: 0 <= i < |sel| ==> r[i] == ClipRecord(sel[i], RawClipPath(args, i, sel[i]), None)
  {
    seq(|sel|, i requires 0 <= i < |sel| => ClipRecord(sel[i], RawClipPath(args, i, sel[i]), None))
  }

  /** Which extractions succeed. */
  function Successes(env: Environment, args: Args, video: string, sel: seq<Selected>): (r: seq<bool>)
    ensures |r| == |sel|
    ensures forall i :: 0 <= i < |sel| ==> r[i] == Extracts(env, args, video, i, sel[i])
  {
    seq(|sel|, i requires 0 <= i < |sel| => Extracts(env, args, video, i, sel[i]))
  }

  /** The elements of `s` at the positions where `keep` holds, in order. */
  function KeepWhere<T>(s: seq<T>, keep: seq<bool>): (r: seq<T>)
    requires |keep| == |s|
    ensures |r| <= |s|
  {
    if s == [] then []
    else
      var n := |s| - 1;
      var init := KeepWhere(s[..n], keep[..n]);
      if keep[n] then init + [s[n]] else init
  }

  /** A strictly increasing list of positions. */
  predicate Increasing(idx: seq<nat>) {
    forall a, b :: 0 <= a < b < |idx| ==> idx[a] < idx[b]
  }

  /** What is kept is an order-preserving subsequence: the elements at
      increasing positions `idx`, which are exactly the positions where
      `keep` holds. */
  lemma {:induction false} KeepWhereSurvivors<T>(s: seq<T>, keep: seq<bool>) returns (idx: seq<nat>)
    requires |keep| == |s|
    ensures var r := KeepWhere(s, keep);
      && |idx| == |r| && Increasing(idx)
      && (forall k :: 0 <= k < |idx| ==> idx[k] < |s| && r[k] == s[idx[k]])
      && (forall i :: 0 <= i < |s| ==> (i in idx <==> keep[i]))
  {
    if s == [] {
      idx := [];
    } else {
      var n := |s| - 1;
      var prev := KeepWhereSurvivors(s[..n], keep[..n]);
      assert forall k :: 0 <= k < |prev| ==> s[..n][prev[k]] == s[prev[k]];
      if keep[n] {
        idx := prev + [n];
      } else {
        idx := prev;
      }
      forall i | 0 <= i < |s|
        ensures i in idx <==> keep[i]
      {
        if i < n {
          assert keep[..n][i] == keep[i];
        }
      }
    }
  }

  lemma KeepWhereSnoc<T>(s: seq<T>, keep: seq<bool>, n: nat)
    requires |keep| == |s| && n < |s|
    ensures KeepWhere(s[..n + 1], keep[..n + 1]) ==
      if keep[n] then KeepWhere(s[..n], keep[..n]) + [s[n]] else KeepWhere(s[..n], keep[..n])
  {
    assert s[..n + 1][..n] == s[..n] && keep[..n + 1][..n] == keep[..n];
  }

  lemma KeepWhereWhole<T>(s: seq<T>, keep: seq<bool>)
    requires |keep| == |s|
    ensures KeepWhere(s[..|s|], keep[..|keep|]) == KeepWhere(s, keep)
  {
    assert s[..|s|] == s && keep[..|keep|] == keep;
  }

  /** Stage 5 (lines 139-171): the selected segments whose extraction
      succeeds, each tagged with its raw clip path, in order. */
  function Extracted(env: Environment, args: Args, video: string, sel: seq<Selected>): (r: seq<ClipRecord>)
    ensures |r| <= |sel|
  {
    KeepWhere(RawRecords(args, sel), Successes(env, args, video, sel))
  }

  /** The stage-5 survivors are an order-preserving subsequence of the
      selection: at the positions `idx`, which are exactly the positions
      whose extraction succeeds, each with the path its clip was written
      to. */
  lemma ExtractedSurvivors(env: Environment, args: Args, video: string, sel: seq<Selected>)
    returns (idx: seq<nat>)
    ensures var r := Extracted(env, args, video, sel);
      && |idx| == |r| && Increasing(idx)
      && (forall k :: 0 <= k < |idx| ==> idx[k] < |sel| && r[k] == ClipRecord(sel[idx[k]], RawClipPath(args, idx[k], sel[idx[k]]), None))
      && (forall i :: 0 <= i < |sel| ==> (i in idx <==> Extracts(env, args, video, i, sel[i])))
  {
    idx := KeepWhereSurvivors(RawRecords(args, sel), Successes(env, args, video, sel));
  }

  lemma {:induction false} NoSlashInNumber(i: int)
    ensures '/' !in IntToString(i)
  {
    if i < 0 {
      assert AllDigits(NatToString(-i));
      assert IntToString(i) == "-" + NatToString(-i);
    } else {
      assert AllDigits(NatToString(i));
    }
  }

  lemma NoSlashInName(i: nat, seg: Selected)
    ensures '/' !in RawClipName(i, seg)
  {
    NoSlashInPrefix(seg.text);
    NoSlashInNumber(i + 1);
    NoSlashInNumber(seg.start);
    NoSlashInNumber(seg.end);
    NoSlashInPieces(IntToString(i + 1), NamePrefix(seg.text), IntToString(seg.start), IntToString(seg.end));
  }

  lemma NoSlashInPrefix(text: string)
    ensures '/' !in NamePrefix(text)
  {
    NamePrefixSpec(text);
    NoSlashInNameChars(NamePrefix(text));
  }

  lemma NoSlashInNameChars(p: string)
    requires forall k :: 0 <= k < |p| ==> NameChar(p[k])
    ensures '/' !in p
  {
    assert !NameChar('/');
  }

  lemma NoSlashInPieces(n: string, prefix: string, a: string, b: string)
    requires '/' !in n && '/' !in prefix && '/' !in a && '/' !in b
    ensures '/' !in "segment_" + n + "_" + prefix + "_" + a + "s-" + b + "s" + ".mp4"
  {
  }

  /** The clip's base name without extension (line 192). */
  function ClipStem(raw: string): string {
    SplitExt(Basename(raw)).0
  }

  lemma BasenameOfJoin(dir: string, name: string)
    requires dir != [] && dir[|dir| - 1] != '/'
    requires name != [] && '/' !in name
    ensures Basename(Join(dir, name)) == name
  {
    var p := Join(dir, name);
    assert p == dir + "/" + name;
    assert p[|dir|] == '/';
    var i := LastIndexOf(p, '/');
    assert forall j :: |dir| < j < |p| ==> p[j] == name[j - |dir| - 1];
    assert i == |dir|;
    assert p[i + 1..] == name;
  }

  lemma SplitExtMp4(stem: string)
    requires stem != [] && stem[0] != '.' && '/' !in stem
    ensures SplitExt(stem + ".mp4") == (stem, ".mp4")
  {
    var p := stem + ".mp4";
    var dot := |stem|;
    assert p[dot] == '.' && p[dot + 1] == 'm' && p[dot + 2] == 'p' && p[dot + 3] == '4';
    assert LastIndexOf(p, '.') == dot;
    assert '/' !in p;
    assert LastIndexOf(p, '/') == -1;
    assert p[0] != '.';
    assert HasExtension(p);
    assert p[..dot] == stem;
  }

  /** Stage 6 names its outputs after the clip's own file name: the stem
      of a raw clip path is `segment_{i+1}_{prefix}_{start}s-{end}s`. */
  lemma ClipStemOfRawPath(args: Args, i: nat, seg: Selected)
    ensures ClipStem(RawClipPath(args, i, seg)) == RawClipStem(i, seg)
  {
    var dir := RawDir(args);
    var name := RawClipName(i, seg);
    assert dir[|dir| - |"raw_clips"|..] == "raw_clips";
    NoSlashInName(i, seg);
    BasenameOfJoin(dir, name);
    assert RawClipStem(i, seg)[0] == 's';
    SplitExtMp4(RawClipStem(i, seg));
  }

  /** The stage-5 loop. */
  method ExtractClips(env: Environment, args: Args, video: string, sel: seq<Selected>) returns (clips: seq<ClipRecord>)
    ensures clips == Extracted(env, args, video, sel)
  {
    ghost var records := RawRecords(args, sel);
    ghost var successes := Successes(env, args, video, sel);
    clips := [];
    var i := 0;
    while i < |sel|
      invariant 0 <= i <= |sel|
      invariant clips == KeepWhere(records[..i], successes[..i])
    {
      var seg := sel[i];
      var path := Join(RawDir(args), RawClipName(i, seg));
      var success := ExtractVideoSegments(video, seg.start, seg.end, path, env.fileExists(video), env.ffmpeg).success;
      ExtractStep(env, args, video, sel, i, path, success);
      if success {
        clips := clips + [ClipRecord(seg, path, None)];
      }
      i := i + 1;
    }
    KeepWhereWhole(records, successes);
  }

  lemma ExtractStep(env: Environment, args: Args, video: string, sel: seq<Selected>, i: nat, path: string, success: bool)
    requires i < |sel|
    requires path == Join(RawDir(args), RawClipName(i, sel[i]))
    requires success == ExtractVideoSegments(video, sel[i].start, sel[i].end, path, env.fileExists(video), env.ffmpeg).success
    ensures var records := RawRecords(args, sel);
      var successes := Successes(env, args, video, sel);
      KeepWhere(records[..i + 1], successes[..i + 1]) ==
        if success then KeepWhere(records[..i], successes[..i]) + [ClipRecord(sel[i], path, None)]
        else KeepWhere(records[..i], successes[..i])
  {
    var records := RawRecords(args, sel);
    var successes := Successes(env, args, video, sel);
    assert records[i] == ClipRecord(sel[i], path, None) && successes[i] == success;
    KeepWhereSnoc(records, successes, i);
  }

  // ---------------------------------------------------------------------
  // Stage 6: captions for a clip

  /** All the times the overlap test of line 218 reads are present, and the
      segment overlaps the clip strictly. */
  predicate Overlaps(ws: Segment, clip: Selected) {
    ws.start.Some? && ws.end.Some? && ws.start.value < clip.end && ws.end.value > clip.start
  }

  /** The overlap test can be evaluated: `start` is present, and `end` is
      when the test reaches it. */
  predicate Testable(ws: Segment, clip: Selected) {
    ws.start.Some? && (ws.start.value < clip.end ==> ws.end.Some?)
  }

  /** Lines 216-219: the transcript segments overlapping the clip, in
      order; `None` when the test meets a missing time, which raises a
      `KeyError` nothing catches. */
  function Relevant(segs: seq<Segment>, clip: Selected): (r: Option<seq<Segment>>)
    ensures r.Some? ==> |r.value| <= |segs|
    ensures r.Some? ==> forall k :: 0 <= k < |r.value| ==> Overlaps(r.value[k], clip)
  {
    if segs == [] then Some([])
    else
      match Relevant(segs[..|segs| - 1], clip)
      case None => None
      case Some(init) =>
        var ws := segs[|segs| - 1];
        if !Testable(ws, clip) then None
        else if Overlaps(ws, clip) then Some(init + [ws])
        else Some(init)
  }

  /** The filter fails exactly when some segment lacks a time the overlap test reads, and
      otherwise keeps exactly the overlapping segments. */
  lemma {:induction false} RelevantExactly(segs: seq<Segment>, clip: Selected)
    ensures Relevant(segs, clip).None? <==> exists k :: 0 <= k < |segs| && !Testable(segs[k], clip)
    ensures Relevant(segs, clip).Some? ==>
      forall ws :: ws in Relevant(segs, clip).value <==> ws in segs && Overlaps(ws, clip)
  {
    if segs != [] {
      var n := |segs| - 1;
      var init := segs[..n];
      RelevantExactly(init, clip);
      assert segs == init + [segs[n]];
      if exists k :: 0 <= k < |init| && !Testable(init[k], clip) {
        var k :| 0 <= k < |init| && !Testable(init[k], clip);
        assert segs[k] == init[k];
      }
      if exists k :: 0 <= k < |segs| && !Testable(segs[k], clip) {
        var k :| 0 <= k < |segs| && !Testable(segs[k], clip);
        if k < n {
          assert init[k] == segs[k];
        }
      }
    }
  }

  function Max(a: int, b: int): int {
    if a >= b then a else b
  }

  /** Lines 225-238 for one overlapping segment: the stripped text with
      times rebased to the clip start, if the text is not blank and the
      rebased span is positive. */
  function Rebased(ws: Segment, clip: Selected): Option<TimedText>
    requires ws.start.Some? && ws.end.Some?
  {
    var text := Strip(ws.text.GetOr(""));
    var newStart := Max(0, ws.start.value - clip.start);
    var newEnd := ws.end.value - clip.start;
    if text != [] && newEnd > newStart then Some(TimedText(Some(text), Some(newStart), Some(newEnd))) else None
  }

  /** The loop of lines 221-238: the rebased captions, in order. */
  function Adjusted(rel: seq<Segment>, clip: Selected): (r: seq<TimedText>)
    requires forall k :: 0 <= k < |rel| ==> Overlaps(rel[k], clip)
    ensures |r| <= |rel|
  {
    if rel == [] then []
    else
      var init := Adjusted(rel[..|rel| - 1], clip);
      assert Overlaps(rel[|rel| - 1], clip);
      match Rebased(rel[|rel| - 1], clip)
      case None => init
      case Some(t) => init + [t]
  }

  /** A rebased caption starts at the clip start or later, ends after it
      starts, and carries non-blank text: `add_captions_to_video` keeps it. */
  predicate WellTimed(t: TimedText) {
    t.start.Some? && t.end.Some? && 0 <= t.start.value < t.end.value && Captionable(t)
  }

  lemma RebasedWellTimed(ws: Segment, clip: Selected)
    requires ws.start.Some? && ws.end.Some? && Rebased(ws, clip).Some?
    ensures WellTimed(Rebased(ws, clip).value)
    ensures Rebased(ws, clip).value.start.value == Max(0, ws.start.value - clip.start)
    ensures Rebased(ws, clip).value.end.value == ws.end.value - clip.start
  {
    var text := Strip(ws.text.GetOr(""));
    StripNoSpace(text);
  }

  /** Every adjusted caption is well timed; there are none exactly when
      every overlapping segment has blank text or no positive span within
      the clip. */
  lemma {:induction false} AdjustedWellTimed(rel: seq<Segment>, clip: Selected)
    requires forall k :: 0 <= k < |rel| ==> Overlaps(rel[k], clip)
    ensures forall k :: 0 <= k < |Adjusted(rel, clip)| ==> WellTimed(Adjusted(rel, clip)[k])
    ensures Adjusted(rel, clip) == [] <==> forall k :: 0 <= k < |rel| ==> Rebased(rel[k], clip).None?
  {
    if rel != [] {
      var n := |rel| - 1;
      AdjustedWellTimed(rel[..n], clip);
      assert forall k :: 0 <= k < n ==> rel[..n][k] == rel[k];
      if Rebased(rel[n], clip).Some? {
        RebasedWellTimed(rel[n], clip);
      }
    }
  }

  /** Every well-timed caption survives the filter of
      `add_captions_to_video`. */
  lemma {:induction false} CaptionsKeepAll(ts: seq<TimedText>)
    requires forall k :: 0 <= k < |ts| ==> WellTimed(ts[k])
    ensures |Captions(ts)| == |ts|
  {
    if ts != [] {
      var n := |ts| - 1;
      assert forall k :: 0 <= k < n ==> ts[..n][k] == ts[k];
      CaptionsKeepAll(ts[..n]);
    }
  }

  lemma AdjustedSnoc(rel: seq<Segment>, clip: Selected, i: nat)
    requires i < |rel| && forall k :: 0 <= k < |rel| ==> Overlaps(rel[k], clip)
    ensures Overlaps(rel[i], clip)
    ensures Adjusted(rel[..i + 1], clip) ==
      match Rebased(rel[i], clip)
      case None => Adjusted(rel[..i], clip)
      case Some(t) => Adjusted(rel[..i], clip) + [t]
  {
    assert rel[..i + 1][..i] == rel[..i];
  }

  lemma AdjustTimes(rel: seq<Segment>, clip: Selected, i: nat)
    requires i < |rel| && forall k :: 0 <= k < |rel| ==> Overlaps(rel[k], clip)
    ensures rel[i].start.Some? && rel[i].end.Some?
  {
    assert Overlaps(rel[i], clip);
  }

  lemma AdjustStep(rel: seq<Segment>, clip: Selected, i: nat, text: string, newStart: int, newEnd: int)
    requires i < |rel| && forall k :: 0 <= k < |rel| ==> Overlaps(rel[k], clip)
    requires rel[i].start.Some? && rel[i].end.Some?
    requires text == Strip(rel[i].text.GetOr(""))
    requires newStart == Max(0, rel[i].start.value - clip.start) && newEnd == rel[i].end.value - clip.start
    ensures Adjusted(rel[..i + 1], clip) ==
      if text != [] && newEnd > newStart then Adjusted(rel[..i], clip) + [TimedText(Some(text), Some(newStart), Some(newEnd))]
      else Adjusted(rel[..i], clip)
  {
    AdjustedSnoc(rel, clip, i);
  }

  /** The loop of lines 221-238. */
  method AdjustCaptions(rel: seq<Segment>, clip: Selected) returns (adjusted: seq<TimedText>)
    requires forall k :: 0 <= k < |rel| ==> Overlaps(rel[k], clip)
    ensures adjusted == Adjusted(rel, clip)
  {
    adjusted := [];
    var i := 0;
    while i < |rel|
      invariant 0 <= i <= |rel|
      invariant adjusted == Adjusted(rel[..i], clip)
    {
      var ws := rel[i];
      AdjustTimes(rel, clip, i);
      var text := Strip(ws.text.GetOr(""));
      AdjustStep(rel, clip, i, text, Max(0, ws.start.value - clip.start), ws.end.value - clip.start);
      if text != [] {
        var newStart := Max(0, ws.start.value - clip.start);
        var newEnd := ws.end.value - clip.start;
        if newEnd > newStart {
          adjusted := adjusted + [TimedText(Some(text), Some(newStart), Some(newEnd))];
        }
      }
      i := i + 1;
    }
    assert rel[..i] == rel;
  }

  // ---------------------------------------------------------------------
  // Stage 6: one record

  datatype RecordOutcome = Dropped | Finished(finalPath: string) | Crash

  function FinalDir(args: Args): string {
    Join(args.outputDir, "final_clips")
  }

  /** Line 195. */
  function FormattedPath(args: Args, raw: string): string {
    Join(FinalDir(args), ClipStem(raw) + "_formatted.mp4")
  }

  /** Line 211. */
  function CaptionedPath(args: Args, raw: string): string {
    Join(FinalDir(args), ClipStem(raw) + "_captioned.mp4")
  }

  lemma OutputNames(dir: string, stem: string)
    ensures Join(dir, stem + "_formatted.mp4") != Join(dir, stem + "_captioned.mp4")
    ensures EndsWith(Join(dir, stem + "_formatted.mp4"), ".mp4") && EndsWith(Join(dir, stem + "_captioned.mp4"), ".mp4")
  {
    var f := stem + "_formatted.mp4";
    var c := stem + "_captioned.mp4";
    assert f[|stem| + 1] == 'f' && c[|stem| + 1] == 'c';
    EndsWithDiffer(Join(dir, f), Join(dir, c), f, c);
    assert f == (stem + "_formatted") + ".mp4";
    assert c == (stem + "_captioned") + ".mp4";
    EndsWithTail(Join(dir, f), stem + "_formatted", ".mp4");
    EndsWithTail(Join(dir, c), stem + "_captioned", ".mp4");
  }

  /** The two outputs of a clip are distinct `.mp4` paths. */
  lemma OutputPaths(args: Args, raw: string)
    ensures FormattedPath(args, raw) != CaptionedPath(args, raw)
    ensures EndsWith(FormattedPath(args, raw), ".mp4") && EndsWith(CaptionedPath(args, raw), ".mp4")
  {
    OutputNames(FinalDir(args), ClipStem(raw));
  }

  /** The aspect conversion of lines 197-201: the formatted path, or `None`. */
  function Converted(env: Environment, args: Args, raw: string): (r: Option<string>)
    ensures r.Some? ==> r.value == FormattedPath(args, raw)
  {
    var formatted := FormattedPath(args, raw);
    ConvertVideoAspectRatio(raw, formatted, args.outputAspectRatio, env.fileExists(raw), env.probe(raw), env.writeCrop(formatted))
  }

  /** Whether the record has rebased captions (for a record whose
      transcript filter succeeds). */
  predicate HasCaptions(tsegs: seq<Segment>, rec: ClipRecord)
    requires Relevant(tsegs, rec.segment).Some?
  {
    Adjusted(Relevant(tsegs, rec.segment).value, rec.segment) != []
  }

  /** Lines 210-268: the captioned clip replaces the converted one when
      some rebased caption exists and the captioned file exists; a crash
      when the transcript filter meets an untestable segment. */
  function CaptionedOutcome(env: Environment, args: Args, tsegs: seq<Segment>, rec: ClipRecord, converted: string): RecordOutcome
  {
    if Relevant(tsegs, rec.segment).None? then Crash
    else if HasCaptions(tsegs, rec) && env.fileExists(CaptionedPath(args, rec.rawClipPath)) then Finished(CaptionedPath(args, rec.rawClipPath))
    else Finished(converted)
  }

  /** Lines 185-271 for one record, given what the conversion returns:
      dropped when its raw clip is missing or the conversion fails;
      otherwise finished, captioned or not. */
  function FinishWith(env: Environment, args: Args, tsegs: seq<Segment>, rec: ClipRecord, converted: Option<string>): RecordOutcome
  {
    var raw := rec.rawClipPath;
    if raw == [] || !env.fileExists(raw) then Dropped
    else
      match converted
      case None => Dropped
      case Some(path) =>
        if args.skipCaptioning then Finished(path)
        else CaptionedOutcome(env, args, tsegs, rec, path)
  }

  /** Lines 185-271 for one record. */
  function FinishRecord(env: Environment, args: Args, tsegs: seq<Segment>, rec: ClipRecord): RecordOutcome
  {
    FinishWith(env, args, tsegs, rec, Converted(env, args, rec.rawClipPath))
  }

  /** The cases of a record: dropped exactly when the raw clip is missing or
      the conversion fails; a crash exactly when captioning runs and the
      transcript filter fails; the final path is the captioned clip exactly
      when captioning is not skipped, some rebased caption exists and the
      captioned file exists, and otherwise the converted clip. */
  lemma FinishCases(env: Environment, args: Args, tsegs: seq<Segment>, rec: ClipRecord, converted: Option<string>)
    requires converted.Some? ==> converted.value == FormattedPath(args, rec.rawClipPath)
    ensures var o := FinishWith(env, args, tsegs, rec, converted);
      var raw := rec.rawClipPath;
      && (o.Dropped? <==> raw == [] || !env.fileExists(raw) || converted.None?)
      && (o.Crash? <==> !o.Dropped? && !args.skipCaptioning && Relevant(tsegs, rec.segment).None?)
      && (o.Finished? ==>
            (o.finalPath == CaptionedPath(args, raw) <==>
               !args.skipCaptioning && Relevant(tsegs, rec.segment).Some? && HasCaptions(tsegs, rec)
               && env.fileExists(CaptionedPath(args, raw))))
      && (o.Finished? && o.finalPath != CaptionedPath(args, raw) ==> o.finalPath == FormattedPath(args, raw))
      && (o.Finished? ==> o.finalPath != [] && EndsWith(o.finalPath, ".mp4"))
  {
    var raw := rec.rawClipPath;
    var o := FinishWith(env, args, tsegs, rec, converted);
    OutputPaths(args, raw);
    if raw == [] || !env.fileExists(raw) || converted.None? {
      assert o == Dropped;
    } else if args.skipCaptioning {
      assert o == Finished(converted.value);
    } else if Relevant(tsegs, rec.segment).None? {
      assert o == Crash;
    } else if HasCaptions(tsegs, rec) && env.fileExists(CaptionedPath(args, raw)) {
      assert o == Finished(CaptionedPath(args, raw));
    } else {
      assert o == Finished(converted.value);
    }
  }

  /** The cases of `FinishCases` for the conversion the record gets. */
  lemma FinishRecordCases(env: Environment, args: Args, tsegs: seq<Segment>, rec: ClipRecord)
    ensures var o := FinishRecord(env, args, tsegs, rec);
      var raw := rec.rawClipPath;
      && (o.Dropped? <==> raw == [] || !env.fileExists(raw) || Converted(env, args, raw).None?)
      && (o.Finished? ==> o.finalPath == FormattedPath(args, raw) || o.finalPath == CaptionedPath(args, raw))
      && (o.Finished? ==> o.finalPath != [] && EndsWith(o.finalPath, ".mp4"))
  {
    FinishCases(env, args, tsegs, rec, Converted(env, args, rec.rawClipPath));
  }

  /** Lines 185-271 for one record. */
  method FinishClip(env: Environment, args: Args, tsegs: seq<Segment>, rec: ClipRecord) returns (o: RecordOutcome)
    ensures o == FinishRecord(env, args, tsegs, rec)
  {
    var raw := rec.rawClipPath;
    if raw == [] || !env.fileExists(raw) {
      return Dropped;
    }
    var formatted := Join(FinalDir(args), ClipStem(raw) + "_formatted.mp4");
    var converted := ConvertVideoAspectRatio(raw, formatted, args.outputAspectRatio, env.fileExists(raw),
                                             env.probe(raw), env.writeCrop(formatted));
    assert converted == Converted(env, args, raw);
    if converted.None? {
      return Dropped;
    }
    if args.skipCaptioning {
      return Finished(converted.value);
    }
    o := CaptionClip(env, args, tsegs, rec, converted.value);
  }

  /** Lines 210-268: captioning the converted clip `current`. */
  method CaptionClip(env: Environment, args: Args, tsegs: seq<Segment>, rec: ClipRecord, current: string)
    returns (o: RecordOutcome)
    ensures o == CaptionedOutcome(env, args, tsegs, rec, current)
  {
    var captioned := Join(FinalDir(args), ClipStem(rec.rawClipPath) + "_captioned.mp4");
    assert captioned == CaptionedPath(args, rec.rawClipPath);
    var relevant := Relevant(tsegs, rec.segment);
    if relevant.None? {
      return Crash;
    }
    var adjusted := AdjustCaptions(relevant.value, rec.segment);
    assert adjusted != [] <==> HasCaptions(tsegs, rec);
    if adjusted != [] {
      var _ := AddCaptionsToVideo(env.fileExists(current), adjusted, env.writeCaptions(captioned));
      if env.fileExists(captioned) {
        return Finished(captioned);
      }
    }
    o := Finished(current);
  }

  // ---------------------------------------------------------------------
  // Stage 6: the loop and the final list

  /** `f` applied to every element of `s`, in order. */
  function MapSeq<A, B>(f: A -> B, s: seq<A>): (r: seq<B>)
    ensures |r| == |s|
  {
    if s == [] then [] else MapSeq(f, s[..|s| - 1]) + [f(s[|s| - 1])]
  }

  lemma {:induction false} MapSeqAt<A, B>(f: A -> B, s: seq<A>, i: nat)
    requires i < |s|
    ensures MapSeq(f, s)[i] == f(s[i])
  {
    var n := |s| - 1;
    if i < n {
      MapSeqAt(f, s[..n], i);
      assert s[..n][i] == s[i];
    }
  }

  lemma MapSeqSnoc<A, B>(f: A -> B, s: seq<A>, n: nat)
    requires n < |s|
    ensures MapSeq(f, s[..n + 1]) == MapSeq(f, s[..n]) + [f(s[n])]
  {
    assert s[..n + 1][..n] == s[..n];
  }

  /** The outcome of each record, in order. */
  function Outcomes(env: Environment, args: Args, tsegs: seq<Segment>, recs: seq<ClipRecord>): (r: seq<RecordOutcome>)
    ensures |r| == |recs|
  {
    MapSeq(rec => FinishRecord(env, args, tsegs, rec), recs)
  }

  lemma OutcomesAt(env: Environment, args: Args, tsegs: seq<Segment>, recs: seq<ClipRecord>, i: nat)
    requires i < |recs|
    ensures Outcomes(env, args, tsegs, recs)[i] == FinishRecord(env, args, tsegs, recs[i])
  {
    MapSeqAt(rec => FinishRecord(env, args, tsegs, rec), recs, i);
  }

  /** Every finished outcome names a non-empty path. */
  predicate AllNamed(outs: seq<RecordOutcome>) {
    forall j :: 0 <= j < |outs| && outs[j].Finished? ==> outs[j].finalPath != []
  }

  lemma AllNamedSnoc(init: seq<RecordOutcome>, last: RecordOutcome)
    requires AllNamed(init) && (last.Finished? ==> last.finalPath != [])
    ensures AllNamed(init + [last])
  {
    assert forall j :: 0 <= j < |init| ==> (init + [last])[j] == init[j];
  }

  /** Every finished record has a non-empty final path. */
  lemma {:induction false} OutcomesNamed(env: Environment, args: Args, tsegs: seq<Segment>, recs: seq<ClipRecord>)
    ensures AllNamed(Outcomes(env, args, tsegs, recs))
  {
    if recs != [] {
      var n := |recs| - 1;
      OutcomesNamed(env, args, tsegs, recs[..n]);
      FinishRecordCases(env, args, tsegs, recs[n]);
      AllNamedSnoc(Outcomes(env, args, tsegs, recs[..n]), FinishRecord(env, args, tsegs, recs[n]));
    }
  }

  lemma OutcomesAll(env: Environment, args: Args, tsegs: seq<Segment>, recs: seq<ClipRecord>)
    ensures forall i :: 0 <= i < |recs| ==> Outcomes(env, args, tsegs, recs)[i] == FinishRecord(env, args, tsegs, recs[i])
  {
    forall i | 0 <= i < |recs|
      ensures Outcomes(env, args, tsegs, recs)[i] == FinishRecord(env, args, tsegs, recs[i])
    {
      OutcomesAt(env, args, tsegs, recs, i);
    }
  }

  /** The finished records in order, each with its final path; `None` once
      a record crashes. */
  function Gather(recs: seq<ClipRecord>, outs: seq<RecordOutcome>): (r: Option<seq<ClipRecord>>)
    requires |outs| == |recs|
    ensures r.Some? ==> |r.value| <= |recs|
  {
    if recs == [] then Some([])
    else
      var n := |recs| - 1;
      match Gather(recs[..n], outs[..n])
      case None => None
      case Some(init) =>
        match outs[n]
        case Crash => None
        case Dropped => Some(init)
        case Finished(p) => Some(init + [recs[n].(finalClipPath := Some(p))])
  }

  /** Gathering fails exactly when some record crashes. */
  lemma {:induction false} GatherCrashes(recs: seq<ClipRecord>, outs: seq<RecordOutcome>)
    requires |outs| == |recs|
    ensures Gather(recs, outs).None? <==> exists i :: 0 <= i < |outs| && outs[i].Crash?
  {
    if recs != [] {
      var n := |recs| - 1;
      GatherCrashes(recs[..n], outs[..n]);
      if exists i :: 0 <= i < n && outs[..n][i].Crash? {
        var i :| 0 <= i < n && outs[..n][i].Crash?;
        assert outs[..n][i] == outs[i];
      }
      if exists i :: 0 <= i < |outs| && outs[i].Crash? {
        var i :| 0 <= i < |outs| && outs[i].Crash?;
        if i < n {
          assert outs[..n][i] == outs[i];
        }
      }
    }
  }

  /** What is gathered is an order-preserving subsequence of the records:
      at increasing positions `idx`, exactly those that finish, each with
      its final path. */
  lemma {:induction false} GatherSurvivors(recs: seq<ClipRecord>, outs: seq<RecordOutcome>) returns (idx: seq<nat>)
    requires |outs| == |recs| && Gather(recs, outs).Some?
    ensures var r := Gather(recs, outs).value;
      && |idx| == |r| && Increasing(idx)
      && (forall k :: 0 <= k < |idx| ==>
            (idx[k] < |recs| && outs[idx[k]].Finished?
             && r[k] == recs[idx[k]].(finalClipPath := Some(outs[idx[k]].finalPath))))
      && (forall i :: 0 <= i < |recs| ==> (i in idx <==> outs[i].Finished?))
  {
    if recs == [] {
      idx := [];
    } else {
      var n := |recs| - 1;
      var prev := GatherSurvivors(recs[..n], outs[..n]);
      assert forall k :: 0 <= k < |prev| ==> recs[..n][prev[k]] == recs[prev[k]] && outs[..n][prev[k]] == outs[prev[k]];
      if outs[n].Finished? {
        idx := prev + [n];
      } else {
        idx := prev;
      }
      forall i | 0 <= i < |recs|
        ensures i in idx <==> outs[i].Finished?
      {
        if i < n {
          assert outs[..n][i] == outs[i];
        }
      }
    }
  }

  lemma GatherSnoc(recs: seq<ClipRecord>, outs: seq<RecordOutcome>, n: nat, init: seq<ClipRecord>)
    requires |outs| == |recs| && n < |recs| && Gather(recs[..n], outs[..n]) == Some(init)
    ensures Gather(recs[..n + 1], outs[..n + 1]) ==
      match outs[n]
      case Crash => None
      case Dropped => Some(init)
      case Finished(p) => Some(init + [recs[n].(finalClipPath := Some(p))])
  {
    assert recs[..n + 1][..n] == recs[..n] && outs[..n + 1][..n] == outs[..n];
  }

  lemma GatherCrashAt(recs: seq<ClipRecord>, outs: seq<RecordOutcome>, i: nat)
    requires |outs| == |recs| && i < |outs| && outs[i].Crash?
    ensures Gather(recs, outs).None?
  {
    GatherCrashes(recs, outs);
  }

  /** Stage 6 (lines 184-275): the finished records in order, each with its
      final path; `None` when a record crashes. */
  function Processed(env: Environment, args: Args, tsegs: seq<Segment>, recs: seq<ClipRecord>): (r: Option<seq<ClipRecord>>)
    ensures r.Some? ==> |r.value| <= |recs|
  {
    Gather(recs, Outcomes(env, args, tsegs, recs))
  }

  /** The stage-6 loop fails exactly when some record crashes. */
  lemma ProcessedCrashes(env: Environment, args: Args, tsegs: seq<Segment>, recs: seq<ClipRecord>)
    ensures Processed(env, args, tsegs, recs).None? <==>
      exists i :: 0 <= i < |recs| && FinishRecord(env, args, tsegs, recs[i]).Crash?
  {
    var outs := Outcomes(env, args, tsegs, recs);
    OutcomesAll(env, args, tsegs, recs);
    GatherCrashes(recs, outs);
    if exists i :: 0 <= i < |recs| && FinishRecord(env, args, tsegs, recs[i]).Crash? {
      var i :| 0 <= i < |recs| && FinishRecord(env, args, tsegs, recs[i]).Crash?;
      assert outs[i].Crash?;
    }
  }

  /** The records finished in stage 6 are an order-preserving subsequence
      of its input: at the positions `idx`, which are exactly the records
      that finish, each with its final path set. */
  lemma ProcessedSurvivors(env: Environment, args: Args, tsegs: seq<Segment>, recs: seq<ClipRecord>)
    returns (idx: seq<nat>)
    requires Processed(env, args, tsegs, recs).Some?
    ensures var r := Processed(env, args, tsegs, recs).value;
      && |idx| == |r| && Increasing(idx)
      && (forall k :: 0 <= k < |idx| ==>
            (idx[k] < |recs| && FinishRecord(env, args, tsegs, recs[idx[k]]).Finished?
             && r[k] == recs[idx[k]].(finalClipPath := Some(FinishRecord(env, args, tsegs, recs[idx[k]]).finalPath))))
      && (forall i :: 0 <= i < |recs| ==> (i in idx <==> FinishRecord(env, args, tsegs, recs[i]).Finished?))
  {
    OutcomesAll(env, args, tsegs, recs);
    idx := GatherSurvivors(recs, Outcomes(env, args, tsegs, recs));
  }

  /** The stage-6 loop. */
  method FormatClips(env: Environment, args: Args, tsegs: seq<Segment>, recs: seq<ClipRecord>)
    returns (r: Option<seq<ClipRecord>>)
    ensures r == Processed(env, args, tsegs, recs)
  {
    ghost var outs := Outcomes(env, args, tsegs, recs);
    var processed: seq<ClipRecord> := [];
    var i := 0;
    while i < |recs|
      invariant 0 <= i <= |recs|
      invariant Gather(recs[..i], outs[..i]) == Some(processed)
    {
      var o := FinishClip(env, args, tsegs, recs[i]);
      OutcomesAt(env, args, tsegs, recs, i);
      assert outs[i] == o;
      GatherSnoc(recs, outs, i, processed);
      if o.Crash? {
        GatherCrashAt(recs, outs, i);
        return None;
      }
      if o.Finished? {
        processed := processed + [recs[i].(finalClipPath := Some(o.finalPath))];
      }
      i := i + 1;
    }
    assert recs[..i] == recs && outs[..i] == outs;
    r := Some(processed);
  }

  /** Line 276: the non-empty final paths, in order. */
  function FinalPaths(recs: seq<ClipRecord>): (r: seq<string>)
    ensures |r| <= |recs|
  {
    if recs == [] then []
    else
      var init := FinalPaths(recs[..|recs| - 1]);
      var p := recs[|recs| - 1].finalClipPath;
      if p.Some? && p.value != [] then init + [p.value] else init
  }

  /** Every finished record has a non-empty final path, so the final list
      has one path per finished record, in the same order. */
  lemma {:induction false} FinalPathsAll(recs: seq<ClipRecord>)
    requires forall k :: 0 <= k < |recs| ==> recs[k].finalClipPath.Some? && recs[k].finalClipPath.value != []
    ensures |FinalPaths(recs)| == |recs|
    ensures forall k :: 0 <= k < |recs| ==> FinalPaths(recs)[k] == recs[k].finalClipPath.value
  {
    if recs != [] {
      var n := |recs| - 1;
      assert forall k :: 0 <= k < n ==> recs[..n][k] == recs[k];
      FinalPathsAll(recs[..n]);
    }
  }

  // ---------------------------------------------------------------------
  // The whole run

  /** Stages 4-6 and line 276, for a transcription with text. */
  function ClipStages(env: Environment, args: Args, video: string, t: Transcription): (r: RunOutcome)
    ensures r.Crashed? || r.Completed?
  {
    var recs := Extracted(env, args, video, Selection(env, args, t));
    match Processed(env, args, t.segments.GetOr([]), recs)
    case None => Crashed
    case Some(done) => Completed(FinalPaths(done))
  }

  /** Stages 2-6 once the video is obtained. */
  function AfterInput(env: Environment, args: Args, video: string, name: string): (r: RunOutcome)
    ensures r.AudioFailed? || r.TranscriptionFailed? || r.Crashed? || r.Completed?
  {
    match ExtractAudioFromVideoAsWritten(video, AudioPath(args, name), env.shell)
    case None => AudioFailed
    case Some(audio) =>
      var t := TranscribeAudioWithWhisper(env.fileExists(audio), env.whisper(audio)).result;
      if t.None? || t.value.text.None? then TranscriptionFailed
      else ClipStages(env, args, video, t.value)
  }

  /** What a run of `main_workflow(args)` ends with. */
  function Workflow(env: Environment, args: Args): RunOutcome
  {
    match HandleInput(env, args)
    case Err(e) => e
    case Ok(input) => AfterInput(env, args, input.0, input.1)
  }

  /** Stage 1 decides the run exactly when the download fails or the local
      file is missing. */
  lemma WorkflowInput(env: Environment, args: Args)
    ensures Workflow(env, args) == DownloadFailed <==> IsUrl(args.inputSource) && env.download(args.inputSource).GetOr([]) == []
    ensures Workflow(env, args) == InputMissing <==> !IsUrl(args.inputSource) && !env.fileExists(args.inputSource)
  {
    var h := HandleInput(env, args);
    if h.Ok? {
      var after := AfterInput(env, args, h.value.0, h.value.1);
      assert Workflow(env, args) == after;
      assert after != DownloadFailed && after != InputMissing;
      assert h != Err(DownloadFailed) && h != Err(InputMissing);
    } else {
      assert Workflow(env, args) == h.error;
    }
  }

  /** The run ends after stage 2 exactly when the audio command, quoted as
      line 26 of clipify/core/audio_processing.py quotes it, fails, and
      after stage 3 exactly when the audio file is missing, Whisper fails
      or its result has no text. */
  lemma AudioStages(env: Environment, args: Args, video: string, name: string)
    ensures var audio := AudioPath(args, name);
      && (AfterInput(env, args, video, name) == AudioFailed <==> !env.shell(AudioCommandAsWritten(video, audio)))
      && (AfterInput(env, args, video, name) == TranscriptionFailed <==>
            env.shell(AudioCommandAsWritten(video, audio))
            && (!env.fileExists(audio) || env.whisper(audio).None? || env.whisper(audio).value.text.None?))
  {
    AudioPathKept(args, name);
  }

  /** Without transcript segments nothing is selected and the run
      completes with no clips. */
  lemma NoSegmentsCompletes(env: Environment, args: Args, video: string, t: Transcription)
    requires t.segments.None? || t.segments.value == []
    ensures ClipStages(env, args, video, t) == Completed([])
  {
    assert Selection(env, args, t) == [];
    assert Extracted(env, args, video, []) == [];
    assert Processed(env, args, t.segments.GetOr([]), []) == Some([]);
  }

  /** Composing the two filters: the `k`-th final path comes from the
      element `idx[k]` of the stage-5 input, which was kept and became the
      record `jdx[k]` of the stage-6 input, which finished with that path. */
  lemma ComposeSurvivors(raw: seq<ClipRecord>, keep: seq<bool>, outs: seq<RecordOutcome>)
    returns (idx: seq<nat>, jdx: seq<nat>)
    requires |keep| == |raw| && |outs| == |KeepWhere(raw, keep)|
    requires Gather(KeepWhere(raw, keep), outs).Some?
    requires AllNamed(outs)
    ensures var recs := KeepWhere(raw, keep);
      var paths := FinalPaths(Gather(recs, outs).value);
      && |idx| == |paths| == |jdx| && Increasing(idx)
      && (forall k :: 0 <= k < |idx| ==>
            (idx[k] < |raw| && keep[idx[k]] && jdx[k] < |recs| && recs[jdx[k]] == raw[idx[k]]
             && outs[jdx[k]] == Finished(paths[k])))
  {
    var recs := KeepWhere(raw, keep);
    var done := Gather(recs, outs).value;
    var outer := KeepWhereSurvivors(raw, keep);
    jdx := GatherSurvivors(recs, outs);
    idx := seq(|jdx|, k requires 0 <= k < |jdx| => outer[jdx[k]]);
    forall k | 0 <= k < |done|
      ensures done[k].finalClipPath == Some(outs[jdx[k]].finalPath) && outs[jdx[k]].Finished?
    {
      assert done[k] == recs[jdx[k]].(finalClipPath := Some(outs[jdx[k]].finalPath));
    }
    FinalPathsAll(done);
    forall k | 0 <= k < |idx|
      ensures idx[k] < |raw| && keep[idx[k]] && jdx[k] < |recs| && recs[jdx[k]] == raw[idx[k]]
      ensures outs[jdx[k]] == Finished(FinalPaths(done)[k])
    {
      var m := jdx[k];
      assert idx[k] == outer[m];
      assert outer[m] in outer;
    }
    forall a, b | 0 <= a < b < |idx|
      ensures idx[a] < idx[b]
    {
      assert jdx[a] < jdx[b];
    }
  }

  /** A completed run has one final path per clip that survives both
      stages, taken from an order-preserving subsequence of the selection
      `sel`: the `k`-th path belongs to selection `idx[k]`, whose
      extraction succeeded and whose record finished with that path. */
  lemma CompletedClips(env: Environment, args: Args, video: string, tsegs: seq<Segment>, sel: seq<Selected>)
    returns (idx: seq<nat>)
    requires Processed(env, args, tsegs, Extracted(env, args, video, sel)).Some?
    ensures var paths := FinalPaths(Processed(env, args, tsegs, Extracted(env, args, video, sel)).value);
      && |idx| == |paths| <= |sel| && Increasing(idx)
      && (forall k :: 0 <= k < |idx| ==>
            (idx[k] < |sel| && Extracts(env, args, video, idx[k], sel[idx[k]])
             && FinishRecord(env, args, tsegs, RawRecords(args, sel)[idx[k]]) == Finished(paths[k])))
  {
    var raw := RawRecords(args, sel);
    var keep := Successes(env, args, video, sel);
    var recs := KeepWhere(raw, keep);
    var outs := Outcomes(env, args, tsegs, recs);
    OutcomesAll(env, args, tsegs, recs);
    OutcomesNamed(env, args, tsegs, recs);
    var jdx;
    idx, jdx := ComposeSurvivors(raw, keep, outs);
    var paths := FinalPaths(Gather(recs, outs).value);
    forall k | 0 <= k < |idx|
      ensures idx[k] < |sel| && Extracts(env, args, video, idx[k], sel[idx[k]])
      ensures FinishRecord(env, args, tsegs, raw[idx[k]]) == Finished(paths[k])
    {
      var j := jdx[k];
      assert keep[idx[k]];
      assert outs[j] == FinishRecord(env, args, tsegs, recs[j]);
    }
  }

  /** `main_workflow(args)` (lines 16-276; the cleanup of stage 7 is not
      modelled). */
  method MainWorkflow(env: Environment, args: Args) returns (r: RunOutcome)
    ensures r == Workflow(env, args)
  {
    // Stage 1
    var input := HandleInput(env, args);
    if input.Err? {
      return input.error;
    }
    var video, name := input.value.0, input.value.1;
    assert Workflow(env, args) == AfterInput(env, args, video, name);
    // Stage 2
    var extracted := ExtractAudioFromVideoAsWritten(video, AudioPath(args, name), env.shell);
    if extracted.None? {
      return AudioFailed;
    }
    var audio := extracted.value;
    // Stage 3
    var transcription := TranscribeAudioWithWhisper(env.fileExists(audio), env.whisper(audio)).result;
    if transcription.None? || transcription.value.text.None? {
      return TranscriptionFailed;
    }
    assert AfterInput(env, args, video, name) == ClipStages(env, args, video, transcription.value);
    // Stage 4
    var selected := Selection(env, args, transcription.value);
    // Stage 5
    var clips := ExtractClips(env, args, video, selected);
    // Stage 6
    var processed := FormatClips(env, args, transcription.value.segments.GetOr([]), clips);
    if processed.None? {
      return Crashed;
    }
    r := Completed(FinalPaths(processed.value));
  }
}
