/** The parameter logic of clipify/core/video_processing.py: parsing the
    target aspect ratio and planning the centred crop of
    `convert_video_aspect_ratio`, the guards and ffmpeg argument list of
    `extract_video_segments`, and the caption filter of
    `add_captions_to_video`. The media library and ffmpeg are parameters:
    what they report or whether they succeed. */
module VideoProcessing {
  import opened Wrappers
  import opened Text
  import opened TimeFormat

  // ---------------------------------------------------------------------
  // convert_video_aspect_ratio

  datatype AspectRatio = AspectRatio(w: int, h: int)

  /** `ar_w_str, ar_h_str = s.split(':')`, both `int`, both positive; any
      `ValueError` on the way (wrong part count, non-integer part, a part
      that is not positive) gives `None`. */
  function ParseAspectRatio(s: string): (r: Option<AspectRatio>)
    ensures r.Some? ==> r.value.w > 0 && r.value.h > 0
    ensures r.Some? <==> var parts := Split(s, ':');
      |parts| == 2 && ParseInt(parts[0]).Some? && ParseInt(parts[1]).Some?
      && ParseInt(parts[0]).value > 0 && ParseInt(parts[1]).value > 0
    ensures r.Some? ==> ParseInt(Split(s, ':')[0]) == Some(r.value.w) && ParseInt(Split(s, ':')[1]) == Some(r.value.h)
  {
    var parts := Split(s, ':');
    if |parts| != 2 then None
    else
      var w := ParseInt(parts[0]);
      var h := ParseInt(parts[1]);
      if w.Some? && h.Some? && w.value > 0 && h.value > 0 then Some(AspectRatio(w.value, h.value))
      else None
  }

  /** The string `"w:h"` of a ratio. */
  function AspectRatioString(ar: AspectRatio): string {
    IntToString(ar.w) + ":" + IntToString(ar.h)
  }

  /** Every positive ratio written as `"w:h"` parses back to itself. */
  lemma ParseAspectRatioString(ar: AspectRatio)
    requires ar.w > 0 && ar.h > 0
    ensures ParseAspectRatio(AspectRatioString(ar)) == Some(ar)
  {
    var parts := [IntToString(ar.w), IntToString(ar.h)];
    NoColonInNumber(ar.w);
    NoColonInNumber(ar.h);
    assert parts[1..] == [IntToString(ar.h)];
    assert JoinWith(parts, ':') == AspectRatioString(ar);
    SplitJoin(parts, ':');
    ParseIntOfIntToString(ar.w);
    ParseIntOfIntToString(ar.h);
  }

  /** `current_ar > target_ar` for a positive height and ratio, without
      division: `w / h > ar.w / ar.h`. */
  predicate WiderThan(w: nat, h: nat, ar: AspectRatio) {
    w * ar.h > ar.w * h
  }

  /** For `b > 0`, `a / b` is the floor of the quotient. */
  lemma FloorDiv(a: int, b: int)
    requires b > 0
    ensures (a / b) * b <= a < (a / b + 1) * b
  {
    assert a == (a / b) * b + a % b;
  }

  lemma MulCancel(x: int, y: int, b: int)
    requires b > 0 && x * b <= y * b
    ensures x <= y
  {
    assert (y - x) * b == y * b - x * b;
  }

  /** For `b > 0` and `0 <= a <= c * b`, `0 <= a / b <= c`. */
  lemma FloorAtMost(a: int, b: int, c: int)
    requires b > 0 && 0 <= a <= c * b
    ensures 0 <= a / b <= c
  {
    var q := a / b;
    FloorDiv(a, b);
    assert q * b <= a;
    assert a < q * b + b by {
      assert (q + 1) * b == q * b + b;
    }
    assert q * b <= c * b;
    MulCancel(q, c, b);
    MulCancel(0, q, b);
  }

  /** Crop width and height (lines 43-48): a source wider than the target
      keeps its height and takes the floor of `h * ar.w / ar.h` as width;
      otherwise the width is kept and the height is the floor of
      `w * ar.h / ar.w`. The crop fits in the frame. */
  function CropSize(w: nat, h: nat, ar: AspectRatio): (r: (nat, nat))
    requires ar.w > 0 && ar.h > 0
    ensures r.0 <= w && r.1 <= h
  {
    if WiderThan(w, h, ar) then
      WideCropFits(w, h, ar);
      ((h * ar.w) / ar.h, h)
    else
      TallCropFits(w, h, ar);
      (w, (w * ar.h) / ar.w)
  }

  lemma WideCropFits(w: nat, h: nat, ar: AspectRatio)
    requires ar.w > 0 && ar.h > 0 && WiderThan(w, h, ar)
    ensures 0 <= (h * ar.w) / ar.h <= w
  {
    var num := h * ar.w;
    assert 0 <= num;
    assert num <= w * ar.h;
    FloorAtMost(num, ar.h, w);
  }

  lemma TallCropFits(w: nat, h: nat, ar: AspectRatio)
    requires ar.w > 0 && ar.h > 0 && !WiderThan(w, h, ar)
    ensures 0 <= (w * ar.h) / ar.w <= h
  {
    var num := w * ar.h;
    assert 0 <= num;
    assert num <= h * ar.w;
    FloorAtMost(num, ar.w, h);
  }

  /** The crop keeps the frame's side that is relatively shorter and has
      the target ratio rounded down on the other side: it is the largest
      crop of at most the target ratio that keeps that side. */
  lemma CropSizeRatio(w: nat, h: nat, ar: AspectRatio)
    requires ar.w > 0 && ar.h > 0
    ensures var r := CropSize(w, h, ar);
      && (WiderThan(w, h, ar) ==> r.1 == h && r.0 * ar.h <= h * ar.w < (r.0 + 1) * ar.h)
      && (!WiderThan(w, h, ar) ==> r.0 == w && r.1 * ar.w <= w * ar.h < (r.1 + 1) * ar.w)
  {
    if WiderThan(w, h, ar) {
      FloorDiv(h * ar.w, ar.h);
    } else {
      FloorDiv(w * ar.h, ar.w);
    }
  }

  /** The arguments of `clip.fx(crop, ...)`. */
  datatype Crop = Crop(width: nat, height: nat, xCenter: real, yCenter: real)

  /** The crop of a `w` x `h` clip (lines 41-55): `None` for a zero height
      (the division of line 41 raises) or a zero computed dimension (lines
      51-53, where the message's undefined name raises a `NameError` that
      line 71 catches, so the result is still `None`). */
  function PlanCrop(w: nat, h: nat, ar: AspectRatio): (r: Option<Crop>)
    requires ar.w > 0 && ar.h > 0
    ensures r.Some? <==> h > 0 && CropSize(w, h, ar).0 > 0 && CropSize(w, h, ar).1 > 0
    ensures r.Some? ==> r.value.width == CropSize(w, h, ar).0 && r.value.height == CropSize(w, h, ar).1
  {
    if h == 0 then None
    else
      var size := CropSize(w, h, ar);
      if size.0 == 0 || size.1 == 0 then None
      else Some(Crop(size.0, size.1, w as real / 2.0, h as real / 2.0))
  }

  /** The planned crop is a non-empty box centred on the frame and inside it. */
  lemma CropInsideFrame(w: nat, h: nat, ar: AspectRatio)
    requires ar.w > 0 && ar.h > 0 && PlanCrop(w, h, ar).Some?
    ensures var c := PlanCrop(w, h, ar).value;
      && c.width > 0 && c.height > 0
      && c.xCenter == w as real / 2.0 && c.yCenter == h as real / 2.0
      && 0.0 <= c.xCenter - c.width as real / 2.0 && c.xCenter + c.width as real / 2.0 <= w as real
      && 0.0 <= c.yCenter - c.height as real / 2.0 && c.yCenter + c.height as real / 2.0 <= h as real
  {
  }

  /** The example of the tests: 1920 x 1080 to 9:16 crops to 607 x 1080
      centred at (960, 540). */
  lemma CropExample()
    ensures PlanCrop(1920, 1080, AspectRatio(9, 16)) == Some(Crop(607, 1080, 960.0, 540.0))
  {
    assert WiderThan(1920, 1080, AspectRatio(9, 16));
    assert (1080 * 9) / 16 == 607;
  }

  /** `convert_video_aspect_ratio(input, output, arStr)`. The ratio is
      checked before the input file; `probe` is the clip's size, `None` when
      the clip cannot be opened; `write` says whether writing the cropped
      clip to `output` succeeds. */
  function ConvertVideoAspectRatio(input: string, output: string, arStr: string, inputExists: bool,
                                   probe: Option<(nat, nat)>, write: Crop -> bool): (r: Option<string>)
    ensures r.Some? ==> r.value == output
    ensures ParseAspectRatio(arStr).None? || !inputExists || probe.None? ==> r.None?
    ensures r.Some? <==> (ParseAspectRatio(arStr).Some? && inputExists && probe.Some?
      && PlanCrop(probe.value.0, probe.value.1, ParseAspectRatio(arStr).value).Some?
      && write(PlanCrop(probe.value.0, probe.value.1, ParseAspectRatio(arStr).value).value))
  {
    match ParseAspectRatio(arStr)
    case None => None
    case Some(ar) =>
      if !inputExists then None
      else
        match probe
        case None => None
        case Some(size) =>
          match PlanCrop(size.0, size.1, ar)
          case None => None
          case Some(crop) => if write(crop) then Some(output) else None
  }

  // ---------------------------------------------------------------------
  // extract_video_segments

  /** `[ffmpeg, -i, in, -ss, str(start), -to, str(end), -c, copy, -y, out]`. */
  function ExtractCommand(input: string, start: int, end: int, output: string): seq<string> {
    ["ffmpeg", "-i", input, "-ss", IntToString(start), "-to", IntToString(end), "-c", "copy", "-y", output]
  }

  /** ffmpeg reads the input after `-i`, the start after `-ss`, the end after
      `-to` and writes the output given last. */
  lemma ExtractCommandArguments(input: string, start: int, end: int, output: string)
    ensures var cmd := ExtractCommand(input, start, end, output);
      && |cmd| == 11 && cmd[0] == "ffmpeg"
      && cmd[1] == "-i" && cmd[2] == input
      && cmd[3] == "-ss" && cmd[4] == IntToString(start)
      && cmd[5] == "-to" && cmd[6] == IntToString(end)
      && cmd[|cmd| - 1] == output
  {
  }

  /** The times in the command parse back to their values. */
  lemma ExtractCommandTimes(input: string, start: int, end: int, output: string)
    ensures ParseInt(ExtractCommand(input, start, end, output)[4]) == Some(start)
    ensures ParseInt(ExtractCommand(input, start, end, output)[6]) == Some(end)
  {
    var cmd := ExtractCommand(input, start, end, output);
    assert cmd[4] == IntToString(start) && cmd[6] == IntToString(end);
    ParseIntOfIntToString(start);
    ParseIntOfIntToString(end);
  }

  /** What `extract_video_segments` did: its result and the command it
      ran, if any. */
  datatype Extraction = Extraction(success: bool, command: Option<seq<string>>)

  /** `extract_video_segments(input, start, end, output)`; `ffmpeg` says
      whether running a command completes without raising. */
  function ExtractVideoSegments(input: string, start: int, end: int, output: string, inputExists: bool,
                                ffmpeg: seq<string> -> bool): (r: Extraction)
    ensures r.command.Some? <==> inputExists && end - start > 0
    ensures r.command.Some? ==> r.command.value == ExtractCommand(input, start, end, output)
    ensures r.success <==> r.command.Some? && ffmpeg(r.command.value)
  {
    if !inputExists then Extraction(false, None)
    else if end - start <= 0 then Extraction(false, None)
    else
      var cmd := ExtractCommand(input, start, end, output);
      Extraction(ffmpeg(cmd), Some(cmd))
  }

  // ---------------------------------------------------------------------
  // add_captions_to_video

  /** A caption dictionary: `text`, `start` and `end`, each possibly absent. */
  datatype TimedText = TimedText(text: Option<string>, start: Option<int>, end: Option<int>)

  /** A text clip: its stripped text, its start and its duration. */
  datatype Caption = Caption(text: string, start: int, duration: int)

  /** Lines 164-173: non-blank text, both times, positive duration. */
  predicate Captionable(t: TimedText) {
    !Blank(t.text.GetOr("")) && t.start.Some? && t.end.Some? && t.end.value - t.start.value > 0
  }

  function CaptionOf(t: TimedText): (c: Caption)
    requires Captionable(t)
    ensures c.text != [] && c.duration > 0
  {
    Caption(Strip(t.text.GetOr("")), t.start.value, t.end.value - t.start.value)
  }

  /** The captions for a list of segments, in order. */
  function Captions(ts: seq<TimedText>): (r: seq<Caption>)
    ensures |r| <= |ts|
    ensures forall k :: 0 <= k < |r| ==> r[k].text != [] && r[k].duration > 0
  {
    if ts == [] then []
    else
      var init := Captions(ts[..|ts| - 1]);
      if Captionable(ts[|ts| - 1]) then init + [CaptionOf(ts[|ts| - 1])] else init
  }

  /** `c` is the caption of some captionable segment of `ts`. */
  ghost predicate CaptionFrom(ts: seq<TimedText>, c: Caption) {
    exists k :: 0 <= k < |ts| && Captionable(ts[k]) && c == CaptionOf(ts[k])
  }

  lemma CaptionFromSnoc(init: seq<TimedText>, t: TimedText, c: Caption)
    ensures CaptionFrom(init + [t], c) <==> CaptionFrom(init, c) || (Captionable(t) && c == CaptionOf(t))
  {
    var ts := init + [t];
    if CaptionFrom(init, c) {
      var k :| 0 <= k < |init| && Captionable(init[k]) && c == CaptionOf(init[k]);
      assert ts[k] == init[k];
    }
    if CaptionFrom(ts, c) {
      var k :| 0 <= k < |ts| && Captionable(ts[k]) && c == CaptionOf(ts[k]);
      if k < |init| {
        assert init[k] == ts[k];
      }
    }
    if Captionable(t) && c == CaptionOf(t) {
      assert ts[|init|] == t;
    }
  }

  /** Exactly the captionable segments give captions, each its own. */
  lemma {:induction false} CaptionsExactly(ts: seq<TimedText>)
    ensures forall c :: c in Captions(ts) <==> CaptionFrom(ts, c)
  {
    if ts != [] {
      var init := ts[..|ts| - 1];
      var t := ts[|ts| - 1];
      CaptionsExactly(init);
      assert ts == init + [t];
      forall c
        ensures c in Captions(ts) <==> CaptionFrom(ts, c)
      {
        CaptionFromSnoc(init, t, c);
      }
    }
  }

  /** No captions exactly when no segment is captionable. */
  lemma CaptionsEmpty(ts: seq<TimedText>)
    ensures Captions(ts) == [] <==> forall k :: 0 <= k < |ts| ==> !Captionable(ts[k])
  {
    CaptionsExactly(ts);
    if exists k :: 0 <= k < |ts| && Captionable(ts[k]) {
      var k :| 0 <= k < |ts| && Captionable(ts[k]);
      assert CaptionFrom(ts, CaptionOf(ts[k]));
    }
  }

  /** What `add_captions_to_video` did. */
  datatype CaptionOutcome =
    | VideoMissing
    | NoCaptions
    | Written(captions: seq<Caption>)
    | WriteFailed(captions: seq<Caption>)

  /** The outcome for a video that exists or not, given whether writing the
      composite succeeds; nothing is written without captions. */
  function CaptionResult(videoExists: bool, ts: seq<TimedText>, write: seq<Caption> -> bool): (r: CaptionOutcome)
    ensures r.Written? ==> videoExists && r.captions != [] && r.captions == Captions(ts)
    ensures r.NoCaptions? <==> videoExists && Captions(ts) == []
  {
    if !videoExists then VideoMissing
    else
      var cs := Captions(ts);
      if cs == [] then NoCaptions
      else if write(cs) then Written(cs)
      else WriteFailed(cs)
  }

  /** `add_captions_to_video(video, segments, output)`: the loop of lines
      162-193 and the decisions after it. */
  method AddCaptionsToVideo(videoExists: bool, ts: seq<TimedText>, write: seq<Caption> -> bool)
    returns (r: CaptionOutcome)
    ensures r == CaptionResult(videoExists, ts, write)
  {
    if !videoExists {
      return VideoMissing;
    }
    var clips: seq<Caption> := [];
    var i := 0;
    while i < |ts|
      invariant 0 <= i <= |ts|
      invariant clips == Captions(ts[..i])
    {
      var t := ts[i];
      assert ts[..i + 1][..i] == ts[..i];
      var text := Strip(t.text.GetOr(""));
      if text != [] && t.start.Some? && t.end.Some? {
        var duration := t.end.value - t.start.value;
        if duration > 0 {
          clips := clips + [Caption(text, t.start.value, duration)];
        }
      }
      i := i + 1;
    }
    assert ts[..i] == ts;
    if clips == [] {
      return NoCaptions;
    }
    if write(clips) {
      r := Written(clips);
    } else {
      r := WriteFailed(clips);
    }
  }
}
