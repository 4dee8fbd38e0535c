/** Segment selection of clipify/core/content_analysis.py: the basic
    selector (score = length of the stripped text) and the tagger-based
    selector (score = number of noun, proper-noun and verb tags), which falls
    back to the basic one when the tagger model cannot be loaded. Durations
    are whole seconds. */
module ContentAnalysis {
  import opened Wrappers
  import opened Text
  import opened Transcript
  import opened Ranking

  /** The `KeyError` the basic selector raises when a segment that passes
      its eligibility test (with missing times read as 0) has no `start` or
      no `end`. */
  datatype SelectError = MissingTime

  // ---------------------------------------------------------------------
  // Basic selector

  /** `seg.get('end', 0.0) - seg.get('start', 0.0)`. */
  function DefaultDuration(seg: Segment): int {
    seg.end.GetOr(0) - seg.start.GetOr(0)
  }

  /** Long enough, with non-blank text. */
  predicate BasicEligible(seg: Segment, minDuration: int) {
    DefaultDuration(seg) >= minDuration && !Blank(seg.text.GetOr(""))
  }

  /** The record the basic selector keeps for the segment at index `k`. */
  function BasicCandidateOf(seg: Segment, k: nat): Candidate
    requires seg.text.Some? && HasTimes(seg)
  {
    var t := Strip(seg.text.value);
    Candidate(t, seg.start.value, seg.end.value, |t|, k)
  }

  function CountBasicEligible(segs: seq<Segment>, minDuration: int): (n: nat)
    ensures n <= |segs|
  {
    if segs == [] then 0
    else
      var n := if BasicEligible(segs[|segs| - 1], minDuration) then 1 else 0;
      CountBasicEligible(segs[..|segs| - 1], minDuration) + n
  }

  /** The `valid_segments` list: one record per eligible segment, in input
      order, or the `KeyError` of an eligible segment without times. */
  function BasicCandidates(segs: seq<Segment>, minDuration: int): (r: Result<seq<Candidate>, SelectError>)
    ensures r.Ok? ==> |r.value| <= |segs|
  {
    if segs == [] then Ok([])
    else
      var k := |segs| - 1;
      match BasicCandidates(segs[..k], minDuration)
      case Err(e) => Err(e)
      case Ok(prev) =>
        if !BasicEligible(segs[k], minDuration) then Ok(prev)
        else if !HasTimes(segs[k]) then Err(MissingTime)
        else Ok(prev + [BasicCandidateOf(segs[k], k)])
  }

  /** `c` is the record of the eligible, timed segment at its position. */
  predicate BasicFrom(segs: seq<Segment>, minDuration: int, c: Candidate) {
    && c.pos < |segs| && BasicEligible(segs[c.pos], minDuration) && HasTimes(segs[c.pos])
    && c == BasicCandidateOf(segs[c.pos], c.pos)
  }

  /** Some eligible segment lacks a time. */
  ghost predicate BasicMissing(segs: seq<Segment>, minDuration: int) {
    exists k :: 0 <= k < |segs| && BasicEligible(segs[k], minDuration) && !HasTimes(segs[k])
  }

  /** The properties of the candidate list for one input: what the selector
      raises on, and, when it does not, the eligible segments it holds. */
  predicate BasicSpec(segs: seq<Segment>, minDuration: int, r: Result<seq<Candidate>, SelectError>) {
    && (r.Ok? ==> IncreasingPos(r.value) && |r.value| == CountBasicEligible(segs, minDuration))
    && (r.Ok? ==> forall c :: c in r.value ==> BasicFrom(segs, minDuration, c))
    && (r.Ok? ==> forall k :: 0 <= k < |segs| && BasicEligible(segs[k], minDuration) ==>
          HasTimes(segs[k]) && BasicCandidateOf(segs[k], k) in r.value)
  }

  /** The list raises exactly when an eligible segment lacks a time;
      otherwise it holds, in input order, exactly the records of the
      eligible segments. */
  lemma {:induction false} BasicCandidatesSpec(segs: seq<Segment>, minDuration: int)
    ensures BasicCandidates(segs, minDuration).Err? <==> BasicMissing(segs, minDuration)
    ensures BasicSpec(segs, minDuration, BasicCandidates(segs, minDuration))
  {
    if segs != [] {
      var k := |segs| - 1;
      var init := segs[..k];
      BasicCandidatesSpec(init, minDuration);
      BasicMissingSnoc(segs, minDuration);
      match BasicCandidates(init, minDuration)
      case Err(_) =>
      case Ok(prev) =>
        if !BasicEligible(segs[k], minDuration) {
          BasicSkip(segs, minDuration, prev);
        } else if HasTimes(segs[k]) {
          BasicKeep(segs, minDuration, prev);
        }
    }
  }

  lemma BasicMissingSnoc(segs: seq<Segment>, minDuration: int)
    requires segs != []
    ensures var k := |segs| - 1;
      BasicMissing(segs, minDuration) <==>
        BasicMissing(segs[..k], minDuration) || (BasicEligible(segs[k], minDuration) && !HasTimes(segs[k]))
  {
    var k := |segs| - 1;
    var init := segs[..k];
    if BasicMissing(init, minDuration) {
      var j :| 0 <= j < |init| && BasicEligible(init[j], minDuration) && !HasTimes(init[j]);
      assert segs[j] == init[j];
    }
    if BasicMissing(segs, minDuration) {
      var j :| 0 <= j < |segs| && BasicEligible(segs[j], minDuration) && !HasTimes(segs[j]);
      if j < k { assert init[j] == segs[j]; }
    }
  }

  lemma BasicFromGrows(segs: seq<Segment>, minDuration: int, c: Candidate)
    requires segs != [] && BasicFrom(segs[..|segs| - 1], minDuration, c)
    ensures BasicFrom(segs, minDuration, c)
  {
    assert segs[c.pos] == segs[..|segs| - 1][c.pos];
  }

  /** An ineligible last segment adds nothing. */
  lemma BasicSkip(segs: seq<Segment>, minDuration: int, prev: seq<Candidate>)
    requires segs != [] && !BasicEligible(segs[|segs| - 1], minDuration)
    requires BasicSpec(segs[..|segs| - 1], minDuration, Ok(prev))
    ensures BasicSpec(segs, minDuration, Ok(prev))
  {
    var k := |segs| - 1;
    var init := segs[..k];
    forall c | c in prev
      ensures BasicFrom(segs, minDuration, c)
    {
      BasicFromGrows(segs, minDuration, c);
    }
    forall j | 0 <= j < k
      ensures segs[j] == init[j]
    {
    }
  }

  /** An eligible, timed last segment adds its record at the end. */
  lemma BasicKeep(segs: seq<Segment>, minDuration: int, prev: seq<Candidate>)
    requires segs != [] && BasicEligible(segs[|segs| - 1], minDuration) && HasTimes(segs[|segs| - 1])
    requires BasicSpec(segs[..|segs| - 1], minDuration, Ok(prev))
    ensures BasicSpec(segs, minDuration, Ok(prev + [BasicCandidateOf(segs[|segs| - 1], |segs| - 1)]))
  {
    var k := |segs| - 1;
    var init := segs[..k];
    var c := BasicCandidateOf(segs[k], k);
    forall y | y in prev
      ensures BasicFrom(segs, minDuration, y) && y.pos < c.pos
    {
      BasicFromGrows(segs, minDuration, y);
    }
    AppendIncreasing(prev, c);
    forall j | 0 <= j < k
      ensures segs[j] == init[j]
    {
    }
  }

  /** A selected segment: the record of an eligible, timed segment. */
  ghost predicate BasicSource(segs: seq<Segment>, minDuration: int, x: Selected) {
    exists k ::
      && 0 <= k < |segs| && BasicEligible(segs[k], minDuration) && HasTimes(segs[k])
      && x == Selected(Strip(segs[k].text.value), segs[k].start.value, segs[k].end.value)
  }

  /** `_find_important_segments_basic(segments, num_segments, min_duration)`. */
  function BasicSelection(segs: seq<Segment>, num: int, minDuration: int): (r: Result<seq<Selected>, SelectError>)
    ensures r.Err? <==> BasicCandidates(segs, minDuration).Err?
  {
    if segs == [] then Ok([])
    else
      match BasicCandidates(segs, minDuration)
      case Err(e) => Err(e)
      case Ok(cands) => Ok(Project(SelectTop(cands, num)))
  }

  /** The basic selector raises exactly when an eligible segment lacks a
      time; otherwise it returns the best `num` eligible segments (in the
      sense of `s[:num]`), in chronological order, each one an eligible
      segment's stripped text and times. */
  lemma BasicSelectionSpec(segs: seq<Segment>, num: int, minDuration: int)
    ensures var r := BasicSelection(segs, num, minDuration);
      && (r.Err? <==> BasicMissing(segs, minDuration))
      && (r.Ok? ==> |r.value| == SliceLength(CountBasicEligible(segs, minDuration), num))
      && (r.Ok? ==> forall i, j :: 0 <= i < j < |r.value| ==> r.value[i].start <= r.value[j].start)
      && (r.Ok? ==> forall x :: x in r.value ==> BasicSource(segs, minDuration, x))
  {
    BasicCandidatesSpec(segs, minDuration);
    if segs != [] && BasicCandidates(segs, minDuration).Ok? {
      var cands := BasicCandidates(segs, minDuration).value;
      var top := SelectTop(cands, num);
      ProjectSorted(top);
      forall x | x in Project(top)
        ensures BasicSource(segs, minDuration, x)
      {
        var c := ProjectMember(top, x);
        SelectTopMember(cands, num, c);
        assert BasicFrom(segs, minDuration, c);
        var k := c.pos;
        assert x == Selected(Strip(segs[k].text.value), segs[k].start.value, segs[k].end.value);
      }
    }
  }

  /** Top-k optimality of the basic selector: an eligible segment left out
      has a shorter stripped text than any chosen one, or an equally long
      text and a later position in the input. */
  lemma BasicTopOptimal(segs: seq<Segment>, num: int, minDuration: int, c: Candidate, u: Candidate)
    requires BasicCandidates(segs, minDuration).Ok?
    requires var cands := BasicCandidates(segs, minDuration).value;
      c in SelectTop(cands, num) && u in cands && u !in SelectTop(cands, num)
    ensures |u.text| < |c.text| || (|u.text| == |c.text| && c.pos < u.pos)
  {
    var cands := BasicCandidates(segs, minDuration).value;
    BasicCandidatesSpec(segs, minDuration);
    SelectTopMember(cands, num, c);
    assert BasicFrom(segs, minDuration, c) && BasicFrom(segs, minDuration, u);
    TopOptimal(cands, num, c, u);
  }

  lemma BasicCandidatesSnoc(segs: seq<Segment>, minDuration: int, i: nat, prev: seq<Candidate>)
    requires i < |segs| && BasicCandidates(segs[..i], minDuration) == Ok(prev)
    ensures BasicCandidates(segs[..i + 1], minDuration) ==
      if !BasicEligible(segs[i], minDuration) then Ok(prev)
      else if !HasTimes(segs[i]) then Err(MissingTime)
      else Ok(prev + [BasicCandidateOf(segs[i], i)])
  {
    assert segs[..i + 1][..i] == segs[..i];
    assert segs[..i + 1][i] == segs[i];
  }

  /** The selector of lines 90-108: the loop builds `valid_segments`,
      which is then sorted, sliced and sorted again. */
  method FindImportantSegmentsBasic(segs: seq<Segment>, num: int, minDuration: int)
    returns (r: Result<seq<Selected>, SelectError>)
    ensures r == BasicSelection(segs, num, minDuration)
  {
    if segs == [] {
      return Ok([]);
    }
    var valid: seq<Candidate> := [];
    var i := 0;
    while i < |segs|
      invariant 0 <= i <= |segs|
      invariant BasicCandidates(segs[..i], minDuration) == Ok(valid)
    {
      var seg := segs[i];
      BasicCandidatesSnoc(segs, minDuration, i, valid);
      var duration := seg.end.GetOr(0) - seg.start.GetOr(0);
      if duration >= minDuration && Strip(seg.text.GetOr("")) != [] {
        if seg.start.None? || seg.end.None? {
          BasicSelectionSpec(segs, num, minDuration);
          assert BasicEligible(segs[i], minDuration) && !HasTimes(segs[i]);
          assert BasicMissing(segs, minDuration);
          assert BasicSelection(segs, num, minDuration).Err?;
          assert BasicSelection(segs, num, minDuration).error == MissingTime;
          return Err(MissingTime);
        }
        var text := Strip(seg.text.value);
        valid := valid + [Candidate(text, seg.start.value, seg.end.value, |text|, i)];
      }
      i := i + 1;
    }
    assert segs[..i] == segs;
    valid := SortBy(ScoreDescending, valid);
    var selected := SliceTo(valid, num);
    selected := SortBy(StartAscending, selected);
    r := Ok(Project(selected));
  }

  // ---------------------------------------------------------------------
  // Tagger-based selector

  datatype LoadFailure = ModelNotFound | OtherLoadError

  /** The outcome of `spacy.load('en_core_web_sm')`: a tagger mapping a
      text to the part-of-speech tags of its tokens, or the `OSError` or
      other exception the load raised. */
  datatype Tagger = Loaded(tag: string -> seq<string>) | LoadFailed(failure: LoadFailure)

  predicate IsContentTag(t: string) {
    t == "NOUN" || t == "PROPN" || t == "VERB"
  }

  /** The number of noun, proper-noun and verb tags. */
  function ContentTagCount(tags: seq<string>): (n: nat)
    ensures n <= |tags|
    ensures n == 0 <==> forall i :: 0 <= i < |tags| ==> !IsContentTag(tags[i])
    ensures n == |tags| <==> forall i :: 0 <= i < |tags| ==> IsContentTag(tags[i])
  {
    if tags == [] then 0
    else
      var init := tags[..|tags| - 1];
      assert forall i :: 0 <= i < |init| ==> init[i] == tags[i];
      ContentTagCount(init) + (if IsContentTag(tags[|tags| - 1]) then 1 else 0)
  }

  /** A segment the tagger path scores: non-blank text and both times. */
  predicate Scorable(seg: Segment) {
    !Blank(seg.text.GetOr("")) && HasTimes(seg)
  }

  predicate TaggedEligible(seg: Segment, minDuration: int) {
    Scorable(seg) && seg.end.value - seg.start.value >= minDuration
  }

  function TaggedCandidateOf(tag: string -> seq<string>, seg: Segment, k: nat): Candidate
    requires Scorable(seg)
  {
    var t := Strip(seg.text.value);
    Candidate(t, seg.start.value, seg.end.value, ContentTagCount(tag(t)), k)
  }

  function CountTaggedEligible(segs: seq<Segment>, minDuration: int): (n: nat)
    ensures n <= |segs|
  {
    if segs == [] then 0
    else
      var n := if TaggedEligible(segs[|segs| - 1], minDuration) then 1 else 0;
      CountTaggedEligible(segs[..|segs| - 1], minDuration) + n
  }

  /** The `scored_segments` list: one scored record per scorable segment, in
      input order. */
  function ScoredSegments(tag: string -> seq<string>, segs: seq<Segment>): (r: seq<Candidate>)
    ensures |r| <= |segs|
  {
    if segs == [] then []
    else
      var k := |segs| - 1;
      var prev := ScoredSegments(tag, segs[..k]);
      if Scorable(segs[k]) then prev + [TaggedCandidateOf(tag, segs[k], k)] else prev
  }

  /** `c` is the scored record of the scorable segment at its position. */
  predicate ScoredFrom(tag: string -> seq<string>, segs: seq<Segment>, c: Candidate) {
    c.pos < |segs| && Scorable(segs[c.pos]) && c == TaggedCandidateOf(tag, segs[c.pos], c.pos)
  }

  predicate ScoredSpec(tag: string -> seq<string>, segs: seq<Segment>, r: seq<Candidate>) {
    && IncreasingPos(r)
    && (forall c :: c in r ==> ScoredFrom(tag, segs, c))
    && (forall k :: 0 <= k < |segs| && Scorable(segs[k]) ==> TaggedCandidateOf(tag, segs[k], k) in r)
  }

  /** The scored list holds, in input order, exactly the records of the
      scorable segments. */
  lemma {:induction false} ScoredSegmentsSpec(tag: string -> seq<string>, segs: seq<Segment>)
    ensures ScoredSpec(tag, segs, ScoredSegments(tag, segs))
  {
    if segs != [] {
      var k := |segs| - 1;
      ScoredSegmentsSpec(tag, segs[..k]);
      if Scorable(segs[k]) {
        ScoredKeep(tag, segs, ScoredSegments(tag, segs[..k]));
      } else {
        ScoredSkip(tag, segs, ScoredSegments(tag, segs[..k]));
      }
    }
  }

  lemma ScoredFromGrows(tag: string -> seq<string>, segs: seq<Segment>, c: Candidate)
    requires segs != [] && ScoredFrom(tag, segs[..|segs| - 1], c)
    ensures ScoredFrom(tag, segs, c)
  {
    assert segs[c.pos] == segs[..|segs| - 1][c.pos];
  }

  lemma ScoredSkip(tag: string -> seq<string>, segs: seq<Segment>, prev: seq<Candidate>)
    requires segs != [] && !Scorable(segs[|segs| - 1])
    requires ScoredSpec(tag, segs[..|segs| - 1], prev)
    ensures ScoredSpec(tag, segs, prev)
  {
    var k := |segs| - 1;
    var init := segs[..k];
    forall c | c in prev
      ensures ScoredFrom(tag, segs, c)
    {
      ScoredFromGrows(tag, segs, c);
    }
    forall j | 0 <= j < k
      ensures segs[j] == init[j]
    {
    }
  }

  lemma ScoredKeep(tag: string -> seq<string>, segs: seq<Segment>, prev: seq<Candidate>)
    requires segs != [] && Scorable(segs[|segs| - 1])
    requires ScoredSpec(tag, segs[..|segs| - 1], prev)
    ensures ScoredSpec(tag, segs, prev + [TaggedCandidateOf(tag, segs[|segs| - 1], |segs| - 1)])
  {
    var k := |segs| - 1;
    var init := segs[..k];
    var c := TaggedCandidateOf(tag, segs[k], k);
    forall y | y in prev
      ensures ScoredFrom(tag, segs, y) && y.pos < c.pos
    {
      ScoredFromGrows(tag, segs, y);
    }
    AppendIncreasing(prev, c);
    forall j | 0 <= j < k
      ensures segs[j] == init[j]
    {
    }
  }

  /** The `candidate_segments` comprehension: the records lasting at least
      `minDuration`, in order. */
  function DurationFilter(cands: seq<Candidate>, minDuration: int): (r: seq<Candidate>)
    ensures forall c :: c in r <==> c in cands && c.end - c.start >= minDuration
  {
    if cands == [] then []
    else
      var last := cands[|cands| - 1];
      var prev := DurationFilter(cands[..|cands| - 1], minDuration);
      assert cands == cands[..|cands| - 1] + [last];
      if last.end - last.start >= minDuration then prev + [last] else prev
  }

  /** The comprehension keeps the order of the records it keeps. */
  lemma {:induction false} DurationFilterIncreasing(cands: seq<Candidate>, minDuration: int)
    requires IncreasingPos(cands)
    ensures IncreasingPos(DurationFilter(cands, minDuration))
  {
    if cands != [] {
      var init := cands[..|cands| - 1];
      var last := cands[|cands| - 1];
      DurationFilterIncreasing(init, minDuration);
      var prev := DurationFilter(init, minDuration);
      if last.end - last.start >= minDuration {
        forall y | y in prev
          ensures y.pos < last.pos
        {
          var j :| 0 <= j < |init| && init[j] == y;
          assert cands[j] == y;
        }
        AppendIncreasing(prev, last);
      }
    }
  }

  /** The records the tagger path ranks. */
  function TaggedCandidates(tag: string -> seq<string>, segs: seq<Segment>, minDuration: int): (r: seq<Candidate>)
    ensures |r| == CountTaggedEligible(segs, minDuration)
  {
    TaggedCount(tag, segs, minDuration);
    DurationFilter(ScoredSegments(tag, segs), minDuration)
  }

  /** `c` is the record of the long-enough scorable segment at its position. */
  predicate TaggedFrom(tag: string -> seq<string>, segs: seq<Segment>, minDuration: int, c: Candidate) {
    c.pos < |segs| && TaggedEligible(segs[c.pos], minDuration) && c == TaggedCandidateOf(tag, segs[c.pos], c.pos)
  }

  /** The ranked records are, in input order, exactly those of the scorable
      segments lasting at least `minDuration`. */
  lemma TaggedCandidatesSpec(tag: string -> seq<string>, segs: seq<Segment>, minDuration: int)
    ensures var r := TaggedCandidates(tag, segs, minDuration);
      && IncreasingPos(r)
      && (forall c :: c in r ==> TaggedFrom(tag, segs, minDuration, c))
      && (forall k :: 0 <= k < |segs| && TaggedEligible(segs[k], minDuration) ==>
            TaggedCandidateOf(tag, segs[k], k) in r)
  {
    var scored := ScoredSegments(tag, segs);
    ScoredSegmentsSpec(tag, segs);
    DurationFilterIncreasing(scored, minDuration);
    forall c | c in TaggedCandidates(tag, segs, minDuration)
      ensures TaggedFrom(tag, segs, minDuration, c)
    {
      assert ScoredFrom(tag, segs, c);
    }
  }

  lemma {:induction false} TaggedCount(tag: string -> seq<string>, segs: seq<Segment>, minDuration: int)
    ensures |DurationFilter(ScoredSegments(tag, segs), minDuration)| == CountTaggedEligible(segs, minDuration)
  {
    if segs != [] {
      var init := segs[..|segs| - 1];
      var k := |segs| - 1;
      TaggedCount(tag, init, minDuration);
      var prev := ScoredSegments(tag, init);
      if Scorable(segs[k]) {
        var c := TaggedCandidateOf(tag, segs[k], k);
        assert ScoredSegments(tag, segs) == prev + [c];
        assert (prev + [c])[..|prev|] == prev;
      } else {
        assert ScoredSegments(tag, segs) == prev;
      }
    }
  }

  /** A selected segment: the record of a long-enough scorable segment. */
  ghost predicate TaggedSource(segs: seq<Segment>, minDuration: int, x: Selected) {
    exists k ::
      && 0 <= k < |segs| && TaggedEligible(segs[k], minDuration)
      && x == Selected(Strip(segs[k].text.value), segs[k].start.value, segs[k].end.value)
  }

  /** The tagger path of `find_important_segments` (lines 137-180). */
  function TaggedSelection(tag: string -> seq<string>, segs: seq<Segment>, num: int, minDuration: int): (r: seq<Selected>)
    ensures |r| == SliceLength(CountTaggedEligible(segs, minDuration), num)
  {
    if segs == [] then []
    else
      var cands := TaggedCandidates(tag, segs, minDuration);
      if cands == [] then [] else Project(SelectTop(cands, num))
  }

  /** The tagger path returns the best `num` long-enough scorable segments
      (in the sense of `s[:num]`), in chronological order, each one such a
      segment's stripped text and times; none when there is none. */
  lemma TaggedSelectionSpec(tag: string -> seq<string>, segs: seq<Segment>, num: int, minDuration: int)
    ensures var r := TaggedSelection(tag, segs, num, minDuration);
      && (CountTaggedEligible(segs, minDuration) == 0 ==> r == [])
      && (forall i, j :: 0 <= i < j < |r| ==> r[i].start <= r[j].start)
      && (forall x :: x in r ==> TaggedSource(segs, minDuration, x))
  {
    if segs != [] {
      var cands := TaggedCandidates(tag, segs, minDuration);
      if cands != [] {
        TaggedCandidatesSpec(tag, segs, minDuration);
        var top := SelectTop(cands, num);
        ProjectSorted(top);
        forall x | x in Project(top)
          ensures TaggedSource(segs, minDuration, x)
        {
          var c := ProjectMember(top, x);
          SelectTopMember(cands, num, c);
          assert TaggedFrom(tag, segs, minDuration, c);
          var k := c.pos;
          assert x == Selected(Strip(segs[k].text.value), segs[k].start.value, segs[k].end.value);
        }
      }
    }
  }

  /** Top-k optimality of the tagger path: a long-enough scorable segment
      left out has fewer content tags than any chosen one, or as many and a
      later position in the input. */
  lemma TaggedTopOptimal(tag: string -> seq<string>, segs: seq<Segment>, num: int, minDuration: int, c: Candidate, u: Candidate)
    requires var cands := TaggedCandidates(tag, segs, minDuration);
      c in SelectTop(cands, num) && u in cands && u !in SelectTop(cands, num)
    ensures ContentTagCount(tag(u.text)) < ContentTagCount(tag(c.text))
      || (ContentTagCount(tag(u.text)) == ContentTagCount(tag(c.text)) && c.pos < u.pos)
  {
    var cands := TaggedCandidates(tag, segs, minDuration);
    TaggedCandidatesSpec(tag, segs, minDuration);
    SelectTopMember(cands, num, c);
    assert TaggedFrom(tag, segs, minDuration, c) && TaggedFrom(tag, segs, minDuration, u);
    TopOptimal(cands, num, c, u);
  }

  /** `find_important_segments`: the tagger path when the model loads, and
      exactly the basic selector on the same arguments when loading fails. */
  function ImportantSegments(tagger: Tagger, segs: seq<Segment>, num: int, minDuration: int): (r: Result<seq<Selected>, SelectError>)
  {
    match tagger
    case LoadFailed(_) => BasicSelection(segs, num, minDuration)
    case Loaded(tag) => Ok(TaggedSelection(tag, segs, num, minDuration))
  }

  lemma ScoredStep(tag: string -> seq<string>, segs: seq<Segment>, i: nat)
    requires i < |segs|
    ensures ScoredSegments(tag, segs[..i + 1]) ==
      if Scorable(segs[i]) then ScoredSegments(tag, segs[..i]) + [TaggedCandidateOf(tag, segs[i], i)]
      else ScoredSegments(tag, segs[..i])
  {
    assert segs[..i + 1][..i] == segs[..i];
  }

  /** The function of lines 111-180: the scoring loop builds
      `scored_segments`, the comprehension filters them, then the list is
      sorted, sliced and sorted again. */
  method FindImportantSegments(tagger: Tagger, segs: seq<Segment>, num: int, minDuration: int)
    returns (r: Result<seq<Selected>, SelectError>)
    ensures tagger.LoadFailed? ==> r == BasicSelection(segs, num, minDuration)
    ensures tagger.Loaded? ==> r == Ok(TaggedSelection(tagger.tag, segs, num, minDuration))
  {
    if tagger.LoadFailed? {
      r := FindImportantSegmentsBasic(segs, num, minDuration);
      return;
    }
    var nlp := tagger.tag;
    if segs == [] {
      return Ok([]);
    }
    var scored: seq<Candidate> := [];
    var i := 0;
    while i < |segs|
      invariant 0 <= i <= |segs|
      invariant scored == ScoredSegments(nlp, segs[..i])
    {
      var seg := segs[i];
      ScoredStep(nlp, segs, i);
      var text := Strip(seg.text.GetOr(""));
      if text != [] && seg.start.Some? && seg.end.Some? {
        var score := ContentTagCount(nlp(text));
        assert Candidate(text, seg.start.value, seg.end.value, score, i) == TaggedCandidateOf(nlp, seg, i);
        scored := scored + [Candidate(text, seg.start.value, seg.end.value, score, i)];
      }
      i := i + 1;
    }
    assert segs[..i] == segs;
    var candidates := DurationFilter(scored, minDuration);
    assert candidates == TaggedCandidates(nlp, segs, minDuration);
    if candidates == [] {
      return Ok([]);
    }
    candidates := SortBy(ScoreDescending, candidates);
    var top := SliceTo(candidates, num);
    top := SortBy(StartAscending, top);
    r := Ok(Project(top));
  }

  // ---------------------------------------------------------------------
  // Helpers about the ranking

  lemma SelectTopMember(cands: seq<Candidate>, num: int, c: Candidate)
    requires c in SelectTop(cands, num)
    ensures c in cands
  {
    assert c in multiset(SelectTop(cands, num));
  }

  lemma ProjectMember(s: seq<Candidate>, x: Selected) returns (c: Candidate)
    requires x in Project(s)
    ensures c in s && x == Selected(c.text, c.start, c.end)
  {
    var i :| 0 <= i < |Project(s)| && Project(s)[i] == x;
    c := s[i];
  }

  lemma ProjectSorted(s: seq<Candidate>)
    requires SortedBy(StartAscending, s)
    ensures forall i, j :: 0 <= i < j < |Project(s)| ==> Project(s)[i].start <= Project(s)[j].start
  {
  }
}
