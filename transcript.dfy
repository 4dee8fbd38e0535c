/** The transcription result Whisper returns, as the program reads it: a
    dictionary with an optional `text` and an optional list of `segments`;
    each segment a dictionary whose `text`, `start`, `end` and `words` keys may
    be absent. Times are whole seconds. */
module Transcript {
  import opened Wrappers

  /** One entry of a segment's `words` list. */
  datatype Word = Word(text: string, start: int, end: int)

  /** A transcript segment; `None` stands for a missing key. */
  datatype Segment = Segment(text: Option<string>, start: Option<int>, end: Option<int>, words: Option<seq<Word>>)

  datatype Transcription = Transcription(text: Option<string>, segments: Option<seq<Segment>>)

  predicate HasTimes(seg: Segment) {
    seg.start.Some? && seg.end.Some?
  }
}
