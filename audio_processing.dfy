/** The decisions of clipify/core/audio_processing.py: the `.wav` output
    path, the shell command that extracts the audio (and how `sh` reads its
    double-quoted paths), and the guard before transcription. ffmpeg and
    Whisper are outcome oracles; directory creation and printing are left
    out. */
module AudioProcessing {
  import opened Wrappers
  import opened Text
  import opened Paths
  import opened Transcript

  // ---------------------------------------------------------------------
  // The output path

  lemma {:induction false} LowerAppend(a: string, b: string)
    ensures Lower(a + b) == Lower(a) + Lower(b)
  {
    var l := Lower(a + b);
    assert |l| == |Lower(a) + Lower(b)|;
    forall i | 0 <= i < |l|
      ensures l[i] == (Lower(a) + Lower(b))[i]
    {
      if i < |a| {
        assert (a + b)[i] == a[i];
      } else {
        assert (a + b)[i] == b[i - |a|];
      }
    }
  }

  lemma LowerWav()
    ensures Lower(".wav") == ".wav"
  {
    var l := Lower(".wav");
    assert l[0] == LowerChar('.') && l[1] == LowerChar('w') && l[2] == LowerChar('a') && l[3] == LowerChar('v');
  }

  /** Lines 20-24: a path whose lower-cased form does not end in `.wav` is
      replaced by its `splitext` root followed by `.wav`. */
  function ForceWav(p: string): (r: string)
    ensures EndsWith(Lower(r), ".wav")
  {
    if EndsWith(Lower(p), ".wav") then p
    else
      var r := SplitExt(p).0 + ".wav";
      LowerAppend(SplitExt(p).0, ".wav");
      LowerWav();
      assert Lower(r)[|Lower(r)| - 4..] == ".wav";
      r
  }

  /** A `.wav` path, in any letter case, is kept; any other path becomes its
      root plus `.wav`; and forcing twice is forcing once. */
  lemma ForceWavSpec(p: string)
    ensures EndsWith(Lower(p), ".wav") <==> ForceWav(p) == p
    ensures !EndsWith(Lower(p), ".wav") ==> ForceWav(p) == SplitExt(p).0 + ".wav"
    ensures ForceWav(ForceWav(p)) == ForceWav(p)
  {
  }

  /** A path spelled with a `.wav` ending is kept. */
  lemma WavKept(stem: string)
    ensures ForceWav(stem + ".wav") == stem + ".wav"
  {
    LowerAppend(stem, ".wav");
    LowerWav();
    var l := Lower(stem + ".wav");
    assert l[|l| - 4..] == ".wav";
  }

  // ---------------------------------------------------------------------
  // Escaping as written

  /** `s.replace('"', '\\"')` (lines 16, 17 and 24). */
  function EscapeQuotes(s: string): (r: string)
    ensures |r| >= |s|
    ensures s != [] ==> r != [] && r[0] != '"'
  {
    if s == [] then []
    else (if s[0] == '"' then "\\\"" else [s[0]]) + EscapeQuotes(s[1..])
  }

  /** `t.replace('\\"', '"')`: strips the backslash of each `\"`, scanning
      from the left. */
  function UnescapeQuotes(t: string): string
  {
    if t == [] then []
    else if |t| >= 2 && t[0] == '\\' && t[1] == '"' then "\"" + UnescapeQuotes(t[2..])
    else [t[0]] + UnescapeQuotes(t[1..])
  }

  /** Escaping loses nothing: undoing it gives the path back. */
  lemma {:induction false} UnescapeEscapeQuotes(s: string)
    ensures UnescapeQuotes(EscapeQuotes(s)) == s
  {
    if s != [] {
      var t := EscapeQuotes(s);
      var rest := EscapeQuotes(s[1..]);
      UnescapeEscapeQuotes(s[1..]);
      if s[0] == '"' {
        assert t == "\\\"" + rest;
        assert t[2..] == rest;
      } else {
        assert t == [s[0]] + rest;
        assert t[1..] == rest;
      }
      assert [s[0]] + s[1..] == s;
    }
  }

  /** Every `"` of the escaped text has a backslash before it. */
  lemma {:induction false} QuotesEscaped(s: string)
    ensures forall j :: 0 <= j < |EscapeQuotes(s)| && EscapeQuotes(s)[j] == '"' ==> j > 0 && EscapeQuotes(s)[j - 1] == '\\'
  {
    if s != [] {
      QuotesEscaped(s[1..]);
      var r := EscapeQuotes(s);
      var rest := EscapeQuotes(s[1..]);
      var head := if s[0] == '"' then "\\\"" else [s[0]];
      assert r == head + rest;
      forall j | 0 <= j < |r| && r[j] == '"'
        ensures j > 0 && r[j - 1] == '\\'
      {
        if j < |head| {
          assert r[j] == head[j];
          if s[0] == '"' {
            assert j == 1 && r[0] == head[0];
          }
        } else {
          assert r[j] == rest[j - |head|];
          if j > |head| {
            assert r[j - 1] == rest[j - 1 - |head|];
          }
        }
      }
    }
  }

  // ---------------------------------------------------------------------
  // How sh reads a double-quoted word

  /** The characters a backslash escapes inside double quotes (section
      2.2.3 of the POSIX Shell Command Language). */
  predicate DoubleQuoteSpecial(c: char) {
    c == '"' || c == '\\' || c == '$' || c == '`'
  }

  function Cons(c: char, n: nat, o: Option<(string, nat)>): Option<(string, nat)> {
    match o
    case None => None
    case Some(p) => Some(([c] + p.0, n + p.1))
  }

  function Skip(n: nat, o: Option<(string, nat)>): Option<(string, nat)> {
    match o
    case None => None
    case Some(p) => Some((p.0, n + p.1))
  }

  /** The rest of a double-quoted word after its opening quote: its value
      and the number of characters read, the closing quote included. `None`
      when the quote is never closed, or when an unescaped `$` or backquote
      would expand (expansion is not modelled). */
  function ReadDoubleQuoted(s: string): (r: Option<(string, nat)>)
    ensures r.Some? ==> 1 <= r.value.1 <= |s|
  {
    if s == [] then None
    else if s[0] == '"' then Some(([], 1))
    else if s[0] == '$' || s[0] == '`' then None
    else if s[0] == '\\' && |s| >= 2 && DoubleQuoteSpecial(s[1]) then Cons(s[1], 2, ReadDoubleQuoted(s[2..]))
    else if s[0] == '\\' && |s| >= 2 && s[1] == '\n' then Skip(2, ReadDoubleQuoted(s[2..]))
    else Cons(s[0], 1, ReadDoubleQuoted(s[1..]))
  }

  /** A double-quoted word: its value and its length in the command. */
  function ReadQuoted(s: string): (r: Option<(string, nat)>)
    ensures r.Some? ==> 2 <= r.value.1 <= |s|
  {
    if s != [] && s[0] == '"' then Skip(1, ReadDoubleQuoted(s[1..])) else None
  }

  // ---------------------------------------------------------------------
  // Escaping for the shell

  function EscapeChar(c: char): string {
    if DoubleQuoteSpecial(c) then ['\\', c] else [c]
  }

  /** A backslash before each of the four special characters. */
  function EscapeForShell(s: string): string
  {
    if s == [] then [] else EscapeChar(s[0]) + EscapeForShell(s[1..])
  }

  /** The shell reads an escaped text followed by a closing quote as the
      text itself. */
  lemma {:induction false} ReadEscaped(s: string, rest: string)
    ensures ReadDoubleQuoted(EscapeForShell(s) + "\"" + rest) == Some((s, |EscapeForShell(s)| + 1))
  {
    if s == [] {
      assert EscapeForShell(s) + "\"" + rest == "\"" + rest;
    } else {
      var e := EscapeChar(s[0]);
      var tail := EscapeForShell(s[1..]) + "\"" + rest;
      var t := EscapeForShell(s) + "\"" + rest;
      assert t == e + tail;
      ReadEscaped(s[1..], rest);
      if DoubleQuoteSpecial(s[0]) {
        assert t[0] == '\\' && t[1] == s[0] && t[2..] == tail;
      } else {
        assert t[0] == s[0] && t[1..] == tail;
      }
      assert [s[0]] + s[1..] == s;
    }
  }

  /** `"` + escaped text + `"`. */
  function Quote(s: string): string {
    "\"" + EscapeForShell(s) + "\""
  }

  /** The shell reads a quoted text back as the text, whatever follows. */
  lemma QuoteRoundTrip(s: string, rest: string)
    ensures ReadQuoted(Quote(s) + rest) == Some((s, |Quote(s)|))
  {
    var t := Quote(s) + rest;
    assert t[1..] == EscapeForShell(s) + "\"" + rest;
    ReadEscaped(s, rest);
  }

  /** The command as written quotes with `EscapeQuotes` only. */
  function QuoteAsWritten(s: string): string {
    "\"" + EscapeQuotes(s) + "\""
  }

  /** Without a backslash, `$` or backquote the two escapings agree. */
  lemma {:induction false} EscapingsAgree(s: string)
    requires forall i :: 0 <= i < |s| ==> s[i] == '"' || !DoubleQuoteSpecial(s[i])
    ensures EscapeQuotes(s) == EscapeForShell(s)
  {
    if s != [] {
      EscapingsAgree(s[1..]);
    }
  }

  // ---------------------------------------------------------------------
  // The command

  const CommandHead := "ffmpeg -i "
  const CommandMiddle := " -ab 160k -ac 2 -ar 44100 -vn "
  const CommandTail := " -y"

  /** Line 26 with each path escaped for the shell. */
  function AudioCommand(video: string, audio: string): string {
    CommandHead + Quote(video) + CommandMiddle + Quote(audio) + CommandTail
  }

  /** Line 26 as written. */
  function AudioCommandAsWritten(video: string, audio: string): string {
    CommandHead + QuoteAsWritten(video) + CommandMiddle + QuoteAsWritten(audio) + CommandTail
  }

  /** For paths without a backslash, `$` or backquote, line 26 as written
      sends the shell-safe command. */
  lemma AudioCommandsAgree(video: string, audio: string)
    requires forall i :: 0 <= i < |video| ==> video[i] == '"' || !DoubleQuoteSpecial(video[i])
    requires forall i :: 0 <= i < |audio| ==> audio[i] == '"' || !DoubleQuoteSpecial(audio[i])
    ensures AudioCommandAsWritten(video, audio) == AudioCommand(video, audio)
  {
    EscapingsAgree(video);
    EscapingsAgree(audio);
  }

  /** Where each of five pieces lies in their concatenation. */
  lemma Pieces(a: string, b: string, c: string, d: string, e: string)
    ensures var cmd := a + b + c + d + e;
      && |a| + |b| + |c| + |d| + |e| == |cmd|
      && cmd[..|a|] == a
      && cmd[|a|..] == b + (c + d + e)
      && cmd[|a| + |b|..|a| + |b| + |c|] == c
      && cmd[|a| + |b| + |c|..] == d + e
      && cmd[|a| + |b| + |c| + |d|..] == e
  {
    var cmd := a + b + c + d + e;
    assert cmd == a + (b + (c + d + e));
    assert cmd == (a + b) + (c + (d + e));
    assert cmd == (a + b + c) + (d + e);
    assert cmd == (a + b + c + d) + e;
  }

  /** The shell reads the command as the fixed words, the video path as
      the input word, the fixed options, the audio path as the output
      word, and `-y`. */
  lemma AudioCommandWords(video: string, audio: string)
    ensures var cmd := AudioCommand(video, audio);
      var i := |CommandHead|;
      var j := i + |Quote(video)| + |CommandMiddle|;
      && j + |Quote(audio)| + |CommandTail| == |cmd|
      && cmd[..i] == CommandHead
      && ReadQuoted(cmd[i..]) == Some((video, |Quote(video)|))
      && cmd[i + |Quote(video)|..j] == CommandMiddle
      && ReadQuoted(cmd[j..]) == Some((audio, |Quote(audio)|))
      && cmd[j + |Quote(audio)|..] == CommandTail
  {
    Pieces(CommandHead, Quote(video), CommandMiddle, Quote(audio), CommandTail);
    QuoteRoundTrip(video, CommandMiddle + Quote(audio) + CommandTail);
    QuoteRoundTrip(audio, CommandTail);
  }

  /** A word that opens with a backslash and a quote reads as a text that
      begins with that quote, if it reads at all. */
  lemma EscapedQuoteFirst(rest: string)
    ensures var w := ReadQuoted("\"\\\"" + rest);
      w.None? || (w.value.0 != [] && w.value.0[0] == '"')
  {
    var s := "\"\\\"" + rest;
    assert s[1..] == "\\\"" + rest;
    assert s[1..][2..] == rest;
  }

  /** As written, a video path that is a lone backslash escapes the closing
      quote: the word the shell reads begins with `"` and so is not the
      path (or the shell reads no word at all). */
  lemma AsWrittenMisquotes(audio: string)
    ensures var cmd := AudioCommandAsWritten("\\", audio);
      var w := ReadQuoted(cmd[|CommandHead|..]);
      w.None? || (w.value.0 != [] && w.value.0[0] == '"' && w.value.0 != "\\")
  {
    var rest := CommandMiddle + QuoteAsWritten(audio) + CommandTail;
    assert EscapeQuotes("\\") == "\\";
    assert QuoteAsWritten("\\") == "\"\\\"";
    Pieces(CommandHead, QuoteAsWritten("\\"), CommandMiddle, QuoteAsWritten(audio), CommandTail);
    EscapedQuoteFirst(rest);
  }

  // ---------------------------------------------------------------------
  // The two functions

  /** `extract_audio_from_video(video, output)` with shell-safe escaping;
      `run` says whether the shell command completes without error. The
      result is the forced `.wav` path or `None`. */
  function ExtractAudioFromVideo(video: string, output: string, run: string -> bool): (r: Option<string>)
    ensures r.Some? <==> run(AudioCommand(video, ForceWav(output)))
    ensures r.Some? ==> r.value == ForceWav(output) && EndsWith(Lower(r.value), ".wav")
  {
    var audio := ForceWav(output);
    if run(AudioCommand(video, audio)) then Some(audio) else None
  }

  /** `extract_audio_from_video` as written: the same, with the command of
      line 26 as written. */
  function ExtractAudioFromVideoAsWritten(video: string, output: string, run: string -> bool): (r: Option<string>)
    ensures r.Some? <==> run(AudioCommandAsWritten(video, ForceWav(output)))
    ensures r.Some? ==> r.value == ForceWav(output)
  {
    var audio := ForceWav(output);
    if run(AudioCommandAsWritten(video, audio)) then Some(audio) else None
  }

  /** A Whisper run: whether the model was loaded and the result. */
  datatype Transcribed = Transcribed(modelLoaded: bool, result: Option<Transcription>)

  /** `transcribe_audio_with_whisper(audio)`; `whisper` is what loading the
      model and transcribing gives, `None` when either raises. */
  function TranscribeAudioWithWhisper(audioExists: bool, whisper: Option<Transcription>): (r: Transcribed)
    ensures !audioExists ==> !r.modelLoaded && r.result.None?
    ensures audioExists ==> r.modelLoaded && r.result == whisper
  {
    if !audioExists then Transcribed(false, None) else Transcribed(true, whisper)
  }
}
