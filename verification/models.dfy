/**
 * The transcript data model of podpulp/models.py: a `Segment` of text with
 * optional clock values and speaker, and a `Transcript` whose metadata fields
 * are filled in after parsing, with its derived views.
 */
module Models {
  import opened Wrappers
  import opened Text
  import opened Numerals
  import opened Paths

  /** Python truthiness of an optional string: present and not empty. */
  predicate Truthy(o: Option<string>) {
    o.Some? && o.value != ""
  }

  /** `a or b` for optional strings. */
  function Or(a: Option<string>, b: Option<string>): (r: Option<string>)
    ensures Truthy(a) ==> r == a
    ensures !Truthy(a) ==> r == b
  {
    if Truthy(a) then a else b
  }

  /** One timed piece of text; `begin` and `end` are the raw clock strings. */
  datatype Segment = Segment(text: string, begin: Option<string>, end: Option<string>, speaker: Option<string>)

  /** A publication instant, kept opaque: every `datetime` is true in Python. */
  datatype DateTime = DateTime(posixSeconds: int)

  function Texts(segments: seq<Segment>): (ts: seq<string>)
    ensures |ts| == |segments|
    ensures forall i :: 0 <= i < |segments| ==> ts[i] == segments[i].text
  {
    seq(|segments|, i requires 0 <= i < |segments| => segments[i].text)
  }

  /** The number of tokens of each segment, summed. */
  function TokenTotal(segments: seq<Segment>): nat {
    if segments == [] then 0 else TokenTotal(segments[..|segments| - 1]) + |Words(segments[|segments| - 1].text)|
  }

  // ---------------------------------------------------------------------------
  // One line of `text_with_timestamps`

  /**
   * The `[h:m:s]` label of a clock value: only when it splits into exactly
   * three colon-separated parts, with the seconds cut at the first ".".
   */
  function Bracket(begin: Option<string>): (b: string)
    ensures b != "" <==> Truthy(begin) && |Split(begin.value, ':')| == 3
    ensures b != "" ==> b[0] == '['
  {
    if Truthy(begin) then
      var parts := Split(begin.value, ':');
      if |parts| == 3 then "[" + parts[0] + ":" + parts[1] + ":" + Split(parts[2], '.')[0] + "]" else ""
    else ""
  }

  /** `"speaker: "` for a non-empty speaker, else nothing. */
  function SpeakerPrefix(speaker: Option<string>): string {
    if Truthy(speaker) then speaker.value + ": " else ""
  }

  /** The stripped line a segment contributes. */
  function Line(s: Segment): string {
    Strip(Bracket(s.begin) + " " + SpeakerPrefix(s.speaker) + s.text)
  }

  function Lines(segments: seq<Segment>): (ls: seq<string>)
    ensures |ls| == |segments|
    ensures forall i :: 0 <= i < |segments| ==> ls[i] == Line(segments[i])
  {
    seq(|segments|, i requires 0 <= i < |segments| => Line(segments[i]))
  }

  /** A transcript; `file_path`, `segments` and the duration are never reassigned once parsed. */
  class Transcript {
    const filePath: Path
    const segments: seq<Segment>
    const durationSeconds: Option<real>
    var podcastName: Option<string>
    var episodeTitle: Option<string>
    var publishDate: Option<DateTime>

    constructor (filePath: Path, segments: seq<Segment>, durationSeconds: Option<real>)
      ensures this.filePath == filePath && this.segments == segments
      ensures this.durationSeconds == durationSeconds
      ensures podcastName == None && episodeTitle == None && publishDate == None
    {
      this.filePath := filePath;
      this.segments := segments;
      this.durationSeconds := durationSeconds;
      podcastName := None;
      episodeTitle := None;
      publishDate := None;
    }

    /** `full_text`: the segment texts joined by single spaces; its tokens are the segments' tokens in order. */
    function FullText(): (r: string)
      ensures Words(r) == FlatWords(Texts(segments))
    {
      WordsOfJoin(Texts(segments));
      Join(" ", Texts(segments))
    }

    /** `word_count`: the tokens of `full_text`, which are as many as the segments hold together. */
    function WordCount(): (n: nat)
      ensures n == TokenTotal(segments)
    {
      TokenCount(segments);
      |Words(FullText())|
    }

    /** `duration_formatted`: "Unknown" without a non-zero duration, else whole minutes rounded toward zero. */
    function DurationFormatted(): (r: string)
      ensures r == "Unknown" <==> durationSeconds.None? || durationSeconds.value == 0.0
      ensures r != "Unknown" ==> r == "~" + ShowInt(Trunc(durationSeconds.value / 60.0)) + " min"
    {
      if durationSeconds.None? || durationSeconds.value == 0.0 then "Unknown"
      else
        var minutes := Trunc(durationSeconds.value / 60.0);
        assert ("~" + ShowInt(minutes) + " min")[0] == '~';
        "~" + ShowInt(minutes) + " min"
    }

    /** `text_with_timestamps`: one stripped line per segment, in order, joined by newlines. */
    method TextWithTimestamps() returns (text: string)
      ensures text == Join("\n", Lines(segments))
    {
      var lines: seq<string> := [];
      var i := 0;
      while i < |segments|
        invariant 0 <= i <= |segments|
        invariant lines == Lines(segments[..i])
      {
        var segment := segments[i];
        var timestamp := "";
        if segment.begin.Some? && segment.begin.value != "" {
          var parts := Split(segment.begin.value, ':');
          if |parts| == 3 {
            var seconds := Split(parts[2], '.')[0];
            timestamp := "[" + parts[0] + ":" + parts[1] + ":" + seconds + "]";
          }
        }
        var speakerPrefix := if segment.speaker.Some? && segment.speaker.value != "" then segment.speaker.value + ": " else "";
        lines := lines + [Strip(timestamp + " " + speakerPrefix + segment.text)];
        assert segments[..i + 1] == segments[..i] + [segment];
        i := i + 1;
      }
      assert segments[..i] == segments;
      text := Join("\n", lines);
    }
  }

  // ---------------------------------------------------------------------------
  // Properties of the views

  /** The token count of the joined texts is the sum of the per-segment counts. */
  lemma {:induction false} TokenCount(segments: seq<Segment>)
    ensures |FlatWords(Texts(segments))| == TokenTotal(segments)
  {
    if segments != [] {
      var init := segments[..|segments| - 1];
      var last := segments[|segments| - 1];
      TokenCount(init);
      assert Texts(segments) == Texts(init) + [last.text];
      FlatWordsAppend(Texts(init), [last.text]);
      assert FlatWords([last.text]) == Words(last.text);
    }
  }

  /** With at least one segment and no line break inside a line, the text has exactly one line per segment. */
  lemma LinePerSegment(segments: seq<Segment>, text: string)
    requires segments != [] && text == Join("\n", Lines(segments))
    requires forall i :: 0 <= i < |segments| ==> '\n' !in Line(segments[i])
    ensures Split(text, '\n') == Lines(segments)
  {
    SplitJoin(Lines(segments), '\n');
  }

  /** A clock value `h:m:s.f` is labelled `[h:m:s]`. */
  lemma BracketOfClock(h: string, m: string, s: string, f: string)
    requires ':' !in h && ':' !in m && ':' !in s && ':' !in f && '.' !in s
    ensures Bracket(Some(h + ":" + m + ":" + s + "." + f)) == "[" + h + ":" + m + ":" + s + "]"
  {
    var sec := s + [ '.' ] + f;
    assert ':' !in sec;
    var v := h + [':'] + (m + [':'] + sec);
    assert h + ":" + m + ":" + s + "." + f == v;
    SplitAtFirst(h, ':', m + [':'] + sec);
    SplitAtFirst(m, ':', sec);
    SplitNoSeparator(sec, ':');
    SplitAtFirst(s, '.', f);
  }

  /** A clock value `h:m:s` without a fraction is labelled `[h:m:s]`. */
  lemma BracketOfWholeClock(h: string, m: string, s: string)
    requires ':' !in h && ':' !in m && ':' !in s && '.' !in s
    ensures Bracket(Some(h + ":" + m + ":" + s)) == "[" + h + ":" + m + ":" + s + "]"
  {
    var v := h + [':'] + (m + [':'] + s);
    assert h + ":" + m + ":" + s == v;
    SplitAtFirst(h, ':', m + [':'] + s);
    SplitAtFirst(m, ':', s);
    SplitNoSeparator(s, ':');
    SplitNoSeparator(s, '.');
  }

  /**
   * For text with no whitespace at either end, stripping the line only drops
   * the separating space when there is no label: `[h:m:s] speaker: text`,
   * `speaker: text` or `text`.
   */
  lemma LineShape(seg: Segment)
    requires seg.text != [] && !IsSpace(seg.text[0]) && !IsSpace(seg.text[|seg.text| - 1])
    requires Truthy(seg.speaker) ==> !IsSpace(seg.speaker.value[0])
    ensures Line(seg) ==
      (if Bracket(seg.begin) != "" then Bracket(seg.begin) + " " else "") + SpeakerPrefix(seg.speaker) + seg.text
  {
    var b := Bracket(seg.begin);
    var p := SpeakerPrefix(seg.speaker);
    var t := seg.text;
    var body := p + t;
    assert body[|body| - 1] == t[|t| - 1];
    assert !IsSpace(body[0]) by {
      if p != "" {
        assert body[0] == seg.speaker.value[0];
      } else {
        assert body[0] == t[0];
      }
    }
    if b != "" {
      OccursIsIn('[', Whitespace);
      var s := b + " " + p + t;
      assert s[0] == '[';
      assert s[|s| - 1] == t[|t| - 1];
      StripClean(s);
    } else {
      SpaceIsSpace();
      assert b + " " + p + t == [' '] + (body + []);
      StripPadded([' '], body, []);
    }
  }

  /** The duration examples of the program's tests for `Transcript`. */
  lemma DurationExamples(t: Transcript, u: Transcript)
    requires t.durationSeconds == Some(125.5) && u.durationSeconds == None
    ensures t.DurationFormatted() == "~2 min"
    ensures u.DurationFormatted() == "Unknown"
  {
    assert Trunc(125.5 / 60.0) == 2;
    assert ShowInt(2) == "2";
  }
}
