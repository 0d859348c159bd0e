/**
 * podpulp/parser.py from the element tree onward: collecting the text of a
 * `<p>` element, building segments from a TTML body, the duration as the
 * latest end time, and grouping segments into paragraphs at timing gaps.
 */
module Parser {
  import opened Wrappers
  import opened Text
  import opened Timestamp
  import opened Paths
  import opened ElementTree
  import opened Models
  import opened Grouping

  // ---------------------------------------------------------------------------
  // extract_text_from_element

  /** Non-empty, with no whitespace at either end: what `strip()` leaves of a non-blank string. */
  predicate Trimmed(f: string) {
    f != [] && !IsSpace(f[0]) && !IsSpace(f[|f| - 1])
  }

  /** The fragment a text or tail slot contributes: its stripped value, unless it is missing or blank. */
  function Fragment(o: Option<string>): (fs: seq<string>)
    ensures |fs| <= 1
    ensures fs != [] ==> Trimmed(fs[0])
  {
    if o.Some? && o.value != "" && Strip(o.value) != "" then [Strip(o.value)] else []
  }

  /** The fragments collected from an element: its text, each child's fragments, then its own tail. */
  function Fragments(e: Element): seq<string>
    decreases e, 1
  {
    Fragment(e.text) + ChildFragments(e.children) + Fragment(e.tail)
  }

  function ChildFragments(cs: seq<Element>): seq<string>
    decreases cs, 0
  {
    if cs == [] then [] else ChildFragments(cs[..|cs| - 1]) + Fragments(cs[|cs| - 1])
  }

  function OrEmpty(o: Option<string>): string {
    if o.Some? then o.value else ""
  }

  /**
   * The whitespace-separated tokens of all the text in an element's subtree,
   * in document order, ending with the element's own tail.
   */
  function TreeWords(e: Element): seq<string>
    decreases e, 1
  {
    Words(OrEmpty(e.text)) + ChildWords(e.children) + Words(OrEmpty(e.tail))
  }

  function ChildWords(cs: seq<Element>): seq<string>
    decreases cs, 0
  {
    if cs == [] then [] else ChildWords(cs[..|cs| - 1]) + TreeWords(cs[|cs| - 1])
  }

  /** The inner `collect_text`: appends the fragments of `e` to those collected so far. */
  method CollectText(e: Element, parts: seq<string>) returns (out: seq<string>)
    ensures out == parts + Fragments(e)
    decreases e
  {
    out := AppendStripped(parts, e.text);
    ghost var before := out;
    var children := e.children;
    var i := 0;
    while i < |children|
      invariant 0 <= i <= |children|
      invariant out == before + ChildFragments(children[..i])
    {
      out := CollectText(children[i], out);
      ChildFragmentsSnoc(children, i);
      i := i + 1;
    }
    assert children[..i] == children;
    out := AppendStripped(out, e.tail);
    FragmentsUnfold(e, parts);
  }

  lemma FragmentsUnfold(e: Element, parts: seq<string>)
    ensures parts + Fragments(e) == parts + Fragment(e.text) + ChildFragments(e.children) + Fragment(e.tail)
  {
  }

  /** Appends the stripped text or tail when it is present and not blank. */
  method AppendStripped(parts: seq<string>, o: Option<string>) returns (out: seq<string>)
    ensures out == parts + Fragment(o)
  {
    out := parts;
    if o.Some? && o.value != "" && Strip(o.value) != "" {
      out := out + [Strip(o.value)];
    }
  }

  lemma ChildFragmentsSnoc(cs: seq<Element>, i: nat)
    requires i < |cs|
    ensures ChildFragments(cs[..i + 1]) == ChildFragments(cs[..i]) + Fragments(cs[i])
  {
    assert cs[..i + 1][..i] == cs[..i];
  }

  /** `extract_text_from_element`: the subtree's tokens joined by single spaces. */
  method ExtractText(elem: Element) returns (text: string)
    ensures text == Join(" ", TreeWords(elem))
  {
    var textParts := CollectText(elem, []);
    text := Join(" ", textParts);
    var joined := text;
    text := CollapseSpaces(text);
    text := Strip(text);
    assert textParts == Fragments(elem);
    NormalizeIsJoinedWords(joined);
    WordsOfJoin(textParts);
    FragmentWords(elem);
  }

  /** Every collected fragment is non-blank and stripped. */
  lemma {:induction false} FragmentsTrimmed(e: Element)
    ensures forall i :: 0 <= i < |Fragments(e)| ==> Trimmed(Fragments(e)[i])
    decreases e, 1
  {
    ChildFragmentsTrimmed(e.children);
  }

  lemma {:induction false} ChildFragmentsTrimmed(cs: seq<Element>)
    ensures forall i :: 0 <= i < |ChildFragments(cs)| ==> Trimmed(ChildFragments(cs)[i])
    decreases cs, 0
  {
    if cs != [] {
      ChildFragmentsTrimmed(cs[..|cs| - 1]);
      FragmentsTrimmed(cs[|cs| - 1]);
    }
  }

  lemma FragmentSlotWords(o: Option<string>)
    ensures FlatWords(Fragment(o)) == Words(OrEmpty(o))
  {
    if o.Some? {
      WordsStrip(o.value);
      if Fragment(o) != [] {
        assert FlatWords(Fragment(o)) == Words(Strip(o.value)) + FlatWords([]);
      }
    }
  }

  /** The tokens of the collected fragments are the tokens of the subtree. */
  lemma {:induction false} FragmentWords(e: Element)
    ensures FlatWords(Fragments(e)) == TreeWords(e)
    decreases e, 1
  {
    ChildFragmentWords(e.children);
    FragmentSlotWords(e.text);
    FragmentSlotWords(e.tail);
    FlatWordsAppend(Fragment(e.text) + ChildFragments(e.children), Fragment(e.tail));
    FlatWordsAppend(Fragment(e.text), ChildFragments(e.children));
  }

  lemma {:induction false} ChildFragmentWords(cs: seq<Element>)
    ensures FlatWords(ChildFragments(cs)) == ChildWords(cs)
    decreases cs, 0
  {
    if cs != [] {
      ChildFragmentWords(cs[..|cs| - 1]);
      FragmentWords(cs[|cs| - 1]);
      FlatWordsAppend(ChildFragments(cs[..|cs| - 1]), Fragments(cs[|cs| - 1]));
    }
  }

  /** Every token of a subtree is a non-empty run without whitespace. */
  lemma {:induction false} TreeWordsAreWords(e: Element)
    ensures forall i :: 0 <= i < |TreeWords(e)| ==> IsWord(TreeWords(e)[i])
    decreases e, 1
  {
    WordsAreWords(OrEmpty(e.text));
    ChildWordsAreWords(e.children);
    WordsAreWords(OrEmpty(e.tail));
  }

  lemma {:induction false} ChildWordsAreWords(cs: seq<Element>)
    ensures forall i :: 0 <= i < |ChildWords(cs)| ==> IsWord(ChildWords(cs)[i])
    decreases cs, 0
  {
    if cs != [] {
      ChildWordsAreWords(cs[..|cs| - 1]);
      TreeWordsAreWords(cs[|cs| - 1]);
    }
  }

  /**
   * The extracted text has single spaces between tokens and none at the
   * ends, splits back into the subtree's tokens, and is empty exactly when
   * the subtree holds no non-whitespace text.
   */
  lemma ExtractedTextShape(e: Element)
    ensures Normalized(Join(" ", TreeWords(e)))
    ensures Words(Join(" ", TreeWords(e))) == TreeWords(e)
    ensures Join(" ", TreeWords(e)) == "" <==> TreeWords(e) == []
  {
    TreeWordsAreWords(e);
    JoinWordsNormalized(TreeWords(e));
    JoinWordsRoundTrip(TreeWords(e));
  }

  // ---------------------------------------------------------------------------
  // group_segments_into_paragraphs

  /**
   * A paragraph starts at `cur` when both clock values are there and parse,
   * and `cur` begins more than `threshold` seconds after `prev` ends.
   */
  predicate Breaks(prev: Segment, cur: Segment, threshold: real) {
    && Truthy(prev.end) && Truthy(cur.begin)
    && ParseTimestamp(prev.end.value).Some? && ParseTimestamp(cur.begin.value).Some?
    && ParseTimestamp(cur.begin.value).value - ParseTimestamp(prev.end.value).value > threshold
  }

  /** Which segments open a new paragraph: each one after the first that `Breaks` from its predecessor. */
  function Opens(segments: seq<Segment>, threshold: real): seq<bool> {
    seq(|segments|, i requires 0 <= i < |segments| => i > 0 && Breaks(segments[i - 1], segments[i], threshold))
  }

  /** The paragraphs' texts: the segment texts cut before each segment that opens a paragraph. */
  function Groups(segments: seq<Segment>, threshold: real): (gs: seq<seq<string>>)
    ensures segments == [] <==> gs == []
    ensures forall i :: 0 <= i < |gs| ==> gs[i] != []
  {
    Runs(Texts(segments), Opens(segments, threshold))
  }

  /** The gap, in seconds, that starts a new paragraph when the caller gives none. */
  const DefaultGapThreshold: real := 2.0

  /** `group_segments_into_paragraphs`: one paragraph per run of segments between breaks. */
  method GroupSegmentsIntoParagraphs(segments: seq<Segment>, gapThreshold: real) returns (paragraphs: seq<string>)
    ensures paragraphs == JoinEach(Groups(segments, gapThreshold))
    ensures segments == [] <==> paragraphs == []
  {
    if segments == [] {
      return [];
    }
    ghost var texts := Texts(segments);
    ghost var opens := Opens(segments, gapThreshold);
    paragraphs := [];
    var currentParagraph: seq<string> := [];
    ghost var closed: seq<seq<string>> := [];
    for i := 0 to |segments|
      invariant paragraphs == JoinEach(closed)
      invariant i == 0 ==> closed == [] && currentParagraph == []
      invariant i > 0 ==> currentParagraph != []
      invariant i > 0 ==> Runs(texts[..i], opens[..i]) == closed + [currentParagraph]
    {
      var segment := segments[i];
      if currentParagraph == [] {
        currentParagraph := currentParagraph + [segment.text];
        assert currentParagraph == texts[..1];
      } else {
        RunsAdvance(texts, opens, i, closed, currentParagraph);
        var startsNew := GapExceeded(segments, i, gapThreshold);
        if startsNew {
          JoinEachSnoc(closed, currentParagraph);
          paragraphs := paragraphs + [Join(" ", currentParagraph)];
          closed := closed + [currentParagraph];
          currentParagraph := [segment.text];
        } else {
          currentParagraph := currentParagraph + [segment.text];
        }
      }
    }
    assert texts[..|segments|] == texts && opens[..|segments|] == opens;
    JoinEachSnoc(closed, currentParagraph);
    paragraphs := paragraphs + [Join(" ", currentParagraph)];
  }

  /**
   * The gap test of the loop for the segment at `i`: both clock values
   * present, both parse, and the gap exceeds the threshold. A clock value
   * that does not parse means no break, as the `except (ValueError,
   * TypeError)` clause decides.
   */
  method GapExceeded(segments: seq<Segment>, i: nat, gapThreshold: real) returns (b: bool)
    requires 0 < i < |segments|
    ensures b == Breaks(segments[i - 1], segments[i], gapThreshold)
    ensures b == Opens(segments, gapThreshold)[i]
  {
    var prevSegment := segments[i - 1];
    var segment := segments[i];
    b := false;
    if prevSegment.end.Some? && prevSegment.end.value != "" && segment.begin.Some? && segment.begin.value != "" {
      var prevEnd := ParseTimestamp(prevSegment.end.value);
      var currBegin := ParseTimestamp(segment.begin.value);
      if prevEnd.Some? && currBegin.Some? {
        var gap := currBegin.value - prevEnd.value;
        b := gap > gapThreshold;
      }
    }
  }

  /** Reading the paragraphs' runs one after another gives every segment text once, in order. */
  lemma GroupsKeepTexts(segments: seq<Segment>, threshold: real)
    ensures Flatten(Groups(segments, threshold)) == Texts(segments)
  {
    RunsFlatten(Texts(segments), Opens(segments, threshold));
  }

  /** How many of the segments 1 to `i` break from their predecessor. */
  function BreaksUpTo(segments: seq<Segment>, threshold: real, i: nat): nat
    requires i < |segments|
  {
    if i == 0 then 0
    else BreaksUpTo(segments, threshold, i - 1) + (if Breaks(segments[i - 1], segments[i], threshold) then 1 else 0)
  }

  lemma {:induction false} BreaksUpToCount(segments: seq<Segment>, threshold: real, i: nat)
    requires i < |segments|
    ensures Count(Opens(segments, threshold)[1..i + 1]) == BreaksUpTo(segments, threshold, i)
  {
    var opens := Opens(segments, threshold);
    if i == 0 {
      assert opens[1..1] == [];
    } else {
      BreaksUpToCount(segments, threshold, i - 1);
      assert opens[1..i + 1] == opens[1..i] + [opens[i]];
      CountSnoc(opens[1..i], opens[i]);
    }
  }

  /**
   * Where the paragraphs are cut: segment `i` lies in the paragraph whose
   * number is the count of breaks among segments 1 to `i`, its text in its
   * place there, and it opens that paragraph exactly when it is the first
   * segment or it breaks from the segment before it.
   */
  lemma SegmentPlace(segments: seq<Segment>, threshold: real, i: nat)
    requires i < |segments|
    ensures Placed(Groups(segments, threshold), BreaksUpTo(segments, threshold, i), i, segments[i].text)
    ensures i == Offset(Groups(segments, threshold), BreaksUpTo(segments, threshold, i))
      <==> i == 0 || Breaks(segments[i - 1], segments[i], threshold)
  {
    var texts := Texts(segments);
    var opens := Opens(segments, threshold);
    RunsPlace(texts, opens, i);
    BreaksUpToCount(segments, threshold, i);
    assert texts[i] == segments[i].text;
    assert opens[i] == (i > 0 && Breaks(segments[i - 1], segments[i], threshold));
  }

  /** There is one paragraph more than there are segments that break from their predecessor. */
  lemma ParagraphCount(segments: seq<Segment>, threshold: real)
    requires segments != []
    ensures |Groups(segments, threshold)| == 1 + Count(Opens(segments, threshold)[1..])
  {
    RunsCount(Texts(segments), Opens(segments, threshold));
  }

  /** The paragraphs, joined by spaces, are the segment texts joined by spaces. */
  lemma ParagraphsKeepText(segments: seq<Segment>, threshold: real)
    ensures Join(" ", JoinEach(Groups(segments, threshold))) == Join(" ", Texts(segments))
  {
    JoinFlatten(Groups(segments, threshold));
    GroupsKeepTexts(segments, threshold);
  }

  /** Without any break, all segments form one paragraph. */
  lemma NoBreakOneParagraph(segments: seq<Segment>, threshold: real)
    requires segments != []
    requires forall i :: 0 < i < |segments| ==> !Breaks(segments[i - 1], segments[i], threshold)
    ensures JoinEach(Groups(segments, threshold)) == [Join(" ", Texts(segments))]
  {
    var opens := Opens(segments, threshold);
    assert forall k :: 0 <= k < |opens[1..]| ==> !opens[1..][k];
    CountNone(opens[1..]);
    ParagraphCount(segments, threshold);
    ParagraphsKeepText(segments, threshold);
  }

  // ---------------------------------------------------------------------------
  // parse_ttml, from the element tree onward

  /** The TTML namespace in ElementTree's `{uri}` spelling. */
  const TtmlNs := "{http://www.w3.org/ns/ttml}"

  /** The TTML metadata namespace, which holds `ttm:agent`. */
  const MetadataNs := "{http://www.w3.org/ns/ttml#metadata}"

  /**
   * The fallback keys for the timing attributes. They are built with one
   * pair of braces too many, `{{uri}}begin`, so they never name the
   * namespaced attribute `{uri}begin`.
   */
  const QualifiedBeginKey := "{" + TtmlNs + "}begin"
  const QualifiedEndKey := "{" + TtmlNs + "}end"

  /** `root.find(".//{ns}body")`, and failing that `root.find(".//body")`. */
  function FindBody(root: Element): (b: Option<Element>)
    ensures b.None? <==> FindDescendant(root, TtmlNs + "body").None? && FindDescendant(root, "body").None?
  {
    match FindDescendant(root, TtmlNs + "body")
    case Some(body) => Some(body)
    case None => FindDescendant(root, "body")
  }

  /** The qualified children with a local name, then the unqualified ones. */
  function TaggedEitherWay(e: Element, local: string): (r: seq<Element>)
    ensures forall x :: x in r <==> x in e.children && (x.tag == TtmlNs + local || x.tag == local)
  {
    ChildrenTagged(e.children, TtmlNs + local) + ChildrenTagged(e.children, local)
  }

  /** `p.get("begin") or p.get(QualifiedBeginKey)` */
  function Begin(p: Element): Option<string> {
    Or(Get(p.attrib, "begin"), Get(p.attrib, QualifiedBeginKey))
  }

  /** `p.get("end") or p.get(QualifiedEndKey)` */
  function End(p: Element): Option<string> {
    Or(Get(p.attrib, "end"), Get(p.attrib, QualifiedEndKey))
  }

  /** An attribute name that mentions "agent" or "speaker" in any letter case. */
  predicate IsSpeakerKey(key: string) {
    Contains(Lower(key), "agent") || Contains(Lower(key), "speaker")
  }

  /** The value of the first attribute whose name is a speaker key, in attribute order. */
  function SpeakerAttr(attrib: seq<(string, string)>): (r: Option<string>)
    ensures r.None? <==> forall i :: 0 <= i < |attrib| ==> !IsSpeakerKey(attrib[i].0)
    ensures r.Some? ==> exists i :: (0 <= i < |attrib| && IsSpeakerKey(attrib[i].0) && attrib[i].1 == r.value &&
      forall j :: 0 <= j < i ==> !IsSpeakerKey(attrib[j].0))
  {
    if attrib == [] then None
    else if IsSpeakerKey(attrib[0].0) then Some(attrib[0].1)
    else
      var r := SpeakerAttr(attrib[1..]);
      assert r.Some? ==> exists i :: (1 <= i < |attrib| && IsSpeakerKey(attrib[i].0) && attrib[i].1 == r.value &&
        forall j :: 0 <= j < i ==> !IsSpeakerKey(attrib[j].0)) by {
        if r.Some? {
          var i :| (0 <= i < |attrib[1..]| && IsSpeakerKey(attrib[1..][i].0) && attrib[1..][i].1 == r.value &&
            forall j :: 0 <= j < i ==> !IsSpeakerKey(attrib[1..][j].0));
          assert forall j :: 1 <= j < i + 1 ==> attrib[j] == attrib[1..][j - 1];
        }
      }
      r
  }

  /** The speaker: the first speaker attribute unless it is missing or empty, else `ttm:agent`. */
  function Speaker(p: Element): Option<string> {
    Or(SpeakerAttr(p.attrib), Get(p.attrib, MetadataNs + "agent"))
  }

  /** The segment a `<p>` element yields, or nothing when its text is empty. */
  function SegmentOf(p: Element): (o: Option<Segment>)
    ensures o.None? <==> TreeWords(p) == []
    ensures o.Some? ==> o.value.text != "" && Normalized(o.value.text)
  {
    ExtractedTextShape(p);
    var text := Join(" ", TreeWords(p));
    if text == "" then None else Some(Segment(text, Begin(p), End(p), Speaker(p)))
  }

  function Kept(o: Option<Segment>): (r: seq<Segment>)
    ensures |r| <= 1
  {
    if o.Some? then [o.value] else []
  }

  /** A segment text as `extract_text_from_element` leaves it: non-empty and whitespace-normalised. */
  predicate GoodText(s: Segment) {
    s.text != "" && Normalized(s.text)
  }

  /** The segments of a list of `<p>` elements, in order, skipping those without text. */
  function SegmentsOfParagraphs(ps: seq<Element>): (r: seq<Segment>)
    ensures |r| <= |ps|
    ensures forall i :: 0 <= i < |r| ==> GoodText(r[i])
  {
    if ps == [] then []
    else
      var init := SegmentsOfParagraphs(ps[..|ps| - 1]);
      var more := Kept(SegmentOf(ps[|ps| - 1]));
      assert forall i :: 0 <= i < |more| ==> GoodText(more[i]);
      init + more
  }

  /** The segments of each `<div>` in turn. */
  function SegmentsOfDivs(divs: seq<Element>): (r: seq<Segment>)
    ensures forall i :: 0 <= i < |r| ==> GoodText(r[i])
  {
    if divs == [] then []
    else SegmentsOfDivs(divs[..|divs| - 1]) + SegmentsOfParagraphs(TaggedEitherWay(divs[|divs| - 1], "p"))
  }

  /** All segments of a document: none without a body. */
  function SegmentsOf(root: Element): (r: seq<Segment>)
    ensures FindBody(root).None? ==> r == []
    ensures forall i :: 0 <= i < |r| ==> GoodText(r[i])
  {
    match FindBody(root)
    case None => []
    case Some(body) => SegmentsOfDivs(TaggedEitherWay(body, "div"))
  }

  /** The seconds of a clock value, when it is present, not empty and parses. */
  function Clock(o: Option<string>): Option<real> {
    if Truthy(o) then ParseTimestamp(o.value) else None
  }

  /** The seconds of a segment's end, when it is present and parses. */
  function EndClock(s: Segment): Option<real> {
    Clock(s.end)
  }

  /** The running maximum after one more optional value. */
  function Later(m: Option<real>, t: Option<real>): (r: Option<real>)
    ensures r.None? <==> m.None? && t.None?
    ensures r.Some? ==> r == m || r == t
    ensures m.Some? ==> r.Some? && m.value <= r.value
    ensures t.Some? ==> r.Some? && t.value <= r.value
  {
    if t.Some? && (m.None? || t.value > m.value) then t else m
  }

  /** The latest end over the segments, in the order `parse_ttml` meets them. */
  function Duration(segments: seq<Segment>): Option<real> {
    if segments == [] then None
    else Later(Duration(segments[..|segments| - 1]), EndClock(segments[|segments| - 1]))
  }

  /** `parse_ttml` after the file check and `ET.parse`: the segments and the latest end. */
  method BuildSegments(root: Element) returns (segments: seq<Segment>, lastTimestamp: Option<real>)
    ensures segments == SegmentsOf(root)
    ensures lastTimestamp == Duration(segments)
  {
    segments := [];
    lastTimestamp := None;
    var body := FindDescendant(root, TtmlNs + "body");
    if body.None? {
      body := FindDescendant(root, "body");
    }
    if body.Some? {
      var divs := ChildrenTagged(body.value.children, TtmlNs + "div") + ChildrenTagged(body.value.children, "div");
      for d := 0 to |divs|
        invariant segments == SegmentsOfDivs(divs[..d])
        invariant lastTimestamp == Duration(segments)
      {
        var div := divs[d];
        var ps := ChildrenTagged(div.children, TtmlNs + "p") + ChildrenTagged(div.children, "p");
        segments, lastTimestamp := AddParagraphs(segments, lastTimestamp, ps);
        DivsSnoc(divs, d);
      }
      assert divs[..|divs|] == divs;
    }
  }

  /** The inner loop over the `<p>` elements of one `<div>`. */
  method AddParagraphs(segments: seq<Segment>, lastTimestamp: Option<real>, ps: seq<Element>)
    returns (segments': seq<Segment>, lastTimestamp': Option<real>)
    requires lastTimestamp == Duration(segments)
    ensures segments' == segments + SegmentsOfParagraphs(ps)
    ensures lastTimestamp' == Duration(segments')
  {
    segments', lastTimestamp' := segments, lastTimestamp;
    for k := 0 to |ps|
      invariant segments' == segments + SegmentsOfParagraphs(ps[..k])
      invariant lastTimestamp' == Duration(segments')
    {
      ghost var prior := segments';
      segments', lastTimestamp' := AddParagraph(segments', lastTimestamp', ps[k]);
      ParagraphsSnoc(ps, k, segments, prior);
    }
    assert ps[..|ps|] == ps;
  }

  lemma ParagraphsSnoc(ps: seq<Element>, k: nat, before: seq<Segment>, prior: seq<Segment>)
    requires k < |ps| && prior == before + SegmentsOfParagraphs(ps[..k])
    ensures prior + Kept(SegmentOf(ps[k])) == before + SegmentsOfParagraphs(ps[..k + 1])
  {
    assert ps[..k + 1][..k] == ps[..k];
  }

  lemma DivsSnoc(divs: seq<Element>, d: nat)
    requires d < |divs|
    ensures SegmentsOfDivs(divs[..d + 1]) == SegmentsOfDivs(divs[..d]) + SegmentsOfParagraphs(TaggedEitherWay(divs[d], "p"))
  {
    assert divs[..d + 1][..d] == divs[..d];
  }

  /** The body of the inner loop for one `<p>`: read its attributes and text, keep it if it has text, track the end. */
  method AddParagraph(segments: seq<Segment>, lastTimestamp: Option<real>, p: Element)
    returns (segments': seq<Segment>, lastTimestamp': Option<real>)
    requires lastTimestamp == Duration(segments)
    ensures segments' == segments + Kept(SegmentOf(p))
    ensures lastTimestamp' == Duration(segments')
  {
    var begin := Or(Get(p.attrib, "begin"), Get(p.attrib, QualifiedBeginKey));
    var end := Or(Get(p.attrib, "end"), Get(p.attrib, QualifiedEndKey));
    var speaker := FirstSpeaker(p.attrib);
    if !(speaker.Some? && speaker.value != "") {
      speaker := Get(p.attrib, MetadataNs + "agent");
    }
    var text := ExtractText(p);
    KeptParagraph(p, text, begin, end, speaker);
    segments', lastTimestamp' := segments, lastTimestamp;
    if text != "" {
      var segment := Segment(text, begin, end, speaker);
      segments' := segments + [segment];
      lastTimestamp' := TrackEnd(lastTimestamp, end);
      DurationSnoc(segments, segment);
    }
  }

  lemma KeptParagraph(p: Element, text: string, begin: Option<string>, end: Option<string>, speaker: Option<string>)
    requires text == Join(" ", TreeWords(p))
    requires begin == Begin(p) && end == End(p) && speaker == Speaker(p)
    ensures Kept(SegmentOf(p)) == if text == "" then [] else [Segment(text, begin, end, speaker)]
  {
  }

  lemma DurationSnoc(segments: seq<Segment>, s: Segment)
    ensures Duration(segments + [s]) == Later(Duration(segments), Clock(s.end))
  {
    assert (segments + [s])[..|segments|] == segments;
  }

  /** The attribute loop: the first speaker attribute's value, stopping there. */
  method FirstSpeaker(attrib: seq<(string, string)>) returns (speaker: Option<string>)
    ensures speaker == SpeakerAttr(attrib)
  {
    speaker := None;
    for i := 0 to |attrib|
      invariant SpeakerAttr(attrib) == SpeakerAttr(attrib[i..])
    {
      var (key, value) := attrib[i];
      assert attrib[i..][1..] == attrib[i + 1..];
      if Contains(Lower(key), "agent") || Contains(Lower(key), "speaker") {
        speaker := Some(value);
        return;
      }
    }
  }

  /** The duration update for one kept segment: a parseable end later than the maximum so far replaces it. */
  method TrackEnd(lastTimestamp: Option<real>, end: Option<string>) returns (r: Option<real>)
    ensures r == Later(lastTimestamp, Clock(end))
  {
    r := lastTimestamp;
    if end.Some? && end.value != "" {
      var timestampSeconds := ParseTimestamp(end.value);
      if timestampSeconds.Some? {
        if lastTimestamp.None? || timestampSeconds.value > lastTimestamp.value {
          r := timestampSeconds;
        }
      }
    }
  }

  /** Why `parse_ttml` produces no transcript. */
  datatype ParseError = FileNotFound(path: Path) | MalformedXml

  datatype Parsed = Transcribed(transcript: Transcript) | Failed(error: ParseError)

  /**
   * `parse_ttml`: a missing file is reported before anything is parsed, a
   * document `ET.parse` rejects is reported as malformed (`document` is
   * None), and otherwise the transcript holds the segments and the latest
   * parseable end.
   */
  method ParseTtml(filePath: Path, fileExists: bool, document: Option<Element>) returns (r: Parsed)
    ensures !fileExists ==> r == Failed(FileNotFound(filePath))
    ensures fileExists && document.None? ==> r == Failed(MalformedXml)
    ensures fileExists && document.Some? ==> r.Transcribed? && fresh(r.transcript)
    ensures r.Transcribed? ==> (
      && r.transcript.filePath == filePath
      && r.transcript.segments == SegmentsOf(document.value)
      && r.transcript.durationSeconds == Duration(r.transcript.segments)
      && r.transcript.podcastName.None? && r.transcript.episodeTitle.None? && r.transcript.publishDate.None?)
  {
    if !fileExists {
      return Failed(FileNotFound(filePath));
    }
    if document.None? {
      return Failed(MalformedXml);
    }
    var segments, lastTimestamp := BuildSegments(document.value);
    var transcript := new Transcript(filePath, segments, lastTimestamp);
    return Transcribed(transcript);
  }

  // ---------------------------------------------------------------------------
  // Properties of segment building

  lemma {:induction false} SegmentsOfParagraphsAppend(a: seq<Element>, b: seq<Element>)
    ensures SegmentsOfParagraphs(a + b) == SegmentsOfParagraphs(a) + SegmentsOfParagraphs(b)
    decreases |b|
  {
    if b == [] {
      assert a + b == a;
    } else {
      var init := b[..|b| - 1];
      var last := b[|b| - 1];
      assert (a + b)[..|a + b| - 1] == a + init;
      SegmentsOfParagraphsAppend(a, init);
      AppendAssoc(SegmentsOfParagraphs(a), SegmentsOfParagraphs(init), Kept(SegmentOf(last)));
    }
  }

  /** The `<p>` elements of a list are read one after another. */
  lemma {:induction false} SegmentsOfDivsAppend(a: seq<Element>, b: seq<Element>)
    ensures SegmentsOfDivs(a + b) == SegmentsOfDivs(a) + SegmentsOfDivs(b)
    decreases |b|
  {
    if b == [] {
      assert a + b == a;
    } else {
      var init := b[..|b| - 1];
      var last := b[|b| - 1];
      assert (a + b)[..|a + b| - 1] == a + init;
      SegmentsOfDivsAppend(a, init);
      AppendAssoc(SegmentsOfDivs(a), SegmentsOfDivs(init), SegmentsOfParagraphs(TaggedEitherWay(last, "p")));
    }
  }

  /**
   * At each level the namespaced elements come first: the segments of all
   * `{ns}div` children, then those of the plain `div` children, and inside
   * each div the `{ns}p` children before the plain `p` ones.
   */
  lemma QualifiedFirst(body: Element, div: Element)
    ensures SegmentsOfDivs(TaggedEitherWay(body, "div")) ==
      SegmentsOfDivs(ChildrenTagged(body.children, TtmlNs + "div")) + SegmentsOfDivs(ChildrenTagged(body.children, "div"))
    ensures SegmentsOfParagraphs(TaggedEitherWay(div, "p")) ==
      SegmentsOfParagraphs(ChildrenTagged(div.children, TtmlNs + "p")) + SegmentsOfParagraphs(ChildrenTagged(div.children, "p"))
  {
    SegmentsOfDivsAppend(ChildrenTagged(body.children, TtmlNs + "div"), ChildrenTagged(body.children, "div"));
    SegmentsOfParagraphsAppend(ChildrenTagged(div.children, TtmlNs + "p"), ChildrenTagged(div.children, "p"));
  }

  /** A `<p>` without text is dropped; any other yields one segment carrying its text, timing and speaker. */
  lemma OneParagraph(p: Element)
    ensures SegmentsOfParagraphs([p]) ==
      if TreeWords(p) == [] then [] else [Segment(Join(" ", TreeWords(p)), Begin(p), End(p), Speaker(p))]
  {
    assert [p][..0] == [];
  }

  /** The key `ElementTree` gives the `ttm:agent` attribute is itself a speaker key. */
  lemma AgentKeyIsSpeakerKey()
    ensures IsSpeakerKey(MetadataNs + "agent")
  {
    var key := MetadataNs + "agent";
    var n := |key|;
    LowerAt(key);
    assert key[n - 5..] == "agent";
    assert Lower(key)[n - 5..n] == "agent";
    assert OccursAt(Lower(key), "agent", n - 5);
    OccursContains(Lower(key), "agent", n - 5);
  }

  /** The speaker is the value of the first speaker attribute, when that value is not empty. */
  lemma SpeakerIsFirstMatch(p: Element, i: nat)
    requires i < |p.attrib| && IsSpeakerKey(p.attrib[i].0) && p.attrib[i].1 != ""
    requires forall j :: 0 <= j < i ==> !IsSpeakerKey(p.attrib[j].0)
    ensures Speaker(p) == Some(p.attrib[i].1)
  {
    var r := SpeakerAttr(p.attrib);
    var k :| (0 <= k < |p.attrib| && IsSpeakerKey(p.attrib[k].0) && p.attrib[k].1 == r.value &&
      forall j :: 0 <= j < k ==> !IsSpeakerKey(p.attrib[j].0));
    assert k == i;
  }

  /**
   * Without any attribute whose name mentions "agent" or "speaker" there is
   * no speaker: the `ttm:agent` fallback can only fire when the first speaker
   * attribute is empty.
   */
  lemma NoSpeakerKeyNoSpeaker(p: Element)
    requires forall i :: 0 <= i < |p.attrib| ==> !IsSpeakerKey(p.attrib[i].0)
    ensures Speaker(p) == None
  {
    AgentKeyIsSpeakerKey();
  }

  /**
   * With no attribute named by the doubled-brace key, which `ElementTree`
   * never produces, the timing values come from the plain `begin` and `end`
   * attributes only, and an empty one counts as missing.
   */
  lemma QualifiedTimingIgnored(p: Element)
    requires forall i :: 0 <= i < |p.attrib| ==> p.attrib[i].0 != QualifiedBeginKey && p.attrib[i].0 != QualifiedEndKey
    ensures Begin(p) == if Truthy(Get(p.attrib, "begin")) then Get(p.attrib, "begin") else None
    ensures End(p) == if Truthy(Get(p.attrib, "end")) then Get(p.attrib, "end") else None
  {
  }

  /**
   * Adding the namespaced `{ns}begin` and `{ns}end` attributes to any
   * attribute list without doubled-brace keys changes nothing: the timing
   * still comes from the plain attributes alone, so a `<p>` timed only by
   * the namespaced ones gets no timing at all.
   */
  lemma NamespacedTimingIgnored(p: Element, rest: seq<(string, string)>, b: string, e: string)
    requires forall i :: 0 <= i < |rest| ==> rest[i].0 != QualifiedBeginKey && rest[i].0 != QualifiedEndKey
    requires p.attrib == rest + [(TtmlNs + "begin", b), (TtmlNs + "end", e)]
    ensures Begin(p) == if Truthy(Get(rest, "begin")) then Get(rest, "begin") else None
    ensures End(p) == if Truthy(Get(rest, "end")) then Get(rest, "end") else None
  {
    var ns := [(TtmlNs + "begin", b), (TtmlNs + "end", e)];
    NamespacedKeysDiffer();
    assert Get(ns, "begin") == None && Get(ns, "end") == None;
    assert Get(ns, QualifiedBeginKey) == None && Get(ns, QualifiedEndKey) == None;
    GetAppend(rest, ns, "begin");
    GetAppend(rest, ns, "end");
    GetAppend(rest, ns, QualifiedBeginKey);
    GetAppend(rest, ns, QualifiedEndKey);
  }

  /** The namespaced timing keys are neither the plain keys nor the doubled-brace ones. */
  lemma NamespacedKeysDiffer()
    ensures TtmlNs + "begin" != "begin" && TtmlNs + "begin" != "end"
    ensures TtmlNs + "end" != "begin" && TtmlNs + "end" != "end"
    ensures TtmlNs + "begin" != QualifiedBeginKey && TtmlNs + "begin" != QualifiedEndKey
    ensures TtmlNs + "end" != QualifiedBeginKey && TtmlNs + "end" != QualifiedEndKey
  {
    assert (TtmlNs + "begin")[0] == '{' && (TtmlNs + "end")[0] == '{';
    assert |QualifiedBeginKey| != |TtmlNs + "begin"| && |QualifiedEndKey| != |TtmlNs + "end"|;
    assert QualifiedBeginKey[1] != (TtmlNs + "end")[1] && QualifiedEndKey[1] != (TtmlNs + "begin")[1];
  }

  /** The end of each segment, in order. */
  function Ends(segments: seq<Segment>): seq<Option<real>> {
    seq(|segments|, i requires 0 <= i < |segments| => EndClock(segments[i]))
  }

  /** The running maximum of optional values, folded from the left. */
  function Latest(xs: seq<Option<real>>): Option<real> {
    if xs == [] then None else Later(Latest(xs[..|xs| - 1]), xs[|xs| - 1])
  }

  lemma {:induction false} DurationIsLatest(segments: seq<Segment>)
    ensures Duration(segments) == Latest(Ends(segments))
  {
    if segments != [] {
      var n := |segments| - 1;
      DurationIsLatest(segments[..n]);
      assert Ends(segments)[..n] == Ends(segments[..n]);
    }
  }

  /** The fold is missing exactly when every value is; otherwise it is one of them and none is larger. */
  lemma {:induction false} LatestIsMax(xs: seq<Option<real>>)
    ensures Latest(xs).None? <==> forall i :: 0 <= i < |xs| ==> xs[i].None?
    ensures Latest(xs).Some? ==> exists i :: 0 <= i < |xs| && xs[i] == Latest(xs)
    ensures forall i :: 0 <= i < |xs| && xs[i].Some? ==> xs[i].value <= Latest(xs).value
  {
    if xs != [] {
      var n := |xs| - 1;
      LatestIsMax(xs[..n]);
      assert forall i :: 0 <= i < n ==> xs[..n][i] == xs[i];
      if Latest(xs) == Latest(xs[..n]) && Latest(xs).Some? {
        var i :| 0 <= i < n && xs[..n][i] == Latest(xs[..n]);
        assert xs[i] == Latest(xs);
      }
    }
  }

  /**
   * The duration is missing exactly when no segment has a parseable end;
   * otherwise it is one of the segments' ends and no end is later.
   */
  lemma DurationIsLatestEnd(segments: seq<Segment>)
    ensures Duration(segments).None? <==> forall i :: 0 <= i < |segments| ==> EndClock(segments[i]).None?
    ensures Duration(segments).Some? ==> exists i :: 0 <= i < |segments| && EndClock(segments[i]) == Duration(segments)
    ensures forall i :: 0 <= i < |segments| && EndClock(segments[i]).Some? ==>
      EndClock(segments[i]).value <= Duration(segments).value
  {
    DurationIsLatest(segments);
    var es := Ends(segments);
    assert |es| == |segments| && forall i :: 0 <= i < |segments| ==> es[i] == EndClock(segments[i]);
    LatestIsMax(es);
  }
}
