/**
 * podpulp/metadata.py without the SQLite database: the transcript
 * identifier a TTML file is stored under, and filling in a transcript's
 * podcast name, episode title and publication date, where the row the
 * database would give is an argument.
 */
module Metadata {
  import opened Wrappers
  import opened Text
  import opened Numerals
  import opened Paths
  import opened Models

  /** The transcript file extension. */
  const Ext := ".ttml"

  predicate EndsWith(s: string, suffix: string) {
    |suffix| <= |s| && s[|s| - |suffix|..] == suffix
  }

  /** The length of the run of ASCII digits that ends `s`. */
  function TrailingDigits(s: string): (n: nat)
    ensures n <= |s|
    ensures forall i :: |s| - n <= i < |s| ==> IsDigit(s[i])
    ensures n < |s| ==> !IsDigit(s[|s| - n - 1])
  {
    if s != [] && IsDigit(s[|s| - 1]) then TrailingDigits(s[..|s| - 1]) + 1 else 0
  }

  /**
   * The length of a trailing `-<digits>.ttml` (at least one digit), or 0
   * when `s` does not end that way. The digits are the whole digit run
   * before the final ".ttml", so there is never more than one candidate.
   */
  function CopySuffix(s: string): (n: nat)
    ensures n == 0 || (7 <= n <= |s| && s[|s| - n] == '-' && EndsWith(s, Ext))
  {
    if EndsWith(s, Ext) then
      var body := s[..|s| - |Ext|];
      var d := TrailingDigits(body);
      if 0 < d < |body| && body[|body| - d - 1] == '-' then d + 6 else 0
    else 0
  }

  /**
   * `(.+\.ttml)-\d+\.ttml` matches with `$` at the very end of `s`: a copy
   * suffix, after ".ttml", after at least one character that is not a line
   * feed (`.` matches anything else, and the match may start anywhere).
   */
  predicate MatchesAtEnd(s: string) {
    var n := CopySuffix(s);
    n > 0 && var p := s[..|s| - n]; |p| > |Ext| && EndsWith(p, Ext) && p[|p| - |Ext| - 1] != '\n'
  }

  /**
   * `re.sub(r"(.+\.ttml)-\d+\.ttml$", r"\1", s)`: the whole match is
   * replaced by its group, which drops the copy suffix. `$` also matches
   * just before a final line feed, which is then kept.
   */
  function DropCopySuffix(s: string): (r: string)
    ensures |r| <= |s|
    ensures r == s || r == s[..|r|] || r == s[..|r| - 1] + "\n"
  {
    if s != [] && s[|s| - 1] == '\n' then
      var core := s[..|s| - 1];
      if MatchesAtEnd(core) then core[..|core| - CopySuffix(core)] + "\n" else s
    else if MatchesAtEnd(s) then s[..|s| - CopySuffix(s)]
    else s
  }

  /**
   * `get_transcript_identifier`: the path relative to the TTML cache folder
   * `base` when the file lies under it, else only the file name; either way
   * with a copy suffix dropped.
   */
  function TranscriptIdentifier(file: Path, base: Path): string {
    match RelativeTo(file, base)
    case Some(relative) => DropCopySuffix(relative.Str())
    case None => DropCopySuffix(file.Name())
  }

  // ---------------------------------------------------------------------------
  // The copy suffix

  lemma {:induction false} TrailingDigitsAfter(a: string, d: string)
    requires AllDigits(d)
    requires a != [] && !IsDigit(a[|a| - 1])
    ensures TrailingDigits(a + d) == |d|
  {
    if d == [] {
      assert a + d == a;
    } else {
      var init := d[..|d| - 1];
      assert (a + d)[..|a + d| - 1] == a + init;
      TrailingDigitsAfter(a, init);
    }
  }

  /** The copy suffix `-<digits>.ttml` after any `p` is found in full. */
  lemma CopySuffixAfter(p: string, d: string)
    requires d != [] && AllDigits(d)
    ensures CopySuffix(p + "-" + d + Ext) == |d| + 6
    ensures (p + "-" + d + Ext)[..|p|] == p
  {
    var lead := p + "-";
    var body := lead + d;
    var s := body + Ext;
    assert s[..|s| - |Ext|] == body;
    assert TrailingDigits(body) == |d| by {
      assert lead[|lead| - 1] == '-';
      TrailingDigitsAfter(lead, d);
    }
    assert body[|body| - |d| - 1] == '-';
  }

  /** After `p.ttml`, with a character other than a line feed before ".ttml", the pattern matches and keeps `p.ttml`. */
  lemma CopyMatches(p: string, d: string)
    requires |p| > |Ext| && EndsWith(p, Ext) && p[|p| - |Ext| - 1] != '\n'
    requires d != [] && AllDigits(d)
    ensures MatchesAtEnd(p + "-" + d + Ext)
    ensures DropCopySuffix(p + "-" + d + Ext) == p
  {
    CopySuffixAfter(p, d);
    var s := p + "-" + d + Ext;
    assert s[..|s| - CopySuffix(s)] == p;
    assert s[|s| - 1] == Ext[|Ext| - 1];
  }

  /** `x.ttml-<digits>.ttml` becomes `x.ttml` when `x` does not end in a line feed. */
  lemma CopyDropped(x: string, d: string)
    requires x != [] && x[|x| - 1] != '\n'
    requires d != [] && AllDigits(d)
    ensures DropCopySuffix(x + ".ttml-" + d + ".ttml") == x + ".ttml"
  {
    var p := x + Ext;
    assert x + ".ttml-" + d + ".ttml" == p + "-" + d + Ext;
    assert p[|p| - |Ext| - 1] == x[|x| - 1];
    CopyMatches(p, d);
  }

  /** Before a final line feed the copy suffix is dropped and the line feed kept. */
  lemma CopyDroppedBeforeLineFeed(x: string, d: string)
    requires x != [] && x[|x| - 1] != '\n'
    requires d != [] && AllDigits(d)
    ensures DropCopySuffix(x + ".ttml-" + d + ".ttml\n") == x + ".ttml\n"
  {
    var p := x + Ext;
    var core := p + "-" + d + Ext;
    assert x + ".ttml-" + d + ".ttml\n" == core + "\n";
    assert p[|p| - |Ext| - 1] == x[|x| - 1];
    CopyMatches(p, d);
    LineFeedKept(core);
  }

  /** `$` before a final line feed: a matching name followed by one line feed keeps the line feed. */
  lemma LineFeedKept(core: string)
    requires MatchesAtEnd(core)
    ensures DropCopySuffix(core + "\n") == DropCopySuffix(core) + "\n"
  {
    var cut := core[..|core| - CopySuffix(core)];
    assert DropCopySuffix(core) == cut by {
      ExtLastChar(core);
    }
    var s := core + "\n";
    assert s[..|s| - 1] == core;
    assert s[|s| - 1] == '\n';
    assert DropCopySuffix(s) == cut + "\n";
  }

  /** A name ending in ".ttml" does not end in a line feed. */
  lemma ExtLastChar(s: string)
    requires EndsWith(s, Ext)
    ensures s != [] && s[|s| - 1] != '\n'
  {
    assert s[|s| - 1] == s[|s| - |Ext|..][|Ext| - 1];
  }

  /** Only one copy suffix goes: the substitution is a single pass anchored at the end. */
  lemma OneCopyPerPass(x: string, d: string, e: string)
    requires x != [] && x[|x| - 1] != '\n'
    requires d != [] && AllDigits(d) && e != [] && AllDigits(e)
    ensures DropCopySuffix(x + ".ttml-" + d + ".ttml-" + e + ".ttml") == x + ".ttml-" + d + ".ttml"
  {
    var y := x + ".ttml-" + d;
    assert y[|y| - 1] == d[|d| - 1];
    CopyDropped(y, e);
  }

  /** `.+` needs a character before ".ttml": a bare `.ttml-<digits>.ttml` is left alone. */
  lemma BareCopyKept(d: string)
    requires d != [] && AllDigits(d)
    ensures DropCopySuffix(".ttml-" + d + ".ttml") == ".ttml-" + d + ".ttml"
  {
    var s := Ext + "-" + d + Ext;
    assert ".ttml-" + d + ".ttml" == s;
    CopySuffixAfter(Ext, d);
    assert s[|s| - 1] == Ext[|Ext| - 1];
  }

  /** A name that does not end in ".ttml", before an optional line feed, is unchanged. */
  lemma OtherNamesKept(s: string)
    requires !EndsWith(s, Ext) && !EndsWith(s, Ext + "\n")
    ensures DropCopySuffix(s) == s
  {
    if s != [] && s[|s| - 1] == '\n' {
      EndsWithLineFeed(s, Ext);
    }
  }

  lemma EndsWithLineFeed(s: string, suffix: string)
    requires s != [] && s[|s| - 1] == '\n'
    ensures EndsWith(s[..|s| - 1], suffix) <==> EndsWith(s, suffix + "\n")
  {
    var core := s[..|s| - 1];
    if |suffix| <= |core| {
      assert s[|s| - |suffix| - 1..] == core[|core| - |suffix|..] + "\n";
    }
  }

  // ---------------------------------------------------------------------------
  // The identifier

  /** A file under the cache folder is identified by its relative path. */
  lemma IdentifierUnderBase(file: Path, base: Path, rest: seq<string>)
    requires rest != [] && file == Path(base.anchor, base.names + rest)
    ensures TranscriptIdentifier(file, base) == DropCopySuffix(Join("/", rest))
  {
    assert file.names[|base.names|..] == rest;
    var relative := Path("", rest);
    assert RelativeTo(file, base) == Some(relative);
    assert relative.Str() == Join("/", rest) by {
      assert "" + Join("/", rest) == Join("/", rest);
    }
  }

  /** A file outside the cache folder is identified by its name. */
  lemma IdentifierOutsideBase(file: Path, base: Path)
    requires file.anchor != base.anchor || !(base.names <= file.names)
    ensures TranscriptIdentifier(file, base) == DropCopySuffix(file.Name())
  {
  }

  /**
   * A copied transcript file `dirs/x.ttml-<digits>.ttml` under the cache
   * folder is identified as `dirs/x.ttml`, the identifier of the original.
   */
  lemma CopyIdentifiedAsOriginal(file: Path, base: Path, dirs: seq<string>, x: string, d: string)
    requires x != [] && x[|x| - 1] != '\n'
    requires d != [] && AllDigits(d)
    requires file == Path(base.anchor, base.names + dirs + [x + ".ttml-" + d + ".ttml"])
    ensures TranscriptIdentifier(file, base) == Join("/", dirs + [x + ".ttml"])
  {
    var rest := dirs + [x + ".ttml-" + d + ".ttml"];
    assert file.names == base.names + rest;
    IdentifierUnderBase(file, base, rest);
    JoinedCopyDropped(dirs, x, d);
  }

  /** Dropping the copy suffix of the last name of a joined path. */
  lemma JoinedCopyDropped(dirs: seq<string>, x: string, d: string)
    requires x != [] && x[|x| - 1] != '\n'
    requires d != [] && AllDigits(d)
    ensures DropCopySuffix(Join("/", dirs + [x + ".ttml-" + d + ".ttml"])) == Join("/", dirs + [x + ".ttml"])
  {
    var copy := x + ".ttml-" + d + ".ttml";
    var original := x + ".ttml";
    if dirs == [] {
      assert dirs + [copy] == [copy];
      assert dirs + [original] == [original];
      CopyDropped(x, d);
    } else {
      var u := Join("/", dirs) + "/";
      assert Join("/", dirs + [copy]) == u + copy by {
        JoinAppend("/", dirs, [copy]);
      }
      assert Join("/", dirs + [original]) == u + original by {
        JoinAppend("/", dirs, [original]);
      }
      var y := u + x;
      assert u + copy == y + ".ttml-" + d + ".ttml" by {
        AppendAssoc(u, x + ".ttml-" + d, ".ttml");
        AppendAssoc(u, x + ".ttml-", d);
        AppendAssoc(u, x, ".ttml-");
      }
      AppendAssoc(u, x, ".ttml");
      assert y[|y| - 1] == x[|x| - 1];
      CopyDropped(y, d);
    }
  }

  // ---------------------------------------------------------------------------
  // enrich_transcript_metadata

  /** The podcast name, episode title and publication date of a transcript. */
  datatype Details = Details(podcastName: Option<string>, episodeTitle: Option<string>, publishDate: Option<DateTime>)

  /**
   * The details `enrich_transcript_metadata` leaves on a transcript read
   * from `filePath`, given the caller's values and the database row
   * `stored` (all None when the database has nothing). A value the caller
   * gives wins; an untitled transcript is titled by its file stem.
   */
  function Enriched(filePath: Path, podcastName: Option<string>, episodeTitle: Option<string>,
                    publishDate: Option<DateTime>, stored: Details): (r: Details)
    ensures Truthy(podcastName) ==> r.podcastName == podcastName
    ensures !Truthy(podcastName) ==> r.podcastName == stored.podcastName
    ensures publishDate.Some? ==> r.publishDate == publishDate
    ensures publishDate.None? ==> r.publishDate == stored.publishDate
    ensures Truthy(episodeTitle) ==> r.episodeTitle == episodeTitle
    ensures !Truthy(episodeTitle) && Truthy(stored.episodeTitle) ==> r.episodeTitle == stored.episodeTitle
    ensures !Truthy(episodeTitle) && !Truthy(stored.episodeTitle) ==> r.episodeTitle == Some(filePath.Stem())
  {
    var given := Truthy(podcastName) && Truthy(episodeTitle) && publishDate.Some?;
    var name := if given then podcastName else Or(podcastName, stored.podcastName);
    var title := if given then episodeTitle else Or(episodeTitle, stored.episodeTitle);
    var date := if given then publishDate else publishDate.OrElse(stored.publishDate);
    Details(name, if Truthy(title) then title else Some(filePath.Stem()), date)
  }

  /**
   * `enrich_transcript_metadata` with the database row as an argument: it
   * is consulted exactly when the caller does not give all three values.
   */
  method EnrichTranscriptMetadata(t: Transcript, podcastName: Option<string>, episodeTitle: Option<string>,
                                  publishDate: Option<DateTime>, stored: Details)
    returns (lookedUp: bool)
    modifies t
    ensures lookedUp <==> !(Truthy(podcastName) && Truthy(episodeTitle) && publishDate.Some?)
    ensures Details(t.podcastName, t.episodeTitle, t.publishDate) ==
      Enriched(t.filePath, podcastName, episodeTitle, publishDate, stored)
  {
    if !(Truthy(podcastName) && Truthy(episodeTitle) && publishDate.Some?) {
      lookedUp := true;
      t.podcastName := Or(podcastName, stored.podcastName);
      t.episodeTitle := Or(episodeTitle, stored.episodeTitle);
      t.publishDate := publishDate.OrElse(stored.publishDate);
    } else {
      lookedUp := false;
      t.podcastName := podcastName;
      t.episodeTitle := episodeTitle;
      t.publishDate := publishDate;
    }
    if !Truthy(t.episodeTitle) {
      t.episodeTitle := Some(t.filePath.Stem());
    }
  }

  /** A file name's stem is never empty. */
  lemma StemNotEmpty(name: string)
    requires IsName(name)
    ensures StemOf(name) != ""
  {
  }

  /** After enrichment a transcript read from a named file always has a non-empty title. */
  lemma EnrichedHasTitle(filePath: Path, podcastName: Option<string>, episodeTitle: Option<string>,
                         publishDate: Option<DateTime>, stored: Details)
    requires filePath.Valid() && filePath.names != []
    ensures Truthy(Enriched(filePath, podcastName, episodeTitle, publishDate, stored).episodeTitle)
  {
    StemNotEmpty(filePath.Name());
  }

  /** Enriching again with the same row and the details found changes nothing. */
  lemma EnrichIdempotent(filePath: Path, podcastName: Option<string>, episodeTitle: Option<string>,
                         publishDate: Option<DateTime>, stored: Details)
    ensures var r := Enriched(filePath, podcastName, episodeTitle, publishDate, stored);
      Enriched(filePath, r.podcastName, r.episodeTitle, r.publishDate, stored) == r
  {
  }
}
