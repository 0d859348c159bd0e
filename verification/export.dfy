/**
 * podpulp/export.py without the clipboard and the file system: cleaning a
 * string into a file name, the default export file name, and which text an
 * export writes.
 */
module Export {
  import opened Wrappers
  import opened Text
  import opened Paths
  import opened Models

  /** The characters `sanitize_filename` replaces: `<>:"/\|?*`. */
  predicate IsForbidden(c: char) {
    c == '<' || c == '>' || c == ':' || c == '"' || c == '/' || c == '\\' || c == '|' || c == '?' || c == '*'
  }

  /** The characters stripped from both ends: "." and " ". */
  predicate IsDotSpace(c: char) {
    c == '.' || c == ' '
  }

  predicate NoForbidden(s: string) {
    forall i :: 0 <= i < |s| ==> !IsForbidden(s[i])
  }

  /** The longest name `sanitize_filename` returns. */
  const MaxNameLength := 200

  /** `re.sub(r'[<>:"/\\|?*]', "_", s)` */
  function ReplaceForbidden(s: string): string {
    if s == [] then []
    else
      var c := s[|s| - 1];
      ReplaceForbidden(s[..|s| - 1]) + [if IsForbidden(c) then '_' else c]
  }

  /** `s.lstrip(". ")`: drops the leading dots and spaces. */
  function LStripDotSpace(s: string): (r: string)
    ensures |r| <= |s| && r == s[|s| - |r|..]
    ensures r != [] ==> !IsDotSpace(r[0])
  {
    if s != [] && IsDotSpace(s[0]) then LStripDotSpace(s[1..]) else s
  }

  /** `s.rstrip(". ")`: drops the trailing dots and spaces. */
  function RStripDotSpace(s: string): (r: string)
    ensures |r| <= |s| && r == s[..|r|]
    ensures r != [] ==> !IsDotSpace(r[|r| - 1])
  {
    if s != [] && IsDotSpace(s[|s| - 1]) then RStripDotSpace(s[..|s| - 1]) else s
  }

  /** How many leading characters `s.lstrip(". ")` drops. */
  function Lead(s: string): nat {
    |s| - |LStripDotSpace(s)|
  }

  /** `s.strip(". ")`: a middle piece of `s` that neither starts nor ends with a dot or a space. */
  function StripDotSpace(s: string): (r: string)
    ensures r != [] ==> !IsDotSpace(r[0]) && !IsDotSpace(r[|r| - 1])
    ensures Lead(s) + |r| <= |s| && r == s[Lead(s)..Lead(s) + |r|]
  {
    var l := LStripDotSpace(s);
    var r := RStripDotSpace(l);
    SliceOfSuffix(s, |s| - |l|, |r|);
    r
  }

  lemma SliceOfSuffix(s: string, k: nat, m: nat)
    requires k + m <= |s|
    ensures s[k..][..m] == s[k..k + m]
  {
  }

  /** `sanitize_filename`: forbidden characters become "_", dots and spaces are stripped, then the length is capped. */
  function Sanitize(filename: string): (r: string)
    ensures |r| <= MaxNameLength
  {
    var replaced := ReplaceForbidden(filename);
    var stripped := StripDotSpace(replaced);
    if |stripped| > MaxNameLength then stripped[..MaxNameLength] else stripped
  }

  // ---------------------------------------------------------------------------

  /** Each character is kept, or replaced by exactly one "_" when it is forbidden. */
  lemma {:induction false} ReplaceOneForOne(s: string)
    ensures |ReplaceForbidden(s)| == |s|
    ensures forall i :: 0 <= i < |s| ==> ReplaceForbidden(s)[i] == if IsForbidden(s[i]) then '_' else s[i]
  {
    if s != [] {
      var init := s[..|s| - 1];
      ReplaceOneForOne(init);
      assert forall i :: 0 <= i < |init| ==> init[i] == s[i];
    }
  }

  lemma NoForbiddenSlice(s: string, a: nat, b: nat)
    requires NoForbidden(s) && a <= b <= |s|
    ensures NoForbidden(s[a..b])
  {
    assert forall i :: 0 <= i < b - a ==> s[a..b][i] == s[a + i];
  }

  /** A sanitized name holds none of `<>:"/\|?*`. */
  lemma SanitizedIsClean(filename: string)
    ensures NoForbidden(Sanitize(filename))
  {
    var replaced := ReplaceForbidden(filename);
    assert NoForbidden(replaced) by {
      ReplaceOneForOne(filename);
    }
    var stripped := StripDotSpace(replaced);
    assert NoForbidden(stripped) by {
      NoForbiddenSlice(replaced, Lead(replaced), Lead(replaced) + |stripped|);
    }
    if |stripped| > MaxNameLength {
      NoForbiddenSlice(stripped, 0, MaxNameLength);
    }
  }

  /** A name with nothing to replace, strip or cut comes back unchanged. */
  lemma CleanNameUnchanged(filename: string)
    requires NoForbidden(filename)
    requires filename != [] ==> !IsDotSpace(filename[0]) && !IsDotSpace(filename[|filename| - 1])
    requires |filename| <= MaxNameLength
    ensures Sanitize(filename) == filename
  {
    ReplaceOneForOne(filename);
    assert ReplaceForbidden(filename) == filename;
  }

  /**
   * Stripping comes before the cut: a name of 199 clean characters followed
   * by ".b" keeps its first 200 characters, and so ends in ".".
   */
  lemma CutAfterStrip(x: string)
    requires |x| == MaxNameLength - 1 && NoForbidden(x) && !IsDotSpace(x[0])
    ensures Sanitize(x + ".b") == x + "."
  {
    var s := x + ".b";
    assert ReplaceForbidden(s) == s by {
      assert forall i :: 0 <= i < |x| ==> s[i] == x[i];
      ReplaceOneForOne(s);
    }
    assert LStripDotSpace(s) == s by {
      assert s[0] == x[0];
    }
    assert RStripDotSpace(s) == s by {
      assert s[|s| - 1] == 'b';
    }
    assert s[..MaxNameLength] == x + ".";
  }

  // ---------------------------------------------------------------------------
  // save_to_file without the write

  /**
   * The default file name: the cleaned podcast name (or "Unknown_Podcast"),
   * "_", the cleaned title (or the file stem), ".txt". It is a single path
   * name, so the file lands directly in the Desktop folder.
   */
  function DefaultFilename(t: Transcript): (r: string)
    reads t
    ensures |r| >= 5 && r[|r| - 4..] == ".txt"
    ensures IsName(r)
  {
    var podcastName := if Truthy(t.podcastName) then t.podcastName.value else "Unknown_Podcast";
    var episodeTitle := if Truthy(t.episodeTitle) then t.episodeTitle.value else t.filePath.Stem();
    var a := Sanitize(podcastName);
    var b := Sanitize(episodeTitle);
    SanitizedIsClean(podcastName);
    SanitizedIsClean(episodeTitle);
    var r := a + "_" + b + ".txt";
    NoForbiddenJoin(a, b);
    r
  }

  /** Cleaned parts joined by "_" and followed by ".txt" hold no separator. */
  lemma NoForbiddenJoin(a: string, b: string)
    requires NoForbidden(a) && NoForbidden(b)
    ensures '/' !in a + "_" + b + ".txt"
  {
    var r := a + "_" + b + ".txt";
    forall i | 0 <= i < |r|
      ensures r[i] != '/'
    {
      if i < |a| {
        assert r[i] == a[i];
      } else if i == |a| {
        assert r[i] == '_';
      } else if i < |a| + 1 + |b| {
        assert r[i] == b[i - |a| - 1];
      } else {
        assert r[i] == ".txt"[i - |a| - 1 - |b|];
      }
    }
  }

  /** The folder under the home directory that default exports go to. */
  const DesktopName := "Desktop"

  lemma DesktopIsName()
    ensures IsName(DesktopName)
  {
    assert DesktopName == ['D'] + "esktop";
  }

  /**
   * `save_to_file` up to the write: the given path or
   * `home/Desktop/<default name>`, and the text with timestamps exactly
   * when they are asked for, else the plain full text.
   */
  method SaveToFile(t: Transcript, filePath: Option<Path>, includeTimestamps: bool, home: Path)
    returns (target: Path, content: string)
    ensures filePath.Some? ==> target == filePath.value
    ensures filePath.None? ==> target == home.Child(DesktopName).Child(DefaultFilename(t))
    ensures includeTimestamps ==> content == Join("\n", Lines(t.segments))
    ensures !includeTimestamps ==> content == t.FullText()
  {
    if filePath.None? {
      var filename := DefaultFilename(t);
      DesktopIsName();
      var desktop := home.Child(DesktopName);
      target := desktop.Child(filename);
    } else {
      target := filePath.value;
    }
    content := ExportContent(t, includeTimestamps);
  }

  /** The text `save_to_file` writes: with timestamps exactly when they are asked for. */
  method ExportContent(t: Transcript, includeTimestamps: bool) returns (content: string)
    ensures includeTimestamps ==> content == Join("\n", Lines(t.segments))
    ensures !includeTimestamps ==> content == t.FullText()
  {
    if includeTimestamps {
      content := t.TextWithTimestamps();
    } else {
      content := t.FullText();
    }
  }
}
