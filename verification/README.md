# podpulp transcript core in Dafny

podpulp reads the TTML transcripts that Apple Podcasts caches. This project models the part of it that turns those transcripts into text and metadata, and proves properties of that model:

- **parser.py**: reading clock values, collecting the text of a `<p>` element, building the segment list and the duration from the element tree, and grouping segments into paragraphs by time gap.
- **models.py**: the `Segment` and `Transcript` records and their derived views: full text, text with `[h:m:s]` labels, word count and the duration label.
- **export.py**: cleaning a string into a file name, the default export path and which text an export writes.
- **metadata.py**: the transcript identifier a cached file is stored under, including the rule that drops a `-<digits>.ttml` copy suffix. Also filling in podcast name, title and date, where the database row is an argument.
- **main.py**: case-insensitive search, filtering the transcript list, the page count, paging and the range check of a numeric selection.

The code is modelled in the form it has in Python:

- Loops that build a list or string are methods with `while` or `for` loops. Each loop is proved equal to a specification function:
  - `collect_text` and `extract_text_from_element`
  - `group_segments_into_paragraphs`
  - the segment loops of `parse_ttml`
  - `text_with_timestamps`
  - `filter_transcripts`
- The lemmas about those functions carry the properties.
- `Transcript` is a class because `enrich_transcript_metadata` assigns its metadata fields in place.
- Pure helpers are functions.

Some library behaviour is modelled as well:

- Python's string builtins (`strip`, `split`, `join`, `lower`, `in`, `re.sub(r"\s+", " ", ·)`) are in `Text`.
- The pathlib operations used (`name`, `stem`, `str`, `relative_to`, `/`) are in `Paths`.
- The ElementTree calls used (`find(".//tag")`, `findall(tag)`, `get`) are in `ElementTree`, over an element datatype with text, tail, ordered attributes and children.
- `float()` on decimal notation is in `Timestamp`.

Modules: `Wrappers`, `Text`, `Numerals`, `Paths`, `ElementTree`, `Timestamp`, `Models`, `Grouping`, `Parser`, `Export`, `Metadata`, `Cli`.

Three behaviours of the code are modelled as written:

- **Qualified `begin`/`end` keys.** The fallback key `f"{{{TTML_NS}}}begin"` expands to `{{http://www.w3.org/ns/ttml}}begin`, because `TTML_NS` already holds its braces. The namespaced `begin`/`end` attributes are therefore never read (`Parser.NamespacedTimingIgnored`).
- **Global selection numbers.** A typed number selects from the whole filtered list, not from the current page. The page bounds computed at podpulp/main.py:190-191 are never used.
- **One copy suffix per call.** The copy-suffix rule is a single `re.sub` anchored at the end, so `a.ttml-1.ttml-2.ttml` becomes `a.ttml-1.ttml`.

## Model

| member | source | states |
|---|---|---|
| Timestamp.ClockHoursMinutesSeconds | podpulp/parser.py:28-33 | a stripped `H:M:S` value is `3600*H + 60*M + S`, and fails exactly when one of its components is not a number |
| Timestamp.ClockMinutesSeconds | podpulp/parser.py:34-36 | `M:S` is `60*M + S`, and fails exactly when a component fails |
| Timestamp.ClockSeconds | podpulp/parser.py:37-38 | a value without a colon is read whole by `float()` |
| Timestamp.ClockTooManyParts | podpulp/parser.py:28-38 | four or more colon-separated parts always fail, because the colon is not part of a number |
| Timestamp.ClockOutOfRange | podpulp/parser.py:31-33 | components are not range-checked: `99:99:99` is accepted |
| Timestamp.ParseFloatDigits | podpulp/parser.py:38 | a run of digits reads back as its decimal value |
| Timestamp.ParseFloatDecimal | podpulp/parser.py:33 | digits, a point and digits read back as the decimal they spell |
| Timestamp.ParseFloatRejects | podpulp/parser.py:38 | a character that cannot occur in decimal notation makes `float()` fail |
| Timestamp.HoursMinutesSeconds | podpulp/parser.py:33 | the sum is defined exactly when all three components parsed |
| Timestamp.MinutesSeconds | podpulp/parser.py:36 | the sum is defined exactly when both components parsed |
| Parser.CollectText | podpulp/parser.py:52-64 | appends, in document order, the stripped non-blank text, each child's text, then the stripped non-blank tail |
| Parser.ExtractText | podpulp/parser.py:43-70 | the result is the tokens of the element's whole subtree joined by single spaces |
| Parser.FragmentWords | podpulp/parser.py:52-64 | the tokens of the collected pieces are the tokens of the subtree's text and tails, in order |
| Parser.FragmentsTrimmed | podpulp/parser.py:55-62 | every collected piece is non-empty and has no whitespace at either end |
| Parser.ExtractedTextShape | podpulp/parser.py:66-70 | the extracted text is normalised, keeps every token of the subtree, and is empty exactly when the subtree has no text |
| Text.NormalizeIsJoinedWords | podpulp/parser.py:69-70 | `re.sub(r"\s+", " ", s).strip()` equals `" ".join(s.split())` |
| Text.NormalizeShape | podpulp/parser.py:69-70 | the normalised text has single inner spaces, no outer whitespace and the same tokens |
| Parser.SegmentPlace | podpulp/parser.py:87-116 | segment i lies, in its place, in the paragraph numbered by the count of breaks among segments 1 to i, and opens it exactly when it is the first segment or both clocks parse and its gap exceeds the threshold |
| Grouping.RunsPlace | podpulp/parser.py:87-116 | text i lies, in its place, in the run numbered by the flags set after the first text up to it, and starts that run exactly when it is the first text or its flag is set |
| Parser.GapExceeded | podpulp/parser.py:95-112 | the per-segment gap test agrees with the paragraph-break specification, failed parses included |
| Parser.GroupSegmentsIntoParagraphs | podpulp/parser.py:73-118 | the paragraphs are the space-joined runs of the specification grouping, and there are none exactly when there are no segments; the default threshold of 2 seconds is `Parser.DefaultGapThreshold` |
| Parser.GroupsKeepTexts | podpulp/parser.py:87-116 | concatenating the groups gives back every segment text in order |
| Parser.ParagraphCount | podpulp/parser.py:102-105 | the number of paragraphs is one plus the number of gaps over the threshold |
| Parser.ParagraphsKeepText | podpulp/parser.py:104-116 | the paragraphs joined by spaces are the segment texts joined by spaces |
| Parser.NoBreakOneParagraph | podpulp/parser.py:96-112 | without a gap over the threshold all segments form one paragraph |
| Grouping.RunsFlatten | podpulp/parser.py:87-116 | the runs partition the texts without losing or reordering any |
| Grouping.RunsCount | podpulp/parser.py:102-105 | one run per opening plus the first |
| Grouping.JoinFlatten | podpulp/parser.py:104-116 | joining joined runs equals joining the flattened texts |
| Grouping.RunsAdvance | podpulp/parser.py:102-112 | one loop step either closes the current run and starts a new one or extends the current run |
| Parser.FindBody | podpulp/parser.py:146-149 | there is no body exactly when neither the namespaced nor the plain `.//body` search finds one |
| ElementTree.FindIsFirstDescendant | podpulp/parser.py:146-149 | `find(".//tag")` is the first proper descendant with the tag in document order |
| Parser.TaggedEitherWay | podpulp/parser.py:152-153 | the elements visited are exactly the children tagged with the namespaced or the plain name |
| Parser.QualifiedFirst | podpulp/parser.py:152-153 | all namespaced children are visited before all plain children |
| Parser.SpeakerAttr | podpulp/parser.py:159-164 | the speaker is the value of the first attribute whose key holds "agent" or "speaker" in any ASCII case, and there is none exactly when no key does |
| Parser.FirstSpeaker | podpulp/parser.py:161-164 | the attribute loop with its early exit finds that first match |
| Parser.SpeakerIsFirstMatch | podpulp/parser.py:159-168 | a non-empty first match is the segment's speaker |
| Parser.AgentKeyIsSpeakerKey | podpulp/parser.py:162-168 | the `ttm:agent` key is itself caught by the key scan |
| Parser.NoSpeakerKeyNoSpeaker | podpulp/parser.py:159-168 | without a matching key there is no speaker |
| Parser.QualifiedTimingIgnored | podpulp/parser.py:154-155 | `begin` and `end` come from the plain attribute whenever it is non-empty |
| Parser.NamespacedTimingIgnored | podpulp/parser.py:154-155 | adding namespaced `begin`/`end` attributes to any attribute list leaves the timing as the plain attributes give it, because the fallback key has doubled braces |
| Parser.SegmentOf | podpulp/parser.py:171-180 | a paragraph gives a segment exactly when it has text, and that text is non-empty and normalised |
| Parser.SegmentsOf | podpulp/parser.py:146-180 | no body gives no segments, and every segment text is non-empty and normalised |
| Parser.SegmentsOfDivsAppend | podpulp/parser.py:152-180 | the segments of consecutive divisions are concatenated in order |
| Parser.AddParagraph | podpulp/parser.py:154-189 | one paragraph appends its segment when it has text, and keeps the duration the latest parsed end |
| Parser.TrackEnd | podpulp/parser.py:183-189 | the running maximum takes the end clock when it parses and exceeds the current value |
| Parser.BuildSegments | podpulp/parser.py:141-189 | the loops produce the specification segments and their duration |
| Parser.ParseTtml | podpulp/parser.py:121-195 | a missing file and malformed XML are errors; otherwise a new transcript with those segments and that duration, and no metadata |
| Parser.DurationIsLatestEnd | podpulp/parser.py:183-189 | the duration is absent exactly when no end clock parses, is one of the parsed end clocks, and no parsed end clock exceeds it |
| Parser.LatestIsMax | podpulp/parser.py:186-187 | the running maximum is attained and bounds every value |
| Models.Transcript.constructor | podpulp/models.py:19-28 | a new transcript has its path, segments and duration, and no metadata |
| Models.Transcript.FullText | podpulp/models.py:30-33 | the tokens of the full text are the segments' tokens in order |
| Models.Transcript.WordCount | podpulp/models.py:57-60 | the word count is the sum of the segments' token counts |
| Models.TokenCount | podpulp/models.py:57-60 | tokens of the joined texts add up per segment |
| Models.Transcript.DurationFormatted | podpulp/models.py:62-68 | "Unknown" exactly when there is no or a zero duration, else `~N min` with N the minutes rounded toward zero |
| Models.DurationExamples | podpulp/models.py:62-68 | 125.5 s gives "~2 min" and no duration gives "Unknown" |
| Models.Transcript.TextWithTimestamps | podpulp/models.py:35-55 | the text is the per-segment lines, in order, joined by newlines |
| Models.LinePerSegment | podpulp/models.py:53-55 | splitting the text at newlines gives back one line per segment |
| Models.Bracket | podpulp/models.py:41-48 | a label appears exactly when the begin value is non-empty and splits into three colon parts |
| Models.BracketOfClock | podpulp/models.py:44-48 | `h:m:s.f` is labelled `[h:m:s]` |
| Models.BracketOfWholeClock | podpulp/models.py:44-48 | `h:m:s` is labelled `[h:m:s]` |
| Models.LineShape | podpulp/models.py:52-53 | a line is `[h:m:s] speaker: text`, `speaker: text` or `text`, with the separating space dropped by strip when there is no label |
| Numerals.ShowNatValue | podpulp/models.py:67-68 | the minutes numeral reads back as the number |
| Numerals.Trunc | podpulp/models.py:67 | `int()` rounds toward zero |
| Export.ReplaceOneForOne | podpulp/export.py:58 | each character is kept, or replaced by one "_" when it is one of `<>:"/\|?*` |
| Export.StripDotSpace | podpulp/export.py:60 | the result is a middle piece of the input that neither starts nor ends with a dot or a space |
| Export.Sanitize | podpulp/export.py:47-64 | a cleaned name has at most 200 characters |
| Export.SanitizedIsClean | podpulp/export.py:57-63 | a cleaned name holds none of `<>:"/\|?*` |
| Export.CleanNameUnchanged | podpulp/export.py:57-64 | a name with nothing to replace, strip or cut is returned unchanged |
| Export.CutAfterStrip | podpulp/export.py:60-63 | the cut comes after the strip, so a cut name can end in "." |
| Export.DefaultFilename | podpulp/export.py:81-84 | the default name ends in ".txt" and is a single path name |
| Export.SaveToFile | podpulp/export.py:67-94 | the given path, or `~/Desktop/<default name>`; the text with timestamps exactly when they are asked for |
| Export.ExportContent | podpulp/export.py:91-94 | the text with timestamps when asked for, else the full text |
| Paths.StemDropsSuffix | podpulp/export.py:82 | the stem of `x.suffix` is `x` |
| Paths.RelativeToRoundTrip | podpulp/metadata.py:29-30 | the base joined with the relative path is the path |
| Metadata.CopyDropped | podpulp/metadata.py:34 | `x.ttml-<digits>.ttml` becomes `x.ttml` |
| Metadata.CopyDroppedBeforeLineFeed | podpulp/metadata.py:34 | `$` also matches before a final line feed, which is kept |
| Metadata.OneCopyPerPass | podpulp/metadata.py:34 | only the last copy suffix is dropped |
| Metadata.BareCopyKept | podpulp/metadata.py:34 | `.ttml-<digits>.ttml` with nothing in front is left alone |
| Metadata.OtherNamesKept | podpulp/metadata.py:34 | a name not ending in ".ttml" is unchanged |
| Metadata.DropCopySuffix | podpulp/metadata.py:34 | the result is the input, or a prefix of it with a final line feed kept |
| Metadata.IdentifierUnderBase | podpulp/metadata.py:29-36 | a file under the cache folder is identified by its relative path |
| Metadata.IdentifierOutsideBase | podpulp/metadata.py:37-41 | a file outside it is identified by its name |
| Metadata.CopyIdentifiedAsOriginal | podpulp/metadata.py:26-36 | a copied file `dirs/x.ttml-N.ttml` gets the identifier `dirs/x.ttml` of the original |
| Metadata.Enriched | podpulp/metadata.py:182-195 | a value the caller gives wins, otherwise the database value; a missing title falls back to the file stem |
| Metadata.EnrichTranscriptMetadata | podpulp/metadata.py:172-195 | the database row is consulted exactly when not all three values are given, and the transcript ends with the enriched details |
| Metadata.EnrichedHasTitle | podpulp/metadata.py:194-195 | a transcript read from a named file always ends up with a non-empty title |
| Metadata.EnrichIdempotent | podpulp/metadata.py:182-195 | enriching again with the same row changes nothing |
| Cli.FuzzyMatch | podpulp/main.py:27-30 | an empty query matches everything |
| Cli.FuzzyMatchIff | podpulp/main.py:27-33 | a match is exactly an occurrence of the lower-cased query in the lower-cased text |
| Text.ContainsIff | podpulp/main.py:33 | `q in s` holds exactly when `q` occurs at some position of `s` |
| Cli.MatchIgnoresCase | podpulp/main.py:31-33 | matching ignores ASCII case in the query and the text |
| Cli.FilterTranscripts | podpulp/main.py:36-48 | the loop returns the specification's filtered list |
| Cli.KeptIff | podpulp/main.py:42-46 | a transcript is kept exactly when it is listed and the query matches its podcast name (or "") or its title (or the file stem) |
| Cli.KeptIsSubsequence | podpulp/main.py:41-48 | the kept transcripts keep their order |
| Cli.EmptyQueryKeepsAll | podpulp/main.py:38-39 | with an empty query the loop would keep the whole list too |
| Cli.FilteredIsKept | podpulp/main.py:36-48 | the result is always the matching transcripts in input order, and the shortcut returns the list unchanged |
| Cli.TotalPages | podpulp/main.py:149 | the fewest pages of the page size that hold all items, and zero only for no items |
| Cli.PageOf | podpulp/main.py:149-150 | each item lies inside the bounds of its page |
| Cli.EveryItemOnAPage | podpulp/main.py:149-150 | every item is on one of the pages counted |
| Cli.NextPage | podpulp/main.py:167-172 | paging on stays within the pages and stops at the last one |
| Cli.PrevPage | podpulp/main.py:173-178 | paging back stays at or above page 1 |
| Cli.PrevAfterNext | podpulp/main.py:167-178 | paging on and back returns to the same page |
| Cli.NextAfterPrev | podpulp/main.py:167-178 | paging back and on returns to the same page |
| Cli.Selection | podpulp/main.py:193-195 | a number is accepted exactly when 1 <= n <= the list length, and picks position n-1 |
| Cli.SelectionOneToOne | podpulp/main.py:193-195 | every item is picked by exactly one number |

## Left out

- Reading the file and `ET.parse`. `ParseTtml` takes a flag for whether the file exists and the parsed element tree, with None for malformed XML. The exception types become a `ParseError` value.
- `get_episode_metadata` and the SQLite queries: the row it returns is a parameter of `EnrichTranscriptMetadata`. `check_sqlite_db_exists`, `scan_ttml_files` and the rest of podpulp/scanner.py are left out, as are `load_all_transcripts` (file listing, error exits, and the sort by date and file modification time), the interactive loop of `main()`, the action menu, `copy_to_clipboard`, the terminal display, and the directory creation and write in `save_to_file`. All of these are I/O or terminal UI.
- The location of the TTML cache folder under the home directory is a parameter (`base`) of `TranscriptIdentifier`, and the home directory is a parameter of `SaveToFile`.
- Floating point: clock values and durations are exact reals. IEEE rounding, infinities, NaN, exponents and the `_` digit separators `float()` accepts are not modelled; such strings are treated as not numbers.
- Character classes: `lower()` and `\d` are modelled on ASCII letters and digits, while Python applies them to all of Unicode. Whitespace for `\s`, `strip()` and `split()` is Python's full `str.isspace` set.
- `float()` also accepts non-ASCII decimal digits (Arabic-Indic digits, for example). `Timestamp.ParseFloat` rejects them, so such clock values count as not numbers.
- Attributes are an ordered list of key/value pairs. Duplicate keys, which XML forbids, are not excluded.
- `Transcript.file_path`, `segments` and `duration_seconds` are constant fields, because no modelled code reassigns them.
- The `except (ValueError, IndexError)` in `text_with_timestamps` is dead, because `split` cannot raise there. The model has no error path for it.
- Parsing the typed selection with `int()` is left out. `Selection` takes the integer.
- Models.Transcript.DurationFormatted: the minutes are the exact real quotient rounded toward zero, not the IEEE one.
