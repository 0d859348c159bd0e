/**
 * The searching and paging logic of podpulp/main.py: case-insensitive
 * substring search over a transcript's podcast name and episode title,
 * filtering the transcript list, the page count, page navigation and the
 * range check of a numeric selection. The terminal dialogue itself is not
 * modelled.
 */
module Cli {
  import opened Wrappers
  import opened Text
  import opened Paths
  import opened Models

  /** `fuzzy_match`: an empty query matches everything, else the lower-cased query must occur in the lower-cased text. */
  function FuzzyMatch(query: string, text: string): (b: bool)
    ensures query == "" ==> b
  {
    if query == "" then true else Contains(Lower(text), Lower(query))
  }

  /** The podcast name searched: `podcast_name or ""`. */
  function SearchedPodcast(t: Transcript): string
    reads t
  {
    if Truthy(t.podcastName) then t.podcastName.value else ""
  }

  /** The title searched: `episode_title or file_path.stem`. */
  function SearchedEpisode(t: Transcript): string
    reads t
  {
    if Truthy(t.episodeTitle) then t.episodeTitle.value else t.filePath.Stem()
  }

  /** The query matches a transcript's podcast name or its title. */
  predicate Matches(t: Transcript, query: string)
    reads t
  {
    FuzzyMatch(query, SearchedPodcast(t)) || FuzzyMatch(query, SearchedEpisode(t))
  }

  /** The transcripts that match, in their order. */
  function Kept(transcripts: seq<Transcript>, query: string): seq<Transcript>
    reads transcripts
  {
    if transcripts == [] then []
    else
      var last := transcripts[|transcripts| - 1];
      Kept(transcripts[..|transcripts| - 1], query) + (if Matches(last, query) then [last] else [])
  }

  /** What `filter_transcripts` returns: the list itself for an empty query, else the matching transcripts. */
  function Filtered(transcripts: seq<Transcript>, query: string): seq<Transcript>
    reads transcripts
  {
    if query == "" then transcripts else Kept(transcripts, query)
  }

  /** `filter_transcripts`: the matching transcripts, collected in one pass. */
  method FilterTranscripts(transcripts: seq<Transcript>, query: string) returns (filtered: seq<Transcript>)
    ensures filtered == Filtered(transcripts, query)
  {
    if query == "" {
      return transcripts;
    }
    filtered := [];
    for i := 0 to |transcripts|
      invariant filtered == Kept(transcripts[..i], query)
    {
      var transcript := transcripts[i];
      var podcast := if Truthy(transcript.podcastName) then transcript.podcastName.value else "";
      var episode := if Truthy(transcript.episodeTitle) then transcript.episodeTitle.value else transcript.filePath.Stem();
      KeptStep(transcripts, query, i);
      if FuzzyMatch(query, podcast) || FuzzyMatch(query, episode) {
        filtered := filtered + [transcript];
      }
    }
    assert transcripts[..|transcripts|] == transcripts;
  }

  lemma KeptStep(transcripts: seq<Transcript>, query: string, i: nat)
    requires i < |transcripts|
    ensures Kept(transcripts[..i + 1], query) ==
      Kept(transcripts[..i], query) + (if Matches(transcripts[i], query) then [transcripts[i]] else [])
  {
    assert transcripts[..i + 1][..i] == transcripts[..i];
  }

  /** `xs` is `ys` with some elements left out, the rest in the same order. */
  predicate IsSubsequence<T(==)>(xs: seq<T>, ys: seq<T>)
    decreases |ys|
  {
    if ys == [] then xs == []
    else
      || (xs != [] && xs[|xs| - 1] == ys[|ys| - 1] && IsSubsequence(xs[..|xs| - 1], ys[..|ys| - 1]))
      || IsSubsequence(xs, ys[..|ys| - 1])
  }

  // ---------------------------------------------------------------------------
  // Matching

  /** A match is exactly an occurrence of the lower-cased query in the lower-cased text; the empty-query test only short-cuts it. */
  lemma FuzzyMatchIff(query: string, text: string)
    ensures FuzzyMatch(query, text) <==> exists i :: OccursAt(Lower(text), Lower(query), i)
  {
    if query == "" {
      assert Lower(query) == "";
      assert OccursAt(Lower(text), Lower(query), 0);
    } else {
      assert FuzzyMatch(query, text) == Contains(Lower(text), Lower(query));
      ContainsIff(Lower(text), Lower(query));
    }
  }

  lemma {:induction false} LowerTwice(s: string)
    ensures Lower(Lower(s)) == Lower(s)
  {
    if s != [] {
      LowerTwice(s[1..]);
    }
  }

  /** Matching ignores the case of ASCII letters in both the query and the text. */
  lemma MatchIgnoresCase(query: string, text: string)
    ensures FuzzyMatch(Lower(query), Lower(text)) == FuzzyMatch(query, text)
  {
    LowerTwice(query);
    LowerTwice(text);
    LowerAt(query);
  }

  // ---------------------------------------------------------------------------
  // Filtering

  /** A transcript is kept exactly when it is in the list and the query matches it. */
  lemma {:induction false} KeptIff(transcripts: seq<Transcript>, query: string, t: Transcript)
    ensures t in Kept(transcripts, query) <==> t in transcripts && Matches(t, query)
  {
    if transcripts != [] {
      var init := transcripts[..|transcripts| - 1];
      var last := transcripts[|transcripts| - 1];
      KeptIff(init, query, t);
      assert transcripts == init + [last];
    }
  }

  /** The kept transcripts keep their order. */
  lemma {:induction false} KeptIsSubsequence(transcripts: seq<Transcript>, query: string)
    ensures IsSubsequence(Kept(transcripts, query), transcripts)
  {
    if transcripts != [] {
      var init := transcripts[..|transcripts| - 1];
      var last := transcripts[|transcripts| - 1];
      KeptIsSubsequence(init, query);
      var kept := Kept(transcripts, query);
      if Matches(last, query) {
        assert kept[..|kept| - 1] == Kept(init, query);
        assert kept[|kept| - 1] == last;
      } else {
        assert kept == Kept(init, query);
      }
    }
  }

  /** With an empty query every transcript matches, so the loop would keep the whole list too. */
  lemma {:induction false} EmptyQueryKeepsAll(transcripts: seq<Transcript>)
    ensures Kept(transcripts, "") == transcripts
  {
    if transcripts != [] {
      EmptyQueryKeepsAll(transcripts[..|transcripts| - 1]);
    }
  }

  /** The empty-query shortcut agrees with filtering, so the result is always the matching transcripts in order. */
  lemma FilteredIsKept(transcripts: seq<Transcript>, query: string)
    ensures Filtered(transcripts, query) == Kept(transcripts, query)
    ensures IsSubsequence(Filtered(transcripts, query), transcripts)
    ensures forall t :: t in Filtered(transcripts, query) <==> t in transcripts && Matches(t, query)
  {
    if query == "" {
      EmptyQueryKeepsAll(transcripts);
    }
    KeptIsSubsequence(transcripts, query);
    forall t
      ensures t in Filtered(transcripts, query) <==> t in transcripts && Matches(t, query)
    {
      KeptIff(transcripts, query, t);
    }
  }

  // ---------------------------------------------------------------------------
  // Pages and selection

  /** Transcripts listed per page. */
  const PerPage := 20

  /** `(count + per_page - 1) // per_page`: the fewest pages of `perPage` items that hold `count` items. */
  function TotalPages(count: nat, perPage: nat): (pages: nat)
    requires perPage > 0
    ensures count <= pages * perPage
    ensures count > 0 ==> (pages - 1) * perPage < count
    ensures pages == 0 <==> count == 0
  {
    var n := count + perPage - 1;
    var pages := n / perPage;
    assert n == pages * perPage + n % perPage;
    assert (pages - 1) * perPage == pages * perPage - perPage;
    pages
  }

  /** The 1-based page that lists the item at 0-based position `index`. */
  function PageOf(index: nat, perPage: nat): (page: nat)
    requires perPage > 0
    ensures (page - 1) * perPage <= index < page * perPage
  {
    var q := index / perPage;
    assert index == q * perPage + index % perPage;
    assert (q + 1) * perPage == q * perPage + perPage;
    q + 1
  }

  /** Every listed item is on one of the pages counted. */
  lemma EveryItemOnAPage(index: nat, count: nat, perPage: nat)
    requires perPage > 0 && index < count
    ensures 1 <= PageOf(index, perPage) <= TotalPages(count, perPage)
  {
    var page := PageOf(index, perPage);
    var pages := TotalPages(count, perPage);
    MulCancel(page - 1, pages, perPage);
  }

  lemma MulCancel(a: int, b: int, p: int)
    requires p > 0 && a * p < b * p
    ensures a < b
  {
    assert (b - a) * p == b * p - a * p;
  }

  /** "n"/"next": one page on, unless already on the last page. */
  function NextPage(current: nat, total: nat): (r: nat)
    ensures 1 <= current <= total ==> 1 <= r <= total
    ensures r == current + 1 <==> current < total
    ensures r != current + 1 ==> r == current
  {
    if current < total then current + 1 else current
  }

  /** "p"/"prev": one page back, unless already on the first page. */
  function PrevPage(current: nat): (r: nat)
    ensures 1 <= current ==> 1 <= r <= current
    ensures r + 1 == current <==> current > 1
    ensures r + 1 != current ==> r == current
  {
    if current > 1 then current - 1 else current
  }

  /** Paging on and back returns to the same page. */
  lemma PrevAfterNext(current: nat, total: nat)
    requires 1 <= current < total
    ensures PrevPage(NextPage(current, total)) == current
  {
  }

  /** Paging back and on returns to the same page. */
  lemma NextAfterPrev(current: nat, total: nat)
    requires 1 < current <= total
    ensures NextPage(PrevPage(current), total) == current
  {
  }

  /**
   * A typed number picks from the whole filtered list, whatever the page:
   * the 0-based position of an accepted number, None when it is out of range.
   */
  function Selection(selection: int, count: nat): (r: Option<nat>)
    ensures r.Some? <==> 1 <= selection <= count
    ensures r.Some? ==> r.value < count && r.value + 1 == selection
  {
    if 1 <= selection <= count then Some(selection - 1) else None
  }

  /** Every item can be picked by exactly one number. */
  lemma SelectionOneToOne(a: int, b: int, count: nat, index: nat)
    requires index < count
    ensures Selection(index + 1, count) == Some(index)
    ensures Selection(a, count).Some? && Selection(a, count) == Selection(b, count) ==> a == b
  {
  }
}
