/**
 * The Python string builtins the transcript code leans on, as Dafny functions
 * over `seq<char>`: `str.isspace`, `strip`/`lstrip`/`rstrip`, argument-less
 * `split()`, `split(sep)`, `sep.join(...)`, `re.sub(r"\s+", " ", s)`,
 * `lower()` and the substring test `q in s`.
 */
module Text {

  /** `c.isspace()`: the characters Python's `strip()`, `split()` and the
      regular-expression class `\s` treat as whitespace. */
  predicate IsSpace(c: char) {
    Occurs(c, Whitespace)
  }

  /** `c in s`, spelled out one character at a time. */
  predicate Occurs(c: char, s: string) {
    s != [] && (s[0] == c || Occurs(c, s[1..]))
  }

  /** Every character for which Python's `str.isspace()` holds. */
  const Whitespace: string :=
    "\t\n\U{B}\U{C}\r\U{1C}\U{1D}\U{1E}\U{1F} \U{85}\U{A0}\U{1680}"
    + "\U{2000}\U{2001}\U{2002}\U{2003}\U{2004}\U{2005}\U{2006}\U{2007}\U{2008}\U{2009}\U{200A}"
    + "\U{2028}\U{2029}\U{202F}\U{205F}\U{3000}"

  /** `Occurs` is sequence membership. */
  lemma {:induction false} OccursIsIn(c: char, s: string)
    ensures Occurs(c, s) <==> c in s
  {
    if s != [] {
      OccursIsIn(c, s[1..]);
      assert s == [s[0]] + s[1..];
    }
  }

  lemma SpaceIsSpace()
    ensures IsSpace(' ')
  {
    OccursIsIn(' ', Whitespace);
    assert Whitespace[9] == ' ';
  }

  predicate NoSpace(s: string) {
    forall i :: 0 <= i < |s| ==> !IsSpace(s[i])
  }

  predicate AllSpace(s: string) {
    forall i :: 0 <= i < |s| ==> IsSpace(s[i])
  }

  /** A token of `split()`: non-empty, without whitespace. */
  predicate IsWord(w: string) {
    w != [] && NoSpace(w)
  }

  /** Single spaces between tokens, none at either end: the shape `" ".join(s.split())` has. */
  predicate Normalized(s: string) {
    && (s != [] ==> !IsSpace(s[0]) && !IsSpace(s[|s| - 1]))
    && (forall i :: 0 <= i < |s| ==> IsSpace(s[i]) ==> s[i] == ' ')
    && (forall i :: 0 <= i < |s| - 1 ==> !(IsSpace(s[i]) && IsSpace(s[i + 1])))
  }

  /** `s.lstrip()` */
  function LStrip(s: string): (r: string)
    ensures |r| <= |s|
    ensures s != [] && IsSpace(s[0]) ==> |r| < |s|
    ensures r != [] ==> !IsSpace(r[0])
  {
    if s != [] && IsSpace(s[0]) then LStrip(s[1..]) else s
  }

  /** `s.rstrip()` */
  function RStrip(s: string): (r: string)
    ensures |r| <= |s|
    ensures r != [] ==> !IsSpace(r[|r| - 1])
  {
    if s != [] && IsSpace(s[|s| - 1]) then RStrip(s[..|s| - 1]) else s
  }

  /** `s.strip()` */
  function Strip(s: string): (r: string)
    ensures r != [] ==> !IsSpace(r[0]) && !IsSpace(r[|r| - 1])
  {
    var l := LStrip(s);
    RStripHead(l);
    RStrip(l)
  }

  /** The leading run of non-whitespace characters of `s`. */
  function TakeWord(s: string): (w: string)
    ensures |w| <= |s| && w == s[..|w|] && NoSpace(w)
    ensures |w| < |s| ==> IsSpace(s[|w|])
  {
    if s == [] || IsSpace(s[0]) then [] else [s[0]] + TakeWord(s[1..])
  }

  /** `s.split()`: the maximal runs of non-whitespace characters, in order. */
  function Words(s: string): (ws: seq<string>)
    decreases |s|
  {
    var t := LStrip(s);
    if t == [] then []
    else
      var w := TakeWord(t);
      [w] + Words(t[|w|..])
  }

  /** `re.sub(r"\s+", " ", s)`: each maximal run of whitespace becomes one space. */
  function CollapseSpaces(s: string): string
    decreases |s|
  {
    if s == [] then []
    else if IsSpace(s[0]) then [' '] + CollapseSpaces(LStrip(s))
    else [s[0]] + CollapseSpaces(s[1..])
  }

  /** `sep.join(parts)` */
  function Join(sep: string, parts: seq<string>): string {
    if parts == [] then []
    else if |parts| == 1 then parts[0]
    else parts[0] + sep + Join(sep, parts[1..])
  }

  /** The tokens of each string, concatenated in order. */
  function FlatWords(parts: seq<string>): seq<string> {
    if parts == [] then [] else Words(parts[0]) + FlatWords(parts[1..])
  }

  /** `s.split(c)` for a one-character separator: never empty, and no part holds `c`. */
  function Split(s: string, c: char): (parts: seq<string>)
    ensures |parts| >= 1
    ensures forall i :: 0 <= i < |parts| ==> c !in parts[i]
  {
    if s == [] then [[]]
    else
      var rest := Split(s[1..], c);
      if s[0] == c then [[]] + rest else [[s[0]] + rest[0]] + rest[1..]
  }

  /** `c.lower()` on the ASCII letters. */
  function LowerChar(c: char): char {
    if 'A' <= c <= 'Z' then (c as int + 32) as char else c
  }

  /** `s.lower()` */
  function Lower(s: string): string {
    if s == [] then [] else [LowerChar(s[0])] + Lower(s[1..])
  }

  /** `q` occurs in `s` starting at position `i`. */
  predicate OccursAt(s: string, q: string, i: int) {
    0 <= i <= |s| - |q| && s[i..i + |q|] == q
  }

  /** `q in s` */
  function Contains(s: string, q: string): bool
    decreases |s|
  {
    q <= s || (s != [] && Contains(s[1..], q))
  }

  // ---------------------------------------------------------------------------
  // split(sep) and join(sep) are inverse

  /** Joining the parts of `s.split(c)` with `c` gives `s` back. */
  lemma {:induction false} JoinSplit(s: string, c: char)
    ensures Join([c], Split(s, c)) == s
  {
    if s != [] {
      var rest := Split(s[1..], c);
      JoinSplit(s[1..], c);
      if s[0] == c {
        assert Split(s, c) == [[]] + rest;
        assert Join([c], [[]] + rest) == [] + [c] + Join([c], rest);
      } else if |rest| == 1 {
        assert Split(s, c) == [[s[0]] + rest[0]];
      } else {
        var parts := Split(s, c);
        assert parts == [[s[0]] + rest[0]] + rest[1..];
        assert parts[1..] == rest[1..];
        assert Join([c], rest) == rest[0] + [c] + Join([c], rest[1..]);
        assert s == [s[0]] + s[1..];
      }
    }
  }

  /** A string without the separator splits into itself alone. */
  lemma {:induction false} SplitNoSeparator(s: string, c: char)
    requires c !in s
    ensures Split(s, c) == [s]
  {
    if s != [] {
      SplitNoSeparator(s[1..], c);
      assert [s[0]] + s[1..] == s;
    }
  }

  /** The first separator ends the first part. */
  lemma {:induction false} SplitAtFirst(a: string, c: char, b: string)
    requires c !in a
    ensures Split(a + [c] + b, c) == [a] + Split(b, c)
  {
    if a == [] {
      assert (a + [c] + b)[1..] == b;
    } else {
      assert (a + [c] + b)[1..] == a[1..] + [c] + b;
      SplitAtFirst(a[1..], c, b);
      assert [a[0]] + a[1..] == a;
    }
  }

  /** Splitting a join whose parts hold no separator gives the parts back. */
  lemma {:induction false} SplitJoin(parts: seq<string>, c: char)
    requires |parts| >= 1
    requires forall i :: 0 <= i < |parts| ==> c !in parts[i]
    ensures Split(Join([c], parts), c) == parts
  {
    if |parts| == 1 {
      SplitNoSeparator(parts[0], c);
    } else {
      SplitJoin(parts[1..], c);
      SplitAtFirst(parts[0], c, Join([c], parts[1..]));
      assert parts == [parts[0]] + parts[1..];
    }
  }

  /** Joining two non-empty lists puts one separator between their joins. */
  lemma {:induction false} JoinAppend(sep: string, a: seq<string>, b: seq<string>)
    requires a != [] && b != []
    ensures Join(sep, a + b) == Join(sep, a) + sep + Join(sep, b)
  {
    assert (a + b)[0] == a[0];
    if |a| == 1 {
      assert (a + b)[1..] == b;
    } else {
      assert (a + b)[1..] == a[1..] + b;
      JoinAppend(sep, a[1..], b);
    }
  }

  // ---------------------------------------------------------------------------
  // Whitespace stripping

  /** lstrip removes a whitespace prefix and keeps the rest. */
  lemma {:induction false} LStripParts(s: string)
    ensures LStrip(s) == s[|s| - |LStrip(s)|..]
    ensures AllSpace(s[..|s| - |LStrip(s)|])
  {
    if s != [] && IsSpace(s[0]) {
      LStripParts(s[1..]);
      assert s[1..][|s| - 1 - |LStrip(s)|..] == s[|s| - |LStrip(s)|..];
      assert forall i :: 0 < i < |s| - |LStrip(s)| ==> s[i] == s[1..][..|s| - 1 - |LStrip(s)|][i - 1];
    }
  }

  /** rstrip keeps the first character of what it does not remove entirely. */
  lemma {:induction false} RStripHead(s: string)
    ensures RStrip(s) != [] ==> RStrip(s)[0] == s[0]
  {
    if s != [] && IsSpace(s[|s| - 1]) {
      RStripHead(s[..|s| - 1]);
    }
  }

  /** rstrip removes a whitespace suffix and keeps the rest. */
  lemma {:induction false} RStripParts(s: string)
    ensures RStrip(s) == s[..|RStrip(s)|]
    ensures AllSpace(s[|RStrip(s)|..])
  {
    if s != [] && IsSpace(s[|s| - 1]) {
      var p := s[..|s| - 1];
      RStripParts(p);
      assert p[..|RStrip(s)|] == s[..|RStrip(s)|];
      assert forall i :: |RStrip(s)| <= i < |s| - 1 ==> s[i] == p[|RStrip(s)|..][i - |RStrip(s)|];
    }
  }

  lemma LStripNoLead(s: string)
    requires s == [] || !IsSpace(s[0])
    ensures LStrip(s) == s
  {
  }

  lemma RStripNoTrail(s: string)
    requires s == [] || !IsSpace(s[|s| - 1])
    ensures RStrip(s) == s
  {
  }

  lemma {:induction false} LStripAllSpace(s: string)
    requires AllSpace(s)
    ensures LStrip(s) == []
  {
    if s != [] {
      LStripAllSpace(s[1..]);
    }
  }

  /** lstrip of a concatenation: the second part is reached only when the first is all whitespace. */
  lemma {:induction false} LStripAppend(a: string, x: string)
    ensures LStrip(a + x) == if LStrip(a) == [] then LStrip(x) else LStrip(a) + x
  {
    if a == [] {
      assert a + x == x;
    } else {
      if IsSpace(a[0]) {
        assert (a + x)[1..] == a[1..] + x;
        LStripAppend(a[1..], x);
      } else {
        assert (a + x)[0] == a[0];
      }
    }
  }

  /** A string already stripped is left alone by strip. */
  lemma StripClean(s: string)
    requires s == [] || (!IsSpace(s[0]) && !IsSpace(s[|s| - 1]))
    ensures Strip(s) == s
  {
    LStripNoLead(s);
    RStripNoTrail(s);
  }

  // ---------------------------------------------------------------------------
  // split() over concatenations

  lemma {:induction false} TakeWordNonEmpty(s: string)
    requires s != [] && !IsSpace(s[0])
    ensures |TakeWord(s)| >= 1
  {
  }

  /** A whitespace character ends the first token. */
  lemma {:induction false} TakeWordBeforeSpace(t: string, c: char, b: string)
    requires IsSpace(c)
    ensures TakeWord(t + ([c] + b)) == TakeWord(t)
  {
    var x := [c] + b;
    if t == [] {
      assert t + x == x;
    } else if IsSpace(t[0]) {
      assert (t + x)[0] == t[0];
    } else {
      assert (t + x)[0] == t[0];
      assert (t + x)[1..] == t[1..] + x;
      TakeWordBeforeSpace(t[1..], c, b);
    }
  }

  /** split() sees only what is left after lstrip. */
  lemma WordsSameLStrip(x: string, y: string)
    requires LStrip(x) == LStrip(y)
    ensures Words(x) == Words(y)
  {
  }

  /** Whitespace separates the tokens of its two sides. */
  lemma {:induction false} WordsSpaceSplit(a: string, c: char, b: string)
    requires IsSpace(c)
    ensures Words(a + ([c] + b)) == Words(a) + Words(b)
    decreases |a|
  {
    var x := [c] + b;
    var t := LStrip(a);
    LStripAppend(a, x);
    if t == [] {
      WordsAfterBlank(a, c, b);
    } else {
      var w := TakeWord(t);
      TakeWordNonEmpty(t);
      TakeWordBeforeSpace(t, c, b);
      var rest := t[|w|..];
      WordsSpaceSplit(rest, c, b);
      WordsAfterWord(a, x, t, w, rest, b);
    }
  }

  /** The inductive step of `WordsSpaceSplit`: the first token is the same on both sides. */
  lemma WordsAfterWord(a: string, x: string, t: string, w: string, rest: string, b: string)
    requires LStrip(a) == t && t != [] && w == TakeWord(t) && rest == t[|w|..]
    requires LStrip(a + x) == t + x && TakeWord(t + x) == w
    requires Words(rest + x) == Words(rest) + Words(b)
    ensures Words(a + x) == Words(a) + Words(b)
  {
    assert Words(a) == [w] + Words(rest) by {
      WordsFirst(a, t);
    }
    assert Words(a + x) == [w] + Words(rest + x) by {
      DropAppend(t, x, |w|);
      WordsFirst(a + x, t + x);
    }
    ConsAppend(w, Words(rest), Words(b));
  }

  lemma AppendAssoc<T>(x: seq<T>, y: seq<T>, z: seq<T>)
    ensures (x + y) + z == x + (y + z)
  {
  }

  lemma ConsAppend<T>(x: T, p: seq<T>, q: seq<T>)
    ensures [x] + (p + q) == ([x] + p) + q
  {
  }

  /** Whitespace after a blank string leaves only the tokens that follow. */
  lemma WordsAfterBlank(a: string, c: char, b: string)
    requires IsSpace(c) && LStrip(a) == []
    ensures Words(a + ([c] + b)) == Words(b)
  {
    var x := [c] + b;
    LStripAppend(a, x);
    assert x[0] == c && x[1..] == b;
    assert LStrip(x) == LStrip(b);
    WordsSameLStrip(a + x, b);
  }

  lemma DropAppend(t: string, x: string, k: nat)
    requires k <= |t|
    ensures (t + x)[k..] == t[k..] + x
  {
  }

  /** The first token of `s` is the leading word of what lstrip leaves. */
  lemma WordsFirst(s: string, t: string)
    requires LStrip(s) == t && t != []
    ensures Words(s) == [TakeWord(t)] + Words(t[|TakeWord(t)|..])
  {
  }

  lemma AllSpaceNoWords(s: string)
    requires AllSpace(s)
    ensures Words(s) == []
  {
    LStripAllSpace(s);
  }

  /** Trailing whitespace adds no token. */
  lemma WordsRStrip(s: string)
    ensures Words(RStrip(s)) == Words(s)
  {
    var r := RStrip(s);
    RStripParts(s);
    var z := s[|r|..];
    assert s == r + z;
    if z != [] {
      assert z == [z[0]] + z[1..];
      WordsSpaceSplit(r, z[0], z[1..]);
      AllSpaceNoWords(z[1..]);
    }
  }

  /** strip() keeps every token. */
  lemma WordsStrip(s: string)
    ensures Words(Strip(s)) == Words(s)
  {
    WordsRStrip(LStrip(s));
    WordsSameLStrip(LStrip(s), s);
  }

  /** Every token of `split()` is non-empty and free of whitespace. */
  lemma {:induction false} WordsAreWords(s: string)
    ensures forall i :: 0 <= i < |Words(s)| ==> IsWord(Words(s)[i])
    decreases |s|
  {
    var t := LStrip(s);
    if t != [] {
      var w := TakeWord(t);
      TakeWordNonEmpty(t);
      WordsAreWords(t[|w|..]);
      assert Words(s) == [w] + Words(t[|w|..]);
    }
  }

  lemma {:induction false} TakeWordOfWord(w: string)
    requires NoSpace(w)
    ensures TakeWord(w) == w
  {
    if w != [] {
      TakeWordOfWord(w[1..]);
    }
  }

  /** A single token splits into itself. */
  lemma WordsOfWord(w: string)
    requires IsWord(w)
    ensures Words(w) == [w]
  {
    LStripNoLead(w);
    TakeWordOfWord(w);
    assert w[|w|..] == [];
    assert Words(w) == [w] + Words(w[|w|..]);
  }

  /** The tokens of a space-joined list are the tokens of its items, in order. */
  lemma {:induction false} WordsOfJoin(parts: seq<string>)
    ensures Words(Join(" ", parts)) == FlatWords(parts)
  {
    if |parts| == 1 {
      assert parts[1..] == [];
      assert FlatWords(parts) == Words(parts[0]) + FlatWords([]);
    } else if |parts| > 1 {
      WordsOfJoin(parts[1..]);
      var rest := Join(" ", parts[1..]);
      assert Join(" ", parts) == parts[0] + ([' '] + rest);
      SpaceIsSpace();
      WordsSpaceSplit(parts[0], ' ', rest);
    }
  }

  lemma {:induction false} FlatWordsOfWords(ws: seq<string>)
    requires forall i :: 0 <= i < |ws| ==> IsWord(ws[i])
    ensures FlatWords(ws) == ws
  {
    if ws != [] {
      WordsOfWord(ws[0]);
      FlatWordsOfWords(ws[1..]);
    }
  }

  lemma {:induction false} FlatWordsAppend(a: seq<string>, b: seq<string>)
    ensures FlatWords(a + b) == FlatWords(a) + FlatWords(b)
  {
    if a == [] {
      assert a + b == b;
    } else {
      assert (a + b)[0] == a[0];
      assert (a + b)[1..] == a[1..] + b;
      FlatWordsAppend(a[1..], b);
    }
  }

  /** Joining tokens with single spaces gives a normalised string, empty exactly when there are no tokens. */
  lemma {:induction false} JoinWordsNormalized(ws: seq<string>)
    requires forall i :: 0 <= i < |ws| ==> IsWord(ws[i])
    ensures Join(" ", ws) == [] <==> ws == []
    ensures Normalized(Join(" ", ws))
  {
    if |ws| == 1 {
      assert IsWord(ws[0]);
    } else if |ws| > 1 {
      var w := ws[0];
      assert IsWord(w);
      var rest := Join(" ", ws[1..]);
      JoinWordsNormalized(ws[1..]);
      var j := w + " " + rest;
      assert Join(" ", ws) == j;
      assert j[|w|] == ' ';
      forall i | 0 <= i < |j|
        ensures IsSpace(j[i]) ==> j[i] == ' '
      {
        if i < |w| {
          assert j[i] == w[i];
        } else if i > |w| {
          assert j[i] == rest[i - |w| - 1];
        }
      }
      forall i | 0 <= i < |j| - 1
        ensures !(IsSpace(j[i]) && IsSpace(j[i + 1]))
      {
        if i < |w| {
          assert j[i] == w[i];
        } else if i == |w| {
          assert j[i + 1] == rest[0];
        } else {
          assert j[i] == rest[i - |w| - 1] && j[i + 1] == rest[i - |w|];
        }
      }
    }
  }

  /** The tokens of a string rebuilt from tokens are those tokens. */
  lemma JoinWordsRoundTrip(ws: seq<string>)
    requires forall i :: 0 <= i < |ws| ==> IsWord(ws[i])
    ensures Words(Join(" ", ws)) == ws
  {
    WordsOfJoin(ws);
    FlatWordsOfWords(ws);
  }

  // ---------------------------------------------------------------------------
  // re.sub(r"\s+", " ", s).strip() is " ".join(s.split())

  /** A leading token is copied unchanged. */
  lemma {:induction false} CollapseWord(s: string)
    requires s != [] && !IsSpace(s[0])
    ensures CollapseSpaces(s) == TakeWord(s) + CollapseSpaces(s[|TakeWord(s)|..])
  {
    if |s| > 1 && !IsSpace(s[1]) {
      CollapseWord(s[1..]);
      assert s[1..][|TakeWord(s[1..])|..] == s[|TakeWord(s)|..];
    }
  }

  /** The single space `CollapseSpaces` leaves after the last token when the input ends in whitespace. */
  function TrailingBlank(s: string): string {
    if s != [] && Words(s) != [] && IsSpace(s[|s| - 1]) then " " else ""
  }

  /** Without leading whitespace, the collapsed string is the joined tokens plus at most one trailing space. */
  lemma {:induction false} CollapseNoLead(s: string)
    requires s == [] || !IsSpace(s[0])
    ensures CollapseSpaces(s) == Join(" ", Words(s)) + TrailingBlank(s)
    decreases |s|
  {
    if s != [] {
      var w := TakeWord(s);
      var r := s[|w|..];
      TakeWordNonEmpty(s);
      CollapseWord(s);
      LStripNoLead(s);
      if r == [] {
        CollapseOneWord(s, w);
      } else {
        var u := LStrip(r);
        CollapseNoLead(u);
        CollapseAfterWord(s, w, r, u);
      }
    }
  }

  lemma CollapseOneWord(s: string, w: string)
    requires s != [] && !IsSpace(s[0])
    requires w == TakeWord(s) && |w| == |s|
    ensures CollapseSpaces(s) == Join(" ", Words(s)) + TrailingBlank(s)
  {
    assert w == s;
    assert Words(s) == [s] by {
      TakeWordNonEmpty(s);
      WordsOfWord(s);
    }
    assert CollapseSpaces(s) == s by {
      CollapseWord(s);
      assert s[|w|..] == [];
    }
    assert TrailingBlank(s) == "" by {
      assert !IsSpace(w[|w| - 1]);
    }
  }

  lemma CollapseAfterWord(s: string, w: string, r: string, u: string)
    requires s != [] && !IsSpace(s[0])
    requires w == TakeWord(s) && |w| < |s| && r == s[|w|..] && u == LStrip(r)
    requires CollapseSpaces(u) == Join(" ", Words(u)) + TrailingBlank(u)
    ensures CollapseSpaces(s) == Join(" ", Words(s)) + TrailingBlank(s)
  {
    SplitAfterWord(s, w, r, u);
    LStripParts(r);
    var k := |r| - |u|;
    if u == [] {
      assert r[..k] == r;
      TrailingBlankOfSpace(s, r);
      CollapseLastWord(s, w, u);
    } else {
      assert u == s[|s| - |u|..];
      TrailingBlankOfSuffix(s, u);
      CollapseMoreWords(s, w, u);
    }
  }

  /** Past the first token, split() and the collapse both continue after the whitespace run. */
  lemma SplitAfterWord(s: string, w: string, r: string, u: string)
    requires s != [] && !IsSpace(s[0])
    requires w == TakeWord(s) && |w| < |s| && r == s[|w|..] && u == LStrip(r)
    ensures Words(s) == [w] + Words(u)
    ensures CollapseSpaces(s) == w + ([' '] + CollapseSpaces(u))
  {
    TakeWordNonEmpty(s);
    LStripNoLead(s);
    WordsSameLStrip(r, u);
    CollapseWord(s);
    assert IsSpace(r[0]);
  }

  /** A string with tokens that ends in a whitespace run collapses to a trailing blank. */
  lemma TrailingBlankOfSpace(s: string, r: string)
    requires Words(s) != [] && r != [] && |r| <= |s| && r == s[|s| - |r|..] && AllSpace(r)
    ensures TrailingBlank(s) == " "
  {
    assert s[|s| - 1] == r[|r| - 1];
  }

  /** A suffix that starts a token ends where `s` ends, with the same trailing blank. */
  lemma TrailingBlankOfSuffix(s: string, u: string)
    requires Words(s) != [] && u != [] && |u| <= |s| && u == s[|s| - |u|..] && !IsSpace(u[0])
    ensures Words(u) != [] && TrailingBlank(s) == TrailingBlank(u)
  {
    LStripNoLead(u);
    assert s[|s| - 1] == u[|u| - 1];
  }

  lemma CollapseLastWord(s: string, w: string, u: string)
    requires u == [] && Words(s) == [w] + Words(u) && TrailingBlank(s) == " "
    requires CollapseSpaces(s) == w + ([' '] + CollapseSpaces(u))
    ensures CollapseSpaces(s) == Join(" ", Words(s)) + TrailingBlank(s)
  {
    assert Words(s) == [w];
  }

  lemma CollapseMoreWords(s: string, w: string, u: string)
    requires Words(u) != [] && Words(s) == [w] + Words(u) && TrailingBlank(s) == TrailingBlank(u)
    requires CollapseSpaces(s) == w + ([' '] + CollapseSpaces(u))
    requires CollapseSpaces(u) == Join(" ", Words(u)) + TrailingBlank(u)
    ensures CollapseSpaces(s) == Join(" ", Words(s)) + TrailingBlank(s)
  {
    JoinCons(" ", w, Words(u));
    SpaceBetween(w, Join(" ", Words(u)), TrailingBlank(u));
  }

  lemma JoinCons(sep: string, w: string, ws: seq<string>)
    requires ws != []
    ensures Join(sep, [w] + ws) == w + sep + Join(sep, ws)
  {
    assert ([w] + ws)[1..] == ws;
  }

  lemma SpaceBetween(w: string, j: string, b: string)
    ensures w + ([' '] + (j + b)) == w + " " + j + b
  {
  }

  /** rstrip ignores trailing whitespace. */
  lemma {:induction false} RStripTrailing(j: string, tail: string)
    requires AllSpace(tail)
    ensures RStrip(j + tail) == RStrip(j)
    decreases |tail|
  {
    if tail == [] {
      assert j + tail == j;
    } else {
      var shorter := tail[..|tail| - 1];
      assert (j + tail)[..|j + tail| - 1] == j + shorter;
      RStripTrailing(j, shorter);
    }
  }

  /** strip removes whitespace padding around an already stripped string. */
  lemma StripPadded(lead: string, j: string, tail: string)
    requires AllSpace(lead) && AllSpace(tail)
    requires j == [] || (!IsSpace(j[0]) && !IsSpace(j[|j| - 1]))
    ensures Strip(lead + (j + tail)) == j
  {
    LStripAllSpace(lead);
    LStripAppend(lead, j + tail);
    RStripTrailing(j, tail);
    if j == [] {
      assert j + tail == tail;
      LStripAllSpace(tail);
    } else {
      LStripNoLead(j + tail);
      RStripNoTrail(j);
    }
  }

  /** `re.sub(r"\s+", " ", s).strip()` equals `" ".join(s.split())`. */
  lemma NormalizeIsJoinedWords(s: string)
    ensures Strip(CollapseSpaces(s)) == Join(" ", Words(s))
  {
    var u := LStrip(s);
    WordsSameLStrip(s, u);
    var ws := Words(u);
    var j := Join(" ", ws);
    WordsAreWords(u);
    JoinWordsNormalized(ws);
    assert j != [] ==> !IsSpace(j[0]) && !IsSpace(j[|j| - 1]);
    var tail := TrailingBlank(u);
    CollapseNoLead(u);
    assert CollapseSpaces(u) == j + tail;
    SpaceIsSpace();
    if s != [] && IsSpace(s[0]) {
      assert CollapseSpaces(s) == [' '] + CollapseSpaces(u);
      StripPadded([' '], j, tail);
    } else {
      LStripNoLead(s);
      StripPadded([], j, tail);
      assert [] + (j + tail) == j + tail;
    }
  }

  /** The whitespace normalisation's result is normalised and keeps every token. */
  lemma NormalizeShape(s: string)
    ensures Normalized(Strip(CollapseSpaces(s)))
    ensures Words(Strip(CollapseSpaces(s))) == Words(s)
    ensures Strip(CollapseSpaces(s)) == [] <==> Words(s) == []
  {
    NormalizeIsJoinedWords(s);
    WordsAreWords(s);
    JoinWordsNormalized(Words(s));
    JoinWordsRoundTrip(Words(s));
  }

  // ---------------------------------------------------------------------------
  // Substring test and lower-casing

  /** `q in s` holds exactly when `q` occurs at some position of `s`. */
  lemma ContainsIff(s: string, q: string)
    ensures Contains(s, q) <==> exists i :: OccursAt(s, q, i)
  {
    if Contains(s, q) {
      var i := ContainsAt(s, q);
    }
    forall i | OccursAt(s, q, i)
      ensures Contains(s, q)
    {
      OccursContains(s, q, i);
    }
  }

  /** Where `q in s` finds `q`. */
  lemma {:induction false} ContainsAt(s: string, q: string) returns (i: int)
    requires Contains(s, q)
    ensures OccursAt(s, q, i)
    decreases |s|
  {
    if q <= s {
      i := 0;
      assert s[0..|q|] == q;
    } else {
      var j := ContainsAt(s[1..], q);
      assert s[1..][j..j + |q|] == s[j + 1..j + 1 + |q|];
      i := j + 1;
    }
  }

  /** An occurrence anywhere is found by `q in s`. */
  lemma {:induction false} OccursContains(s: string, q: string, i: int)
    requires OccursAt(s, q, i)
    ensures Contains(s, q)
    decreases i
  {
    if i == 0 {
      assert q == s[..|q|];
    } else {
      assert s[1..][i - 1..i - 1 + |q|] == s[i..i + |q|];
      OccursContains(s[1..], q, i - 1);
    }
  }

  /** Lower-casing keeps the length and maps each character. */
  lemma {:induction false} LowerAt(s: string)
    ensures |Lower(s)| == |s|
    ensures forall i :: 0 <= i < |s| ==> Lower(s)[i] == LowerChar(s[i])
  {
    if s != [] {
      LowerAt(s[1..]);
    }
  }
}
