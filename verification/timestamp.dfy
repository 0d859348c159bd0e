/**
 * `parse_timestamp` (podpulp/parser.py): a TTML clock value `H:M:S[.f]`,
 * `M:S[.f]` or bare seconds, turned into an exact number of seconds.
 * Python's `float()` on each component is modelled on decimal notation.
 */
module Timestamp {
  import opened Wrappers
  import opened Text
  import opened Numerals

  /** The leading run of decimal digits of `s`. */
  function TakeDigits(s: string): (d: string)
    ensures |d| <= |s| && d == s[..|d|] && AllDigits(d)
    ensures |d| < |s| ==> !IsDigit(s[|d|])
  {
    if s == [] || !IsDigit(s[0]) then [] else [s[0]] + TakeDigits(s[1..])
  }

  /** `whole.frac` as an exact number. */
  function DecimalValue(whole: string, frac: string): real
    requires AllDigits(whole) && AllDigits(frac)
  {
    DigitsValue(whole) as real + DigitsValue(frac) as real / Pow10(|frac|) as real
  }

  /** Digits with an optional fractional part and at least one digit in all, unsigned. */
  function ParseUnsigned(body: string): Option<real> {
    var whole := TakeDigits(body);
    var rest := body[|whole|..];
    if rest == [] then
      if whole == [] then None else Some(DigitsValue(whole) as real)
    else if rest[0] != '.' then None
    else
      var frac := rest[1..];
      if !AllDigits(frac) || (whole == [] && frac == []) then None
      else Some(DecimalValue(whole, frac))
  }

  /**
   * `float(s)` on decimal notation: surrounding whitespace, an optional sign,
   * then an unsigned decimal. None stands for the ValueError Python raises.
   */
  function ParseFloat(s: string): Option<real> {
    var t := Strip(s);
    if t != [] && (t[0] == '+' || t[0] == '-') then
      match ParseUnsigned(t[1..])
      case Some(x) => Some(if t[0] == '-' then -x else x)
      case None => None
    else
      ParseUnsigned(t)
  }

  /**
   * `parse_timestamp(s)`: after stripping, three colon-separated parts are
   * hours, minutes and seconds, two are minutes and seconds, and any other
   * count hands the whole string to `float()`. No component is range-checked.
   */
  function ParseTimestamp(s: string): Option<real> {
    var t := Strip(s);
    var parts := Split(t, ':');
    if |parts| == 3 then HoursMinutesSeconds(ParseFloat(parts[0]), ParseFloat(parts[1]), ParseFloat(parts[2]))
    else if |parts| == 2 then MinutesSeconds(ParseFloat(parts[0]), ParseFloat(parts[1]))
    else ParseFloat(t)
  }

  /** Hours, minutes and seconds in seconds; a component that failed to parse fails the whole. */
  function HoursMinutesSeconds(h: Option<real>, m: Option<real>, sec: Option<real>): (r: Option<real>)
    ensures r.Some? <==> h.Some? && m.Some? && sec.Some?
  {
    match (h, m, sec)
    case (Some(hv), Some(mv), Some(sv)) => Some(hv * 3600.0 + mv * 60.0 + sv)
    case _ => None
  }

  /** Minutes and seconds in seconds; a component that failed to parse fails the whole. */
  function MinutesSeconds(m: Option<real>, sec: Option<real>): (r: Option<real>)
    ensures r.Some? <==> m.Some? && sec.Some?
  {
    match (m, sec)
    case (Some(mv), Some(sv)) => Some(mv * 60.0 + sv)
    case _ => None
  }

  // ---------------------------------------------------------------------------
  // float() on decimal strings

  lemma DigitNotSpace(c: char)
    requires IsDigit(c)
    ensures !IsSpace(c)
  {
    OccursIsIn(c, Whitespace);
  }

  lemma DigitsNoSpace(s: string)
    requires AllDigits(s)
    ensures NoSpace(s)
  {
    forall i | 0 <= i < |s| ensures !IsSpace(s[i]) {
      DigitNotSpace(s[i]);
    }
  }

  lemma {:induction false} TakeDigitsAll(w: string)
    requires AllDigits(w)
    ensures TakeDigits(w) == w
  {
    if w != [] {
      TakeDigitsAll(w[1..]);
    }
  }

  lemma {:induction false} TakeDigitsStops(w: string, rest: string)
    requires AllDigits(w)
    requires rest != [] && !IsDigit(rest[0])
    ensures TakeDigits(w + rest) == w
  {
    if w == [] {
      assert w + rest == rest;
    } else {
      assert (w + rest)[0] == w[0];
      assert (w + rest)[1..] == w[1..] + rest;
      TakeDigitsStops(w[1..], rest);
    }
  }

  /** A run of digits reads back as its decimal value. */
  lemma ParseFloatDigits(whole: string)
    requires whole != [] && AllDigits(whole)
    ensures ParseFloat(whole) == Some(DigitsValue(whole) as real)
  {
    DigitsNoSpace(whole);
    StripClean(whole);
    TakeDigitsAll(whole);
    assert whole[|whole|..] == [];
  }

  lemma DecimalStrips(whole: string, frac: string)
    requires whole != [] && AllDigits(whole) && AllDigits(frac)
    ensures Strip(whole + ("." + frac)) == whole + ("." + frac)
  {
    var s := whole + ("." + frac);
    DigitNotSpace(whole[0]);
    assert s[0] == whole[0];
    if frac == [] {
      OccursIsIn('.', Whitespace);
      assert s[|s| - 1] == '.';
    } else {
      DigitNotSpace(frac[|frac| - 1]);
      assert s[|s| - 1] == frac[|frac| - 1];
    }
    StripClean(s);
  }

  /** Digits, a point and digits read back as the decimal value they spell. */
  lemma ParseFloatDecimal(whole: string, frac: string)
    requires whole != [] && AllDigits(whole) && AllDigits(frac)
    ensures ParseFloat(whole + "." + frac) == Some(DecimalValue(whole, frac))
  {
    var s := whole + ("." + frac);
    assert whole + "." + frac == s;
    DecimalStrips(whole, frac);
    TakeDigitsStops(whole, "." + frac);
    assert s[|whole|..] == "." + frac;
    assert ("." + frac)[1..] == frac;
  }

  /** Stripping keeps every character that is not whitespace, and adds none. */
  lemma StripKeeps(s: string, c: char)
    ensures c in Strip(s) ==> c in s
    ensures c in s && !IsSpace(c) ==> c in Strip(s)
  {
    var l := LStrip(s);
    LStripParts(s);
    assert s == s[..|s| - |l|] + l;
    RStripParts(l);
    assert l == RStrip(l) + l[|RStrip(l)|..];
  }

  lemma UnsignedRejects(body: string, c: char)
    requires c in body
    requires !IsDigit(c) && c != '.'
    ensures ParseUnsigned(body) == None
  {
    var whole := TakeDigits(body);
    var rest := body[|whole|..];
    assert body == whole + rest;
    assert c in rest;
    if rest[0] == '.' {
      assert rest == [rest[0]] + rest[1..];
      assert c in rest[1..];
    }
  }

  /** A character that cannot occur in decimal notation makes `float()` fail. */
  lemma ParseFloatRejects(s: string, c: char)
    requires c in s
    requires !IsDigit(c) && !IsSpace(c) && c != '+' && c != '-' && c != '.'
    ensures ParseFloat(s) == None
  {
    var t := Strip(s);
    StripKeeps(s, c);
    if t != [] && (t[0] == '+' || t[0] == '-') {
      assert t == [t[0]] + t[1..];
      UnsignedRejects(t[1..], c);
    } else {
      UnsignedRejects(t, c);
    }
  }

  // ---------------------------------------------------------------------------
  // The three clock forms

  /** A colon between two strings that are not padded with whitespace is not stripped. */
  lemma ColonUnpadded(a: string, b: string)
    requires a != [] ==> !IsSpace(a[0])
    requires b != [] ==> !IsSpace(b[|b| - 1])
    ensures Strip(a + [':'] + b) == a + [':'] + b
  {
    var s := a + [':'] + b;
    OccursIsIn(':', Whitespace);
    if a == [] {
      assert s[0] == ':';
    } else {
      assert s[0] == a[0];
    }
    if b == [] {
      assert s[|s| - 1] == ':';
    } else {
      assert s[|s| - 1] == b[|b| - 1];
    }
    StripClean(s);
  }

  lemma SplitClock(h: string, m: string, sec: string)
    requires ':' !in h && ':' !in m && ':' !in sec
    ensures Split(h + [':'] + (m + [':'] + sec), ':') == [h, m, sec]
  {
    SplitAtFirst(h, ':', m + [':'] + sec);
    SplitAtFirst(m, ':', sec);
    SplitNoSeparator(sec, ':');
  }

  lemma ColonLast(m: string, sec: string)
    requires sec != [] ==> !IsSpace(sec[|sec| - 1])
    ensures var b := m + [':'] + sec; b != [] && !IsSpace(b[|b| - 1])
  {
    OccursIsIn(':', Whitespace);
    var b := m + [':'] + sec;
    if sec == [] {
      assert b[|b| - 1] == ':';
    } else {
      assert b[|b| - 1] == sec[|sec| - 1];
    }
  }

  /** `H:M:S` is hours, minutes and seconds: it fails exactly when one component fails. */
  lemma ClockHoursMinutesSeconds(h: string, m: string, sec: string)
    requires ':' !in h && ':' !in m && ':' !in sec
    requires h != [] ==> !IsSpace(h[0])
    requires sec != [] ==> !IsSpace(sec[|sec| - 1])
    ensures ParseTimestamp(h + ":" + m + ":" + sec) ==
      HoursMinutesSeconds(ParseFloat(h), ParseFloat(m), ParseFloat(sec))
  {
    var b := m + [':'] + sec;
    assert h + ":" + m + ":" + sec == h + [':'] + b;
    ColonLast(m, sec);
    ColonUnpadded(h, b);
    SplitClock(h, m, sec);
  }

  /** `M:S` is minutes and seconds: it fails exactly when one component fails. */
  lemma ClockMinutesSeconds(m: string, sec: string)
    requires ':' !in m && ':' !in sec
    requires m != [] ==> !IsSpace(m[0])
    requires sec != [] ==> !IsSpace(sec[|sec| - 1])
    ensures ParseTimestamp(m + ":" + sec) == MinutesSeconds(ParseFloat(m), ParseFloat(sec))
  {
    ColonUnpadded(m, sec);
    assert m + ":" + sec == m + [':'] + sec;
    SplitAtFirst(m, ':', sec);
    SplitNoSeparator(sec, ':');
  }

  /** Without a colon the whole string is bare seconds. */
  lemma ClockSeconds(s: string)
    requires ':' !in s
    ensures ParseTimestamp(s) == ParseFloat(s)
  {
    StripKeeps(s, ':');
    SplitNoSeparator(Strip(s), ':');
    StripTwice(s);
  }

  lemma StripTwice(s: string)
    ensures Strip(Strip(s)) == Strip(s)
  {
    StripClean(Strip(s));
  }

  /** Four or more colon-separated parts always fail: the colon is not part of a number. */
  lemma ClockTooManyParts(s: string)
    requires |Split(Strip(s), ':')| > 3
    ensures ParseTimestamp(s) == None
  {
    var t := Strip(s);
    if ':' !in t {
      SplitNoSeparator(t, ':');
    }
    OccursIsIn(':', Whitespace);
    ParseFloatRejects(t, ':');
  }

  /** No component is range-checked: 99 minutes and 99 seconds are accepted as they are. */
  lemma ClockOutOfRange(s: string, nn: string)
    requires s == "99:99:99" && nn == "99"
    ensures ParseTimestamp(s) == Some(362439.0)
  {
    ParseFloatDigits(nn);
    assert DigitsValue(nn) == DigitsValue("99") == 99;
    assert s == nn + ":" + nn + ":" + nn;
    ClockHoursMinutesSeconds(nn, nn, nn);
  }
}
