/** The text escaping applied to a diary's text before it is put into a card:
    five successive global replacements of one character by a fixed string,
    in the order the source applies them. */
module Sanitize {

  type Str = seq<char>

  /** One global `replace`: every occurrence of `c` in `s`, left to right, is
      replaced by `r`; every other character is copied in order. */
  function ReplaceAll(s: Str, c: char, r: Str): Str {
    if s == [] then []
    else (if s[0] == c then r else [s[0]]) + ReplaceAll(s[1..], c, r)
  }

  /** The five escaping passes, as written: `<`, then `>` (to the non-entity
      `$gt;`), then `&`, then `'`, then `"`. */
  function Sanitize(input: Str): Str {
    var lt := ReplaceAll(input, '<', "&lt;");
    var gt := ReplaceAll(lt, '>', "$gt;");
    var amp := ReplaceAll(gt, '&', "&amp;");
    var apos := ReplaceAll(amp, '\'', "&apos;");
    ReplaceAll(apos, '"', "&quot;")
  }

  /** The characters some pass rewrites. */
  predicate IsSpecial(c: char) {
    c == '<' || c == '>' || c == '&' || c == '\'' || c == '"'
  }

  /** What each character becomes once all five passes of `Sanitize` have
      run: `<` is escaped twice because the `&` pass runs after the `<` pass,
      and `>` becomes the non-entity `$gt;`. */
  function Escape(c: char): Str {
    match c
    case '<' => "&amp;lt;"
    case '>' => "$gt;"
    case '&' => "&amp;"
    case '\'' => "&apos;"
    case '"' => "&quot;"
    case _ => [c]
  }

  /** Character-by-character escaping under a given table. */
  function EscapeEach(s: Str, esc: char -> Str): Str {
    if s == [] then [] else esc(s[0]) + EscapeEach(s[1..], esc)
  }

  // ---------------------------------------------------------------------
  // One pass

  /** A pass removes its own character when the replacement does not
      reintroduce it. */
  lemma {:induction false} ReplaceAllRemoves(s: Str, c: char, r: Str)
    requires c !in r
    ensures c !in ReplaceAll(s, c, r)
  {
    if s != [] {
      ReplaceAllRemoves(s[1..], c, r);
    }
  }

  /** A character in neither the input nor the replacement is not in the
      output. */
  lemma {:induction false} ReplaceAllKeepsOut(s: Str, c: char, r: Str, x: char)
    requires x !in s && x !in r
    ensures x !in ReplaceAll(s, c, r)
  {
    if s != [] {
      ReplaceAllKeepsOut(s[1..], c, r, x);
    }
  }

  /** A pass over text without its character changes nothing. */
  lemma {:induction false} ReplaceAllAbsent(s: Str, c: char, r: Str)
    requires c !in s
    ensures ReplaceAll(s, c, r) == s
  {
    if s != [] {
      ReplaceAllAbsent(s[1..], c, r);
      assert s == [s[0]] + s[1..];
    }
  }

  /** A pass distributes over concatenation. */
  lemma {:induction false} ReplaceAllAppend(a: Str, b: Str, c: char, r: Str)
    ensures ReplaceAll(a + b, c, r) == ReplaceAll(a, c, r) + ReplaceAll(b, c, r)
  {
    if a != [] {
      assert (a + b)[1..] == a[1..] + b;
      ReplaceAllAppend(a[1..], b, c, r);
    } else {
      assert a + b == b;
    }
  }

  /** A pass whose replacement is not empty never shortens its input. */
  lemma {:induction false} ReplaceAllNotShorter(s: Str, c: char, r: Str)
    requires |r| >= 1
    ensures |ReplaceAll(s, c, r)| >= |s|
  {
    if s != [] {
      ReplaceAllNotShorter(s[1..], c, r);
    }
  }

  lemma ReplaceAllSingle(x: char, c: char, r: Str)
    ensures ReplaceAll([x], c, r) == if x == c then r else [x]
  {
    assert [x][1..] == [];
  }

  // ---------------------------------------------------------------------
  // The five passes as written

  /** None of `<`, `>`, `'`, `"` survives the five passes. */
  lemma SanitizeRemovesMarkup(input: Str)
    ensures var out := Sanitize(input);
      '<' !in out && '>' !in out && '\'' !in out && '"' !in out
  {
    var lt := ReplaceAll(input, '<', "&lt;");
    var gt := ReplaceAll(lt, '>', "$gt;");
    var amp := ReplaceAll(gt, '&', "&amp;");
    var apos := ReplaceAll(amp, '\'', "&apos;");
    var quot := ReplaceAll(apos, '"', "&quot;");
    assert '<' !in lt by { ReplaceAllRemoves(input, '<', "&lt;"); }
    assert '<' !in gt && '>' !in gt by {
      ReplaceAllRemoves(lt, '>', "$gt;");
      ReplaceAllKeepsOut(lt, '>', "$gt;", '<');
    }
    assert '<' !in amp && '>' !in amp by {
      ReplaceAllKeepsOut(gt, '&', "&amp;", '<');
      ReplaceAllKeepsOut(gt, '&', "&amp;", '>');
    }
    assert '<' !in apos && '>' !in apos && '\'' !in apos by {
      ReplaceAllRemoves(amp, '\'', "&apos;");
      ReplaceAllKeepsOut(amp, '\'', "&apos;", '<');
      ReplaceAllKeepsOut(amp, '\'', "&apos;", '>');
    }
    assert '<' !in quot && '>' !in quot && '\'' !in quot && '"' !in quot by {
      ReplaceAllRemoves(apos, '"', "&quot;");
      ReplaceAllKeepsOut(apos, '"', "&quot;", '<');
      ReplaceAllKeepsOut(apos, '"', "&quot;", '>');
      ReplaceAllKeepsOut(apos, '"', "&quot;", '\'');
    }
  }

  /** Text without any of the five special characters passes unchanged. */
  lemma SanitizePlain(input: Str)
    requires forall x | x in input :: !IsSpecial(x)
    ensures Sanitize(input) == input
  {
    ReplaceAllAbsent(input, '<', "&lt;");
    ReplaceAllAbsent(input, '>', "$gt;");
    ReplaceAllAbsent(input, '&', "&amp;");
    ReplaceAllAbsent(input, '\'', "&apos;");
    ReplaceAllAbsent(input, '"', "&quot;");
  }

  /** Sanitized text is never shorter than the input. */
  lemma SanitizeNotShorter(input: Str)
    ensures |Sanitize(input)| >= |input|
  {
    var lt := ReplaceAll(input, '<', "&lt;");
    ReplaceAllNotShorter(input, '<', "&lt;");
    var gt := ReplaceAll(lt, '>', "$gt;");
    ReplaceAllNotShorter(lt, '>', "$gt;");
    var amp := ReplaceAll(gt, '&', "&amp;");
    ReplaceAllNotShorter(gt, '&', "&amp;");
    var apos := ReplaceAll(amp, '\'', "&apos;");
    ReplaceAllNotShorter(amp, '\'', "&apos;");
    ReplaceAllNotShorter(apos, '"', "&quot;");
  }

  /** Sanitizing distributes over concatenation. */
  lemma SanitizeAppend(a: Str, b: Str)
    ensures Sanitize(a + b) == Sanitize(a) + Sanitize(b)
  {
    var lt1, lt2 := ReplaceAll(a, '<', "&lt;"), ReplaceAll(b, '<', "&lt;");
    ReplaceAllAppend(a, b, '<', "&lt;");
    var gt1, gt2 := ReplaceAll(lt1, '>', "$gt;"), ReplaceAll(lt2, '>', "$gt;");
    ReplaceAllAppend(lt1, lt2, '>', "$gt;");
    var amp1, amp2 := ReplaceAll(gt1, '&', "&amp;"), ReplaceAll(gt2, '&', "&amp;");
    ReplaceAllAppend(gt1, gt2, '&', "&amp;");
    var apos1, apos2 := ReplaceAll(amp1, '\'', "&apos;"), ReplaceAll(amp2, '\'', "&apos;");
    ReplaceAllAppend(amp1, amp2, '\'', "&apos;");
    ReplaceAllAppend(apos1, apos2, '"', "&quot;");
  }

  /** The fixed replacement each single character receives. */
  lemma SanitizeChar(c: char)
    ensures Sanitize([c]) == Escape(c)
  {
    if c == '<' {
      SanitizeLessThan();
    } else if c == '>' {
      SanitizeGreaterThan();
    } else if c == '&' {
      SanitizeAmpersand();
    } else if c == '\'' {
      SanitizeApostrophe();
    } else if c == '"' {
      SanitizeQuotationMark();
    } else {
      SanitizePlain([c]);
    }
  }

  /** `<` is escaped twice: the `&` pass rewrites the `&lt;` of the `<` pass. */
  lemma SanitizeLessThan()
    ensures Sanitize("<") == "&amp;lt;"
  {
    var lt := ReplaceAll("<", '<', "&lt;");
    assert lt == "&lt;" by { ReplaceAllSingle('<', '<', "&lt;"); }
    var gt := ReplaceAll(lt, '>', "$gt;");
    assert gt == lt by { ReplaceAllAbsent(lt, '>', "$gt;"); }
    var amp := ReplaceAll(gt, '&', "&amp;");
    assert amp == "&amp;lt;" by { AmpInLt(); }
    var apos := ReplaceAll(amp, '\'', "&apos;");
    assert apos == amp by { ReplaceAllAbsent(amp, '\'', "&apos;"); }
    var quot := ReplaceAll(apos, '"', "&quot;");
    assert quot == apos by { ReplaceAllAbsent(apos, '"', "&quot;"); }
  }

  /** The `&` pass rewrites the `&lt;` left by the `<` pass. */
  lemma AmpInLt()
    ensures ReplaceAll("&lt;", '&', "&amp;") == "&amp;lt;"
  {
    var s: Str := "&lt;";
    assert s == ['&'] + "lt;";
    ReplaceAllAppend(['&'], "lt;", '&', "&amp;");
    ReplaceAllSingle('&', '&', "&amp;");
    ReplaceAllAbsent("lt;", '&', "&amp;");
  }

  /** `>` becomes the non-entity `$gt;`, which no later pass touches. */
  lemma SanitizeGreaterThan()
    ensures Sanitize(">") == "$gt;"
  {
    var lt := ReplaceAll(">", '<', "&lt;");
    assert lt == ">" by { ReplaceAllSingle('>', '<', "&lt;"); }
    var gt := ReplaceAll(lt, '>', "$gt;");
    assert gt == "$gt;" by { ReplaceAllSingle('>', '>', "$gt;"); }
    var amp := ReplaceAll(gt, '&', "&amp;");
    assert amp == gt by { ReplaceAllAbsent(gt, '&', "&amp;"); }
    var apos := ReplaceAll(amp, '\'', "&apos;");
    assert apos == amp by { ReplaceAllAbsent(amp, '\'', "&apos;"); }
    var quot := ReplaceAll(apos, '"', "&quot;");
    assert quot == apos by { ReplaceAllAbsent(apos, '"', "&quot;"); }
  }

  /** `&` becomes `&amp;`, which the `'` and `"` passes leave alone. */
  lemma SanitizeAmpersand()
    ensures Sanitize("&") == "&amp;"
  {
    var lt := ReplaceAll("&", '<', "&lt;");
    assert lt == "&" by { ReplaceAllSingle('&', '<', "&lt;"); }
    var gt := ReplaceAll(lt, '>', "$gt;");
    assert gt == "&" by { ReplaceAllSingle('&', '>', "$gt;"); }
    var amp := ReplaceAll(gt, '&', "&amp;");
    assert amp == "&amp;" by { ReplaceAllSingle('&', '&', "&amp;"); }
    var apos := ReplaceAll(amp, '\'', "&apos;");
    assert apos == amp by { ReplaceAllAbsent(amp, '\'', "&apos;"); }
    var quot := ReplaceAll(apos, '"', "&quot;");
    assert quot == apos by { ReplaceAllAbsent(apos, '"', "&quot;"); }
  }

  /** `'` is escaped once: the `&` pass has already run. */
  lemma SanitizeApostrophe()
    ensures Sanitize("'") == "&apos;"
  {
    var lt := ReplaceAll("'", '<', "&lt;");
    assert lt == "'" by { ReplaceAllSingle('\'', '<', "&lt;"); }
    var gt := ReplaceAll(lt, '>', "$gt;");
    assert gt == "'" by { ReplaceAllSingle('\'', '>', "$gt;"); }
    var amp := ReplaceAll(gt, '&', "&amp;");
    assert amp == "'" by { ReplaceAllSingle('\'', '&', "&amp;"); }
    var apos := ReplaceAll(amp, '\'', "&apos;");
    assert apos == "&apos;" by { ReplaceAllSingle('\'', '\'', "&apos;"); }
    var quot := ReplaceAll(apos, '"', "&quot;");
    assert quot == apos by { ReplaceAllAbsent(apos, '"', "&quot;"); }
  }

  /** `"` is escaped once: the `&` pass has already run. */
  lemma SanitizeQuotationMark()
    ensures Sanitize("\"") == "&quot;"
  {
    var lt := ReplaceAll("\"", '<', "&lt;");
    assert lt == "\"" by { ReplaceAllSingle('"', '<', "&lt;"); }
    var gt := ReplaceAll(lt, '>', "$gt;");
    assert gt == "\"" by { ReplaceAllSingle('"', '>', "$gt;"); }
    var amp := ReplaceAll(gt, '&', "&amp;");
    assert amp == "\"" by { ReplaceAllSingle('"', '&', "&amp;"); }
    var apos := ReplaceAll(amp, '\'', "&apos;");
    assert apos == "\"" by { ReplaceAllSingle('"', '\'', "&apos;"); }
    assert ReplaceAll(apos, '"', "&quot;") == "&quot;" by { ReplaceAllSingle('"', '"', "&quot;"); }
  }

  /** Sanitize agrees with the per-character table: every character is
      replaced in place by its escape, in order. */
  lemma {:induction false} SanitizeIsEscapeEach(s: Str)
    ensures Sanitize(s) == EscapeEach(s, Escape)
  {
    if s != [] {
      assert s == [s[0]] + s[1..];
      SanitizeAppend([s[0]], s[1..]);
      SanitizeChar(s[0]);
      SanitizeIsEscapeEach(s[1..]);
    }
  }

  // ---------------------------------------------------------------------
  // The evidently intended escaping and the HTML decoding it should invert

  /** The escaping with `&` handled first and `>` mapped to the entity `&gt;`. */
  function SanitizeIntended(input: Str): Str {
    var amp := ReplaceAll(input, '&', "&amp;");
    var lt := ReplaceAll(amp, '<', "&lt;");
    var gt := ReplaceAll(lt, '>', "&gt;");
    var apos := ReplaceAll(gt, '\'', "&apos;");
    ReplaceAll(apos, '"', "&quot;")
  }

  function EscapeIntended(c: char): Str {
    match c
    case '<' => "&lt;"
    case '>' => "&gt;"
    case '&' => "&amp;"
    case '\'' => "&apos;"
    case '"' => "&quot;"
    case _ => [c]
  }

  /** What a browser shows for text content, restricted to the five named
      character references the escaping produces. */
  function Unescape(s: Str): Str {
    if s == [] then []
    else if s[0] != '&' then [s[0]] + Unescape(s[1..])
    else if "&lt;" <= s then ['<'] + Unescape(s[4..])
    else if "&gt;" <= s then ['>'] + Unescape(s[4..])
    else if "&amp;" <= s then ['&'] + Unescape(s[5..])
    else if "&apos;" <= s then ['\''] + Unescape(s[6..])
    else if "&quot;" <= s then ['"'] + Unescape(s[6..])
    else [s[0]] + Unescape(s[1..])
  }

  lemma SanitizeIntendedAppend(a: Str, b: Str)
    ensures SanitizeIntended(a + b) == SanitizeIntended(a) + SanitizeIntended(b)
  {
    var amp1, amp2 := ReplaceAll(a, '&', "&amp;"), ReplaceAll(b, '&', "&amp;");
    ReplaceAllAppend(a, b, '&', "&amp;");
    var lt1, lt2 := ReplaceAll(amp1, '<', "&lt;"), ReplaceAll(amp2, '<', "&lt;");
    ReplaceAllAppend(amp1, amp2, '<', "&lt;");
    var gt1, gt2 := ReplaceAll(lt1, '>', "&gt;"), ReplaceAll(lt2, '>', "&gt;");
    ReplaceAllAppend(lt1, lt2, '>', "&gt;");
    var apos1, apos2 := ReplaceAll(gt1, '\'', "&apos;"), ReplaceAll(gt2, '\'', "&apos;");
    ReplaceAllAppend(gt1, gt2, '\'', "&apos;");
    ReplaceAllAppend(apos1, apos2, '"', "&quot;");
  }

  /** Under the intended order every special character is escaped exactly
      once, to its entity. */
  lemma SanitizeIntendedChar(c: char)
    ensures SanitizeIntended([c]) == EscapeIntended(c)
  {
    if c == '&' {
      SanitizeIntendedAmpersand();
    } else if c == '<' {
      SanitizeIntendedLessThan();
    } else if c == '>' {
      SanitizeIntendedGreaterThan();
    } else if c == '\'' {
      SanitizeIntendedApostrophe();
    } else if c == '"' {
      SanitizeIntendedQuotationMark();
    } else {
      SanitizeIntendedPlain([c]);
    }
  }

  lemma SanitizeIntendedPlain(input: Str)
    requires forall x | x in input :: !IsSpecial(x)
    ensures SanitizeIntended(input) == input
  {
    ReplaceAllAbsent(input, '&', "&amp;");
    ReplaceAllAbsent(input, '<', "&lt;");
    ReplaceAllAbsent(input, '>', "&gt;");
    ReplaceAllAbsent(input, '\'', "&apos;");
    ReplaceAllAbsent(input, '"', "&quot;");
  }

  lemma SanitizeIntendedAmpersand()
    ensures SanitizeIntended("&") == "&amp;"
  {
    var amp := ReplaceAll("&", '&', "&amp;");
    assert amp == "&amp;" by { ReplaceAllSingle('&', '&', "&amp;"); }
    assert '<' !in amp && '>' !in amp && '\'' !in amp && '"' !in amp;
    IntendedLaterPassesPlain(amp);
  }

  /** The four passes after the `&` pass leave text without their characters
      as it is. */
  lemma IntendedLaterPassesPlain(s: Str)
    requires '<' !in s && '>' !in s && '\'' !in s && '"' !in s
    ensures ReplaceAll(ReplaceAll(ReplaceAll(ReplaceAll(s, '<', "&lt;"), '>', "&gt;"), '\'', "&apos;"), '"', "&quot;") == s
  {
    ReplaceAllAbsent(s, '<', "&lt;");
    ReplaceAllAbsent(s, '>', "&gt;");
    ReplaceAllAbsent(s, '\'', "&apos;");
    ReplaceAllAbsent(s, '"', "&quot;");
  }

  lemma SanitizeIntendedLessThan()
    ensures SanitizeIntended("<") == "&lt;"
  {
    var amp := ReplaceAll("<", '&', "&amp;");
    assert amp == "<" by { ReplaceAllSingle('<', '&', "&amp;"); }
    var lt := ReplaceAll(amp, '<', "&lt;");
    assert lt == "&lt;" by { ReplaceAllSingle('<', '<', "&lt;"); }
    var gt := ReplaceAll(lt, '>', "&gt;");
    assert gt == lt by { ReplaceAllAbsent(lt, '>', "&gt;"); }
    var apos := ReplaceAll(gt, '\'', "&apos;");
    assert apos == gt by { ReplaceAllAbsent(gt, '\'', "&apos;"); }
    var quot := ReplaceAll(apos, '"', "&quot;");
    assert quot == apos by { ReplaceAllAbsent(apos, '"', "&quot;"); }
  }

  lemma SanitizeIntendedGreaterThan()
    ensures SanitizeIntended(">") == "&gt;"
  {
    var amp := ReplaceAll(">", '&', "&amp;");
    assert amp == ">" by { ReplaceAllSingle('>', '&', "&amp;"); }
    var lt := ReplaceAll(amp, '<', "&lt;");
    assert lt == ">" by { ReplaceAllSingle('>', '<', "&lt;"); }
    var gt := ReplaceAll(lt, '>', "&gt;");
    assert gt == "&gt;" by { ReplaceAllSingle('>', '>', "&gt;"); }
    var apos := ReplaceAll(gt, '\'', "&apos;");
    assert apos == gt by { ReplaceAllAbsent(gt, '\'', "&apos;"); }
    var quot := ReplaceAll(apos, '"', "&quot;");
    assert quot == apos by { ReplaceAllAbsent(apos, '"', "&quot;"); }
  }

  lemma SanitizeIntendedApostrophe()
    ensures SanitizeIntended("'") == "&apos;"
  {
    var amp := ReplaceAll("'", '&', "&amp;");
    assert amp == "'" by { ReplaceAllSingle('\'', '&', "&amp;"); }
    var lt := ReplaceAll(amp, '<', "&lt;");
    assert lt == "'" by { ReplaceAllSingle('\'', '<', "&lt;"); }
    var gt := ReplaceAll(lt, '>', "&gt;");
    assert gt == "'" by { ReplaceAllSingle('\'', '>', "&gt;"); }
    var apos := ReplaceAll(gt, '\'', "&apos;");
    assert apos == "&apos;" by { ReplaceAllSingle('\'', '\'', "&apos;"); }
    var quot := ReplaceAll(apos, '"', "&quot;");
    assert quot == apos by { ReplaceAllAbsent(apos, '"', "&quot;"); }
  }

  lemma SanitizeIntendedQuotationMark()
    ensures SanitizeIntended("\"") == "&quot;"
  {
    var amp := ReplaceAll("\"", '&', "&amp;");
    assert amp == "\"" by { ReplaceAllSingle('"', '&', "&amp;"); }
    var lt := ReplaceAll(amp, '<', "&lt;");
    assert lt == "\"" by { ReplaceAllSingle('"', '<', "&lt;"); }
    var gt := ReplaceAll(lt, '>', "&gt;");
    assert gt == "\"" by { ReplaceAllSingle('"', '>', "&gt;"); }
    var apos := ReplaceAll(gt, '\'', "&apos;");
    assert apos == "\"" by { ReplaceAllSingle('"', '\'', "&apos;"); }
    assert ReplaceAll(apos, '"', "&quot;") == "&quot;" by { ReplaceAllSingle('"', '"', "&quot;"); }
  }

  lemma {:induction false} SanitizeIntendedIsEscapeEach(s: Str)
    ensures SanitizeIntended(s) == EscapeEach(s, EscapeIntended)
  {
    if s != [] {
      assert s == [s[0]] + s[1..];
      SanitizeIntendedAppend([s[0]], s[1..]);
      SanitizeIntendedChar(s[0]);
      SanitizeIntendedIsEscapeEach(s[1..]);
    }
  }

  /** Decoding one intended escape in front of any text yields the character. */
  lemma UnescapeAfterEscape(c: char, t: Str)
    ensures Unescape(EscapeIntended(c) + t) == [c] + Unescape(t)
  {
    var e := EscapeIntended(c);
    var s := e + t;
    assert s[..|e|] == e && s[|e|..] == t;
    if c == '<' {
      assert "&lt;" <= s;
    } else if c == '>' {
      assert s[1] == 'g';
      assert "&gt;" <= s;
    } else if c == '&' {
      assert s[1] == 'a' && s[2] == 'm';
      assert "&amp;" <= s;
    } else if c == '\'' {
      assert s[1] == 'a' && s[2] == 'p';
      assert "&apos;" <= s;
    } else if c == '"' {
      assert s[1] == 'q';
      assert "&quot;" <= s;
    } else {
      assert s[0] == c;
    }
  }

  lemma {:induction false} EscapeEachRoundTrip(s: Str)
    ensures Unescape(EscapeEach(s, EscapeIntended)) == s
  {
    if s != [] {
      UnescapeAfterEscape(s[0], EscapeEach(s[1..], EscapeIntended));
      EscapeEachRoundTrip(s[1..]);
    }
  }

  /** The intended escaping round-trips: the browser shows exactly the text
      that was typed. */
  lemma UnescapeSanitizeIntended(s: Str)
    ensures Unescape(SanitizeIntended(s)) == s
  {
    SanitizeIntendedIsEscapeEach(s);
    EscapeEachRoundTrip(s);
  }

  /** The escaping as written does not round-trip: `<` is shown as the text
      `&lt;` and `>` as the text `$gt;`. */
  lemma SanitizeDoesNotRoundTrip(c: char)
    ensures c == '<' ==> Unescape(Sanitize([c])) == "&lt;"
    ensures c == '>' ==> Unescape(Sanitize([c])) == "$gt;"
  {
    if c == '<' {
      SanitizeLessThan();
      UnescapeDoubleEscapedLt();
    } else if c == '>' {
      SanitizeGreaterThan();
      UnescapePlain("$gt;");
    }
  }

  lemma UnescapeDoubleEscapedLt()
    ensures Unescape("&amp;lt;") == "&lt;"
  {
    var s: Str := "&amp;lt;";
    assert s[1] == 'a' && s[2] == 'm';
    assert "&amp;" <= s;
    assert s[5..] == "lt;";
    UnescapePlain("lt;");
  }

  /** Text without `&` is shown as it is. */
  lemma {:induction false} UnescapePlain(s: Str)
    requires '&' !in s
    ensures Unescape(s) == s
  {
    if s != [] {
      UnescapePlain(s[1..]);
      assert s == [s[0]] + s[1..];
    }
  }
}
