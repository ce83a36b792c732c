/** The HTML escaper of the directory listing (src/main.py, `escape`).
    It is three `str.replace` passes in this order: `<`, then `>`, then `&`.
    Because `&` goes last, the `&` of an inserted `&lt;` or `&gt;` is itself
    rewritten, so `<` ends up as `&amp;lt;`. */
module Escaping {

  /** Python's `s.replace(c, rep)` for a one-character pattern: every
      occurrence of `c`, scanned left to right, becomes `rep`. */
  function Replace(s: string, c: char, rep: string): (r: string)
    ensures c !in rep ==> c !in r
    ensures c !in s ==> r == s
  {
    if s == [] then []
    else (if s[0] == c then rep else [s[0]]) + Replace(s[1..], c, rep)
  }

  /** Replacing never introduces a character found in neither the text nor
      the replacement. */
  lemma {:induction false} ReplaceKeepsAbsent(s: string, c: char, rep: string, d: char)
    requires d !in s && d !in rep
    ensures d !in Replace(s, c, rep)
  {
    if s != [] {
      assert d !in s[1..];
      ReplaceKeepsAbsent(s[1..], c, rep, d);
    }
  }

  lemma {:induction false} ReplaceAppend(a: string, b: string, c: char, rep: string)
    ensures Replace(a + b, c, rep) == Replace(a, c, rep) + Replace(b, c, rep)
  {
    if a == [] {
      assert a + b == b;
    } else {
      var head := if a[0] == c then rep else [a[0]];
      assert (a + b)[1..] == a[1..] + b;
      calc {
        Replace(a + b, c, rep);
        head + Replace(a[1..] + b, c, rep);
        { ReplaceAppend(a[1..], b, c, rep); }
        head + (Replace(a[1..], c, rep) + Replace(b, c, rep));
        Replace(a, c, rep) + Replace(b, c, rep);
      }
    }
  }

  function Escape(text: string): (r: string)
    ensures '<' !in r && '>' !in r
    ensures '<' !in text && '>' !in text && '&' !in text ==> r == text
  {
    var noLt := Replace(text, '<', "&lt;");
    ReplaceKeepsAbsent(noLt, '>', "&gt;", '<');
    var noGt := Replace(noLt, '>', "&gt;");
    ReplaceKeepsAbsent(noGt, '&', "&amp;", '<');
    ReplaceKeepsAbsent(noGt, '&', "&amp;", '>');
    Replace(noGt, '&', "&amp;")
  }

  /** What `escape` turns one character into. */
  function EscapeChar(ch: char): string
  {
    if ch == '<' then "&amp;lt;"
    else if ch == '>' then "&amp;gt;"
    else if ch == '&' then "&amp;"
    else [ch]
  }

  /** Reference definition: escape each character on its own. */
  function EscapeEach(s: string): string
  {
    if s == [] then [] else EscapeChar(s[0]) + EscapeEach(s[1..])
  }

  /** Replacing in a one-character string. */
  lemma ReplaceSingle(ch: char, c: char, rep: string)
    ensures Replace([ch], c, rep) == if ch == c then rep else [ch]
  {

  }

  /** The final `&` pass on an inserted `&lt;` or `&gt;`. */
  lemma ReplaceAmpersandOfEntity(tail: string)
    requires '&' !in tail
    ensures Replace("&" + tail, '&', "&amp;") == "&amp;" + tail
  {

  }

  /** The entity texts, taken apart at their first character. */
  lemma EntityTexts()
    ensures "&lt;" == "&" + "lt;" && "&gt;" == "&" + "gt;"
    ensures "&amp;" + "lt;" == "&amp;lt;" && "&amp;" + "gt;" == "&amp;gt;"
  {
  }

  lemma EscapeLessThan()
    ensures Escape("<") == "&amp;lt;"
  {
    EntityTexts();
    ReplaceSingle('<', '<', "&lt;");
    ReplaceAmpersandOfEntity("lt;");
  }

  lemma EscapeGreaterThan()
    ensures Escape(">") == "&amp;gt;"
  {
    EntityTexts();
    ReplaceSingle('>', '<', "&lt;");
    ReplaceSingle('>', '>', "&gt;");
    ReplaceAmpersandOfEntity("gt;");
  }

  lemma EscapeOther(ch: char)
    requires ch != '<' && ch != '>'
    ensures Escape([ch]) == EscapeChar(ch)
  {

  }

  /** Escaping a one-character string gives `EscapeChar`: because `&` is
      replaced last, `<` and `>` come out doubly escaped. */
  lemma EscapeSingle(ch: char)
    ensures Escape([ch]) == EscapeChar(ch)
  {
    if ch == '<' {
      EscapeLessThan();
    } else if ch == '>' {
      EscapeGreaterThan();
    } else {
      EscapeOther(ch);
    }
  }

  lemma EscapeAppend(a: string, b: string)
    ensures Escape(a + b) == Escape(a) + Escape(b)
  {
    ReplaceAppend(a, b, '<', "&lt;");
    var a1, b1 := Replace(a, '<', "&lt;"), Replace(b, '<', "&lt;");
    ReplaceAppend(a1, b1, '>', "&gt;");
    var a2, b2 := Replace(a1, '>', "&gt;"), Replace(b1, '>', "&gt;");
    ReplaceAppend(a2, b2, '&', "&amp;");
  }

  /** The three passes agree with escaping character by character. */
  lemma {:induction false} EscapeIsPerCharacter(s: string)
    ensures Escape(s) == EscapeEach(s)
  {
    if s != [] {
      assert s == [s[0]] + s[1..];
      EscapeAppend([s[0]], s[1..]);
      EscapeSingle(s[0]);
      EscapeIsPerCharacter(s[1..]);
    }
  }

  /** Every `&` in `t` begins the entity `&amp;`. */
  ghost predicate AmpersandsAreEntities(t: string)
  {
    forall i :: 0 <= i < |t| && t[i] == '&' ==> i + 5 <= |t| && t[i..i + 5] == "&amp;"
  }

  lemma AmpersandsAppend(a: string, b: string)
    requires AmpersandsAreEntities(a) && AmpersandsAreEntities(b)
    ensures AmpersandsAreEntities(a + b)
  {

  }

  lemma EscapeCharAmpersands(ch: char)
    ensures AmpersandsAreEntities(EscapeChar(ch))
  {

  }

  lemma {:induction false} EscapeEachAmpersands(s: string)
    ensures AmpersandsAreEntities(EscapeEach(s))
  {
    if s != [] {
      EscapeCharAmpersands(s[0]);
      EscapeEachAmpersands(s[1..]);
      AmpersandsAppend(EscapeChar(s[0]), EscapeEach(s[1..]));
    }
  }

  /** In escaped text every `&` starts `&amp;`, even those that came from the
      `&lt;` and `&gt;` inserted by the first two passes. */
  lemma EscapedAmpersandsStartEntity(text: string)
    ensures AmpersandsAreEntities(Escape(text))
  {
    EscapeIsPerCharacter(text);
    EscapeEachAmpersands(text);
  }
}
