/** The markup escaper behind the SP metadata and the redirect page (server/src/saml/sp_metadata.rs). */
module SpMetadata {

  /** `str::replace` of one character, over the whole string. */
  function Replace(s: string, from: char, to: string): string {
    if s == "" then "" else (if s[0] == from then to else [s[0]]) + Replace(s[1..], from, to)
  }

  function EscapeMarkup(text: string): string {
    Replace(
      Replace(Replace(Replace(Replace(text, '&', "&amp;"), '<', "&lt;"), '>', "&gt;"), '"', "&quot;"),
      '\'', "&#39;")
  }

  /** The escape of one character on its own. */
  function EscapeChar(c: char): string {
    if c == '&' then "&amp;"
    else if c == '<' then "&lt;"
    else if c == '>' then "&gt;"
    else if c == '"' then "&quot;"
    else if c == '\'' then "&#39;"
    else [c]
  }

  /** One pass over the text, each character escaped on its own. */
  function EscapeOnePass(text: string): string {
    if text == "" then "" else EscapeChar(text[0]) + EscapeOnePass(text[1..])
  }

  /** What a parser of markup makes of the five entities. */
  function Unescape(s: string): string {
    if s == "" then ""
    else if "&amp;" <= s then "&" + Unescape(s[5..])
    else if "&lt;" <= s then "<" + Unescape(s[4..])
    else if "&gt;" <= s then ">" + Unescape(s[4..])
    else if "&quot;" <= s then "\"" + Unescape(s[6..])
    else if "&#39;" <= s then "'" + Unescape(s[5..])
    else [s[0]] + Unescape(s[1..])
  }

  lemma {:induction false} ReplaceConcat(a: string, b: string, from: char, to: string)
    ensures Replace(a + b, from, to) == Replace(a, from, to) + Replace(b, from, to)
  {
    if a == "" {
      assert a + b == b;
    } else {
      assert (a + b)[0] == a[0] && (a + b)[1..] == a[1..] + b;
      ReplaceConcat(a[1..], b, from, to);
    }
  }

  lemma {:induction false} ReplaceNothing(s: string, from: char, to: string)
    requires from !in s
    ensures Replace(s, from, to) == s
  {
    if s != "" {
      ReplaceNothing(s[1..], from, to);
    }
  }

  lemma EscapeConcat(a: string, b: string)
    ensures EscapeMarkup(a + b) == EscapeMarkup(a) + EscapeMarkup(b)
  {
    ReplaceConcat(a, b, '&', "&amp;");
    var a1, b1 := Replace(a, '&', "&amp;"), Replace(b, '&', "&amp;");
    ReplaceConcat(a1, b1, '<', "&lt;");
    var a2, b2 := Replace(a1, '<', "&lt;"), Replace(b1, '<', "&lt;");
    ReplaceConcat(a2, b2, '>', "&gt;");
    var a3, b3 := Replace(a2, '>', "&gt;"), Replace(b2, '>', "&gt;");
    ReplaceConcat(a3, b3, '"', "&quot;");
    var a4, b4 := Replace(a3, '"', "&quot;"), Replace(b3, '"', "&quot;");
    ReplaceConcat(a4, b4, '\'', "&#39;");
  }

  lemma ReplaceOne(c: char, from: char, to: string)
    ensures Replace([c], from, to) == if c == from then to else [c]
  {
  }

  /** The last `n` of the five replaces. */
  function EscapeFrom(s: string, n: nat): string {
    var s := if n >= 4 then Replace(s, '<', "&lt;") else s;
    var s := if n >= 3 then Replace(s, '>', "&gt;") else s;
    var s := if n >= 2 then Replace(s, '"', "&quot;") else s;
    if n >= 1 then Replace(s, '\'', "&#39;") else s
  }

  lemma EscapeFromStays(s: string, n: nat)
    requires forall i | 0 <= i < |s| :: s[i] != '<' && s[i] != '>' && s[i] != '"' && s[i] != '\''
    ensures EscapeFrom(s, n) == s
  {
    ReplaceNothing(s, '<', "&lt;");
    ReplaceNothing(s, '>', "&gt;");
    ReplaceNothing(s, '"', "&quot;");
    ReplaceNothing(s, '\'', "&#39;");
  }

  lemma EscapeOne(c: char)
    ensures EscapeMarkup([c]) == EscapeChar(c)
  {
    ReplaceOne(c, '&', "&amp;");
    ReplaceOne(c, '<', "&lt;");
    ReplaceOne(c, '>', "&gt;");
    ReplaceOne(c, '"', "&quot;");
    ReplaceOne(c, '\'', "&#39;");
    if c == '&' {
      EscapeFromStays("&amp;", 4);
    } else if c == '<' {
      EscapeFromStays("&lt;", 3);
    } else if c == '>' {
      EscapeFromStays("&gt;", 2);
    } else if c == '"' {
      EscapeFromStays("&quot;", 1);
    }
  }

  /** Five replaces over the whole string, the ampersand first, are one pass: no replace ever touches
      what an earlier one wrote. */
  lemma {:induction false} FiveReplacesAreOnePass(text: string)
    ensures EscapeMarkup(text) == EscapeOnePass(text)
  {
    if text == "" {
      ReplaceNothing("", '&', "&amp;");
    } else {
      assert text == [text[0]] + text[1..];
      EscapeConcat([text[0]], text[1..]);
      EscapeOne(text[0]);
      FiveReplacesAreOnePass(text[1..]);
    }
  }

  predicate BeginsEntity(s: string) {
    "&amp;" <= s || "&lt;" <= s || "&gt;" <= s || "&quot;" <= s || "&#39;" <= s
  }

  /** No `<`, `>` or quote is left, and every `&` begins one of the five entities: safe as element
      content and in either kind of quotes. */
  predicate Safe(s: string) {
    && (forall i | 0 <= i < |s| :: s[i] != '<' && s[i] != '>' && s[i] != '"' && s[i] != '\'')
    && (forall i | 0 <= i < |s| && s[i] == '&' :: BeginsEntity(s[i..]))
  }

  lemma EscapedIsSafe(text: string)
    ensures Safe(EscapeMarkup(text))
  {
    FiveReplacesAreOnePass(text);
    OnePassIsSafe(text);
  }

  lemma CharIsSafe(c: char, tail: string)
    ensures var e := EscapeChar(c);
            && (forall i | 0 <= i < |e| :: e[i] != '<' && e[i] != '>' && e[i] != '"' && e[i] != '\''
                  && (i > 0 ==> e[i] != '&'))
            && |e| > 0 && (e[0] == '&' ==> BeginsEntity(e + tail))
  {
  }

  lemma {:induction false} OnePassIsSafe(text: string)
    ensures Safe(EscapeOnePass(text))
  {
    if text != "" {
      var head, tail := EscapeChar(text[0]), EscapeOnePass(text[1..]);
      var s := head + tail;
      OnePassIsSafe(text[1..]);
      CharIsSafe(text[0], tail);
      forall i | 0 <= i < |s| && s[i] == '&' ensures BeginsEntity(s[i..]) {
        if i < |head| {
          assert i == 0 && s[0..] == s;
        } else {
          assert s[i..] == tail[i - |head|..];
        }
      }
    }
  }

  /** Escaping loses nothing: parsing the entities gives the text back, so different texts are
      written differently. */
  lemma UnescapeRestores(text: string)
    ensures Unescape(EscapeMarkup(text)) == text
  {
    FiveReplacesAreOnePass(text);
    UnescapeOnePass(text);
  }

  /** What parsing makes of a text whose first characters are known. */
  lemma UnescapeEntity(entity: string, c: char, tail: string)
    requires (entity, c) in [("&amp;", '&'), ("&lt;", '<'), ("&gt;", '>'), ("&quot;", '"'), ("&#39;", '\'')]
    ensures Unescape(entity + tail) == [c] + Unescape(tail)
  {
    var s := entity + tail;
    assert s[..|entity|] == entity && s[|entity|..] == tail && s[1] == entity[1];
  }

  lemma UnescapePlain(c: char, tail: string)
    requires c != '&'
    ensures Unescape([c] + tail) == [c] + Unescape(tail)
  {
    assert ([c] + tail)[0] == c && ([c] + tail)[1..] == tail;
  }

  lemma UnescapeChar(c: char, tail: string)
    ensures Unescape(EscapeChar(c) + tail) == [c] + Unescape(tail)
  {
    if EscapeChar(c) == [c] {
      UnescapePlain(c, tail);
    } else {
      UnescapeEntity(EscapeChar(c), c, tail);
    }
  }

  lemma {:induction false} UnescapeOnePass(text: string)
    ensures Unescape(EscapeOnePass(text)) == text
  {
    if text != "" {
      UnescapeOnePass(text[1..]);
      UnescapeChar(text[0], EscapeOnePass(text[1..]));
      assert text == [text[0]] + text[1..];
    }
  }
}
