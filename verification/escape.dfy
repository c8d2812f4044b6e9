/** `escapeHtml` of script.js: each of the five HTML-special characters is
    replaced by its character reference, everything else is copied. */
module Escape {

  /** The characters `escapeHtml` replaces. */
  predicate IsSpecial(c: char) {
    c == '&' || c == '<' || c == '>' || c == '"' || c == '\''
  }

  /** The replacement table of `escapeHtml`. */
  function Entity(c: char): (e: string)
    requires IsSpecial(c)
  {
    match c
    case '&' => "&amp;"
    case '<' => "&lt;"
    case '>' => "&gt;"
    case '"' => "&quot;"
    case _ => "&#39;"
  }

  /** The characters that occur in some entity of the table. */
  predicate IsEntityChar(c: char) {
    c in "&amp;&lt;&gt;&quot;&#39;"
  }

  function EscapeChar(c: char): string {
    if IsSpecial(c) then Entity(c) else [c]
  }

  /** `escapeHtml(str)`: each special character replaced by its reference. */
  function EscapeHtml(s: string): string {
    if |s| == 0 then "" else EscapeChar(s[0]) + EscapeHtml(s[1..])
  }

  /** None of `<`, `>`, `"`, `'` survives escaping. */
  predicate NoMarkup(r: string) {
    forall k | 0 <= k < |r| :: r[k] != '<' && r[k] != '>' && r[k] != '"' && r[k] != '\''
  }

  lemma NoMarkupAppend(a: string, b: string)
    requires NoMarkup(a) && NoMarkup(b)
    ensures NoMarkup(a + b)
  {
    forall k | 0 <= k < |a + b| ensures (a + b)[k] != '<' && (a + b)[k] != '>' && (a + b)[k] != '"' && (a + b)[k] != '\'' {
      if k >= |a| {
        assert (a + b)[k] == b[k - |a|];
      }
    }
  }

  /** The output is never shorter than the input and holds none of `<`,
      `>`, `"`, `'`: every such character was replaced by a reference. */
  lemma {:induction false} EscapeHtmlSafe(s: string)
    ensures |EscapeHtml(s)| >= |s|
    ensures NoMarkup(EscapeHtml(s))
  {
    if |s| > 0 {
      EscapeHtmlSafe(s[1..]);
      assert NoMarkup(EscapeChar(s[0]));
      NoMarkupAppend(EscapeChar(s[0]), EscapeHtml(s[1..]));
    }
  }

  predicate NoSpecial(s: string) {
    forall k | 0 <= k < |s| :: !IsSpecial(s[k])
  }

  /** The output is as long as the input exactly when nothing needed
      escaping, and then it is the input itself. */
  lemma {:induction false} EscapeHtmlIdentity(s: string)
    ensures |EscapeHtml(s)| == |s| <==> NoSpecial(s)
    ensures NoSpecial(s) ==> EscapeHtml(s) == s
  {
    if |s| > 0 {
      EscapeHtmlIdentity(s[1..]);
      EscapeHtmlSafe(s[1..]);
      assert NoSpecial(s) <==> !IsSpecial(s[0]) && NoSpecial(s[1..]) by {
        assert forall k | 1 <= k < |s| :: s[k] == s[1..][k - 1];
      }
      assert s == [s[0]] + s[1..];
    }
  }

  /** A character that is neither escaped nor part of any reference occurs in
      the output exactly when it occurs in the input. */
  lemma {:induction false} EscapeHtmlKeepsPlain(s: string, c: char)
    requires !IsEntityChar(c) && !IsSpecial(c)
    ensures c in EscapeHtml(s) <==> c in s
  {
    if |s| > 0 {
      EscapeHtmlKeepsPlain(s[1..], c);
      var e := EscapeChar(s[0]);
      assert c in e <==> c == s[0];
      assert c in e + EscapeHtml(s[1..]) <==> c in e || c in EscapeHtml(s[1..]);
      assert c in s <==> c == s[0] || c in s[1..] by {
        assert s == [s[0]] + s[1..];
      }
    }
  }

  function StartsWith(r: string, prefix: string): bool {
    |prefix| <= |r| && r[..|prefix|] == prefix
  }

  /** The character at the front of `r` once a leading reference of the
      table is decoded, and how many characters of `r` it takes up; an `&`
      that starts no reference of the table stands for itself. */
  function DecodeFirst(r: string): (d: (char, nat))
    requires |r| > 0
    ensures 1 <= d.1 <= |r|
  {
    if StartsWith(r, "&amp;") then ('&', 5)
    else if StartsWith(r, "&lt;") then ('<', 4)
    else if StartsWith(r, "&gt;") then ('>', 4)
    else if StartsWith(r, "&quot;") then ('"', 6)
    else if StartsWith(r, "&#39;") then ('\'', 5)
    else (r[0], 1)
  }

  /** Decoding of the five references `escapeHtml` produces. */
  function Unescape(r: string): string
    decreases |r|
  {
    if |r| == 0 then ""
    else
      var d := DecodeFirst(r);
      [d.0] + Unescape(r[d.1..])
  }

  /** Whatever follows, the front of an escaped character decodes to that
      character and takes up exactly its escape. */
  lemma DecodeEscapedChar(c: char, rest: string)
    ensures DecodeFirst(EscapeChar(c) + rest) == (c, |EscapeChar(c)|)
  {
    var r := EscapeChar(c) + rest;
    if !IsSpecial(c) {
      assert r[0] == c;
    } else if c == '&' {
      assert r[..5] == "&amp;";
    } else if c == '<' {
      assert r[1] == 'l';
      assert r[..4] == "&lt;";
    } else if c == '>' {
      assert r[1] == 'g';
      assert r[..4] == "&gt;";
    } else if c == '"' {
      assert r[1] == 'q';
      assert r[..6] == "&quot;";
    } else {
      assert r[1] == '#';
      assert r[..5] == "&#39;";
    }
  }

  /** Decoding an escaped character followed by anything gives the character
      followed by the decoding of the rest. */
  lemma UnescapeEscapeChar(c: char, rest: string)
    ensures Unescape(EscapeChar(c) + rest) == [c] + Unescape(rest)
  {
    var r := EscapeChar(c) + rest;
    DecodeEscapedChar(c, rest);
    assert r[|EscapeChar(c)|..] == rest;
  }

  /** Escaping loses nothing: decoding the references gives the input back. */
  lemma {:induction false} UnescapeEscape(s: string)
    ensures Unescape(EscapeHtml(s)) == s
  {
    if |s| > 0 {
      UnescapeEscapeChar(s[0], EscapeHtml(s[1..]));
      UnescapeEscape(s[1..]);
      assert s == [s[0]] + s[1..];
    }
  }

  /** Escaping is injective, which the round trip above implies. */
  lemma EscapeInjective(s: string, t: string)
    requires EscapeHtml(s) == EscapeHtml(t)
    ensures s == t
  {
    UnescapeEscape(s);
    UnescapeEscape(t);
  }
}
