/** The bot's replies in `processMessage` of script.js and how
    `appendMessage` shows them. The greeting is the one reply that carries
    markup: the user's name, passed through `escapeHtml`, between `<strong>`
    tags. */
module Prompts {
  import opened JsStrings
  import opened Escape
  import opened Markup
  import opened RenderFacts
  import opened RenderShapes

  /** The replies of the four conversation steps. */
  datatype Prompt =
    | AskName
    | Greet(name: string)
    | BadEmail
    | AskNote
    | Saving
    | Saved
    | SaveFailed

  const GreetPrefix: string := "Nice to meet you, "
  const GreetSuffix: string := "! Can I get your email?"

  /** The message text `processMessage` hands to `appendMessage`. The
      longer replies are written as two literals joined, at a space. */
  function PromptText(p: Prompt): string {
    match p
    case AskName => "Awesome! What's your name?"
    case Greet(name) => GreetPrefix + OpenTag + EscapeHtml(name) + CloseTag + GreetSuffix
    case BadEmail => "That doesn't look like a valid email." + " Please enter a valid email address."
    case AskNote => "Got it! Would you like to leave" + " any message or interest note?"
    case Saving => "Thanks! Saving your info..."
    case Saved => "You're all set." + " We'll reach out when we launch \U{1F680}"
    case SaveFailed => "Thanks \U{2014} we couldn't save your info" + " right now, but we'll try to reach you."
  }

  /** No `<` and no line feed in `s`. */
  predicate NoLtNoLf(s: string) {
    forall k | 0 <= k < |s| :: s[k] != '<' && s[k] != '\n'
  }

  lemma PlainAppend(a: string, b: string)
    requires NoLtNoLf(a) && NoLtNoLf(b)
    ensures NoLtNoLf(a + b)
  {
    forall k | 0 <= k < |a + b| ensures (a + b)[k] != '<' && (a + b)[k] != '\n' {
      if k >= |a| {
        assert (a + b)[k] == b[k - |a|];
      }
    }
  }

  lemma PlainNotIn(s: string)
    requires NoLtNoLf(s)
    ensures '<' !in s && '\n' !in s
  {
  }

  /** A non-empty message without `<` or line feed is shown as one text node. */
  lemma PlainLine(s: string)
    requires |s| > 0 && '<' !in s && '\n' !in s
    ensures Render(s) == [Text(s)]
  {
    RenderPlain(s);
    LinesOfLine(s);
  }

  lemma AskNamePlain() ensures NoLtNoLf(PromptText(AskName)) {
    assert NoLtNoLf("Awesome! What's your name?");
  }

  lemma BadEmailPlain() ensures NoLtNoLf(PromptText(BadEmail)) {
    assert NoLtNoLf("That doesn't look like a valid email.");
    assert NoLtNoLf(" Please enter a valid email address.");
    PlainAppend("That doesn't look like a valid email.", " Please enter a valid email address.");
  }

  lemma AskNotePlain() ensures NoLtNoLf(PromptText(AskNote)) {
    assert NoLtNoLf("Got it! Would you like to leave");
    assert NoLtNoLf(" any message or interest note?");
    PlainAppend("Got it! Would you like to leave", " any message or interest note?");
  }

  lemma SavingPlain() ensures NoLtNoLf(PromptText(Saving)) {
    assert NoLtNoLf("Thanks! Saving your info...");
  }

  lemma SavedPlain() ensures NoLtNoLf(PromptText(Saved)) {
    assert NoLtNoLf("You're all set.");
    assert NoLtNoLf(" We'll reach out when we launch \U{1F680}");
    PlainAppend("You're all set.", " We'll reach out when we launch \U{1F680}");
  }

  lemma SaveFailedPlain() ensures NoLtNoLf(PromptText(SaveFailed)) {
    assert NoLtNoLf("Thanks \U{2014} we couldn't save your info");
    assert NoLtNoLf(" right now, but we'll try to reach you.");
    PlainAppend("Thanks \U{2014} we couldn't save your info", " right now, but we'll try to reach you.");
  }

  /** The fixed replies are non-empty and hold neither `<` nor a line feed. */
  lemma FixedPromptPlain(p: Prompt)
    requires !p.Greet?
    ensures |PromptText(p)| > 0 && '<' !in PromptText(p) && '\n' !in PromptText(p)
  {
    match p
    case AskName => AskNamePlain();
    case BadEmail => BadEmailPlain();
    case AskNote => AskNotePlain();
    case Saving => SavingPlain();
    case Saved => SavedPlain();
    case SaveFailed => SaveFailedPlain();
    PlainNotIn(PromptText(p));
  }

  /** Every reply but the greeting is shown as a single text node holding
      exactly its text. */
  lemma FixedPromptShown(p: Prompt)
    requires !p.Greet?
    ensures Render(PromptText(p)) == [Text(PromptText(p))]
  {
    FixedPromptPlain(p);
    PlainLine(PromptText(p));
  }

  /** `s` has no line terminator exactly when none of the four occurs in it. */
  lemma TerminatorsIn(s: string)
    ensures NoTerminator(s) <==> ('\n' !in s && '\r' !in s && '\U{2028}' !in s && '\U{2029}' !in s)
  {
    if !NoTerminator(s) {
      var k :| 0 <= k < |s| && IsLineTerminator(s[k]);
      assert s[k] in s;
    }
  }

  /** `escapeHtml` neither replaces a line terminator nor writes one. */
  lemma TerminatorNotEscaped(c: char)
    requires IsLineTerminator(c)
    ensures !IsEntityChar(c) && !IsSpecial(c)
  {
    var refs := "&amp;&lt;&gt;&quot;&#39;";
    assert forall k | 0 <= k < |refs| :: !IsLineTerminator(refs[k]);
  }

  /** A character that is neither escaped nor part of a reference occurs
      as often in the escape as in the input. */
  lemma {:induction false} EscapeCount(s: string, c: char)
    requires !IsEntityChar(c) && !IsSpecial(c)
    ensures Count(EscapeHtml(s), c) == Count(s, c)
  {
    if |s| > 0 {
      EscapeCount(s[1..], c);
      var e := EscapeChar(s[0]);
      CountAppend(e, EscapeHtml(s[1..]), c);
      if IsSpecial(s[0]) {
        assert c !in e;
        CountZero(e, c);
      }
    }
  }

  /** Escaping neither adds nor removes line terminators: each of the four
      occurs as often in the escape as in the name. */
  lemma EscapeKeepsTerminators(name: string)
    ensures NoTerminator(EscapeHtml(name)) <==> NoTerminator(name)
    ensures forall c | IsLineTerminator(c) :: Count(EscapeHtml(name), c) == Count(name, c)
  {
    forall c | IsLineTerminator(c)
      ensures Count(EscapeHtml(name), c) == Count(name, c)
    {
      TerminatorNotEscaped(c);
      EscapeCount(name, c);
    }
    TerminatorsIn(name);
    TerminatorsIn(EscapeHtml(name));
    TerminatorNotEscaped('\n');
    TerminatorNotEscaped('\r');
    TerminatorNotEscaped('\U{2028}');
    TerminatorNotEscaped('\U{2029}');
    EscapeHtmlKeepsPlain(name, '\n');
    EscapeHtmlKeepsPlain(name, '\r');
    EscapeHtmlKeepsPlain(name, '\U{2028}');
    EscapeHtmlKeepsPlain(name, '\U{2029}');
  }

  /** The escaped name has no `<`. */
  lemma EscapedHasNoLt(name: string)
    ensures '<' !in EscapeHtml(name)
  {
    EscapeHtmlSafe(name);
    var e := EscapeHtml(name);
    assert forall k | 0 <= k < |e| :: e[k] != '<';
  }

  /** The three nodes of a greeting that shows `shown` in bold. */
  function GreetingNodes(shown: string): seq<Node> {
    [Text(GreetPrefix), Strong(shown), Text(GreetSuffix)]
  }

  /** Such a greeting has `shown` as its one `<strong>` and reads back as
      the sentence around it. */
  lemma GreetingNodesShow(shown: string)
    ensures Strongs(GreetingNodes(shown)) == [shown]
    ensures Flatten(GreetingNodes(shown)) == GreetPrefix + shown + GreetSuffix
  {
    var ns := GreetingNodes(shown);
    assert ns[1..] == [Strong(shown), Text(GreetSuffix)];
    assert ns[1..][1..] == [Text(GreetSuffix)];
    assert ns[1..][1..][1..] == [];
    assert Strongs(ns[1..][1..]) == [];
    assert Flatten(ns[1..][1..]) == GreetSuffix;
    assert Flatten(ns[1..]) == shown + GreetSuffix;
  }

  /** The greeting's fixed pieces are non-empty, without `<` or line feed. */
  lemma GreetPiecesPlain()
    ensures |GreetPrefix| > 0 && '<' !in GreetPrefix && '\n' !in GreetPrefix
    ensures |GreetSuffix| > 0 && '<' !in GreetSuffix && '\n' !in GreetSuffix
  {
    assert NoLtNoLf(GreetPrefix);
    assert NoLtNoLf(GreetSuffix);
  }

  /** A tag pair around `e` between two plain lines is shown as those lines
      around one `<strong>` holding `e`. */
  lemma GreetingShape(pre: string, e: string, suf: string)
    requires |pre| > 0 && '<' !in pre && '\n' !in pre
    requires |suf| > 0 && '<' !in suf && '\n' !in suf
    requires '<' !in e && NoTerminator(e)
    ensures Render(pre + OpenTag + e + CloseTag + suf) == [Text(pre), Strong(e), Text(suf)]
  {
    RenderOnePair(pre, e, suf);
    LinesOfLine(pre);
    LinesOfLine(suf);
  }

  /** A name without line terminators is greeted with the prefix, one
      `<strong>` holding the escaped name, and the suffix. */
  lemma GreetingShown(name: string)
    requires NoTerminator(name)
    ensures Render(PromptText(Greet(name))) == GreetingNodes(EscapeHtml(name))
  {
    EscapeKeepsTerminators(name);
    EscapedHasNoLt(name);
    GreetPiecesPlain();
    GreetingShape(GreetPrefix, EscapeHtml(name), GreetSuffix);
  }

  /** What the greeting's `<strong>` shows decodes back to the name: the
      escaping loses nothing, but it is what is shown. */
  lemma GreetingDecodes(name: string)
    requires NoTerminator(name)
    ensures |Strongs(Render(PromptText(Greet(name))))| == 1
    ensures Unescape(Strongs(Render(PromptText(Greet(name))))[0]) == name
  {
    GreetingShown(name);
    GreetingNodesShow(EscapeHtml(name));
    UnescapeEscape(name);
  }

  /** As written, the greeting shows the name's references instead of its
      special characters: a name with `&`, `<`, `>`, `"` or `'` is shown
      changed inside the `<strong>`. */
  lemma GreetingShowsEntities(name: string)
    requires NoTerminator(name) && !NoSpecial(name)
    ensures Strongs(Render(PromptText(Greet(name)))) == [EscapeHtml(name)]
    ensures EscapeHtml(name) != name
  {
    GreetingShown(name);
    GreetingNodesShow(EscapeHtml(name));
    EscapeHtmlIdentity(name);
  }

  lemma EscapeAmpersand(s: string)
    requires s == "&"
    ensures NoTerminator(s) && EscapeHtml(s) == "&amp;"
  {
    assert s[1..] == [];
    assert EscapeHtml(s) == EscapeChar('&') + EscapeHtml([]);
  }

  /** The smallest such name: `&` is greeted as `&amp;`. */
  lemma GreetingAmpersand(name: string)
    requires name == "&"
    ensures Strongs(Render(PromptText(Greet(name)))) == ["&amp;"]
  {
    EscapeAmpersand(name);
    GreetingShown(name);
    GreetingNodesShow(EscapeHtml(name));
  }

  /** As written, a line terminator in the name breaks the tag pair: the
      greeting is shown as plain lines with the tags as literal text and no
      `<strong>` at all. */
  lemma GreetingBrokenByTerminator(name: string)
    requires !NoTerminator(name)
    ensures Strongs(Render(PromptText(Greet(name)))) == []
    ensures Flatten(Render(PromptText(Greet(name)))) == PromptText(Greet(name))
  {
    var t := PromptText(Greet(name));
    EscapeKeepsTerminators(name);
    EscapedHasNoLt(name);
    GreetPiecesPlain();
    RenderBrokenPair(GreetPrefix, EscapeHtml(name), GreetSuffix);
    LinesFacts(t);
    FlattenLines(t);
  }

  /** A name with such a terminator that `trim()` keeps: `A`, U+2028 LINE
      SEPARATOR, `B`. A text field strips only line feeds and carriage
      returns, and `trim()` only the ends, so this name is greeted as typed,
      and the greeting shows no `<strong>`. */
  lemma GreetingLineSeparator(name: string)
    requires name == "A\U{2028}B"
    ensures Trim(name) == name
    ensures Strongs(Render(PromptText(Greet(name)))) == []
  {
    TrimKeeps(name);
    assert IsLineTerminator(name[1]);
    GreetingBrokenByTerminator(name);
  }

  /** How a reply is shown, as evidently intended: the greeting shows the
      name itself, as typed, in its `<strong>` (setting `textContent` needs
      no escaping and no markup scan); every other reply goes through the
      renderer. */
  function Shown(p: Prompt): (ns: seq<Node>)
    ensures p.Greet? ==> Strongs(ns) == [p.name]
    ensures p.Greet? ==> Flatten(ns) == GreetPrefix + p.name + GreetSuffix
    ensures !p.Greet? ==> ns == [Text(PromptText(p))]
  {
    if p.Greet? then
      GreetingNodesShow(p.name);
      GreetingNodes(p.name)
    else
      FixedPromptShown(p);
      Render(PromptText(p))
  }

  /** Where the written code does work, on names without special characters
      and line terminators, it shows the intended greeting. */
  lemma GreetingAgrees(name: string)
    requires NoTerminator(name) && NoSpecial(name)
    ensures Render(PromptText(Greet(name))) == Shown(Greet(name))
  {
    GreetingShown(name);
    EscapeHtmlIdentity(name);
  }
}
