/** How `appendMessage` renders messages of three simple shapes: text
    without any `<`, text with one well-formed `<strong>…</strong>` pair, and
    the same pair broken by a line terminator inside it. */
module RenderShapes {
  import opened Wrappers
  import opened JsStrings
  import opened Markup
  import opened RenderFacts

  /** No `<` in `t[from..hi]`. */
  predicate NoOpenChar(t: string, from: nat, hi: nat) {
    forall p | from <= p < hi && p < |t| :: t[p] != '<'
  }

  /** Both spellings of both tags begin with `<`. */
  lemma TagsStartWithLt()
    ensures OpenTag[0] == '<' && OpenTagUpper[0] == '<'
    ensures CloseTag[0] == '<' && CloseTagUpper[0] == '<'
  {
  }

  /** After their first character, the tags hold no `<`. */
  lemma TagTailsHaveNoLt()
    ensures forall j | 1 <= j < |OpenTag| :: OpenTag[j] != '<' && OpenTagUpper[j] != '<'
    ensures forall j | 1 <= j < |CloseTag| :: CloseTag[j] != '<' && CloseTagUpper[j] != '<'
  {
    assert OpenTag == ['<', 's', 't', 'r', 'o', 'n', 'g', '>'];
    assert OpenTagUpper == ['<', 'S', 'T', 'R', 'O', 'N', 'G', '>'];
    assert CloseTag == ['<', '/', 's', 't', 'r', 'o', 'n', 'g', '>'];
    assert CloseTagUpper == ['<', '/', 'S', 'T', 'R', 'O', 'N', 'G', '>'];
  }

  /** Inside a tag read at `i`, only its first character is a `<`. */
  lemma TagTailNoOpen(t: string, i: nat, lower: string, upper: string)
    requires TagAt(t, i, lower, upper) && |lower| >= 1
    requires forall j | 1 <= j < |lower| :: lower[j] != '<' && upper[j] != '<'
    ensures NoOpenChar(t, i + 1, i + |lower|)
  {
    forall p | i + 1 <= p < i + |lower| && p < |t| ensures t[p] != '<' {
      assert lower[p - i] != '<';
    }
  }

  /** No match starts at a character other than `<`. */
  lemma NoMatchWithoutLt(t: string, p: nat)
    requires p < |t| ==> t[p] != '<'
    ensures MatchAt(t, p).None?
  {
    TagsStartWithLt();
  }

  /** `exec` moves on past a character other than `<`. */
  lemma StepPlain(t: string, from: nat)
    requires from < |t| && t[from] != '<'
    ensures NextMatch(t, from) == NextMatch(t, from + 1)
  {
    NoMatchWithoutLt(t, from);
    NextMatchSkips(t, from);
  }

  /** `exec` runs across text without `<`. */
  lemma {:induction false} NextMatchAcrossPlain(t: string, from: nat, hi: nat)
    requires from <= hi <= |t| && NoOpenChar(t, from, hi)
    decreases hi - from
    ensures NextMatch(t, from) == NextMatch(t, hi)
  {
    if from < hi {
      StepPlain(t, from);
      NextMatchAcrossPlain(t, from + 1, hi);
    }
  }

  /** The first closing tag after text without `<`. */
  lemma {:induction false} FirstCloseAcross(t: string, from: nat, k: nat)
    requires from <= k && CloseAt(t, k) && NoOpenChar(t, from, k)
    decreases k - from
    ensures FirstClose(t, from) == Some(k)
  {
    if from < k {
      TagsStartWithLt();
      assert t[from] != CloseTag[0] && t[from] != CloseTagUpper[0];
      FirstCloseAcross(t, from + 1, k);
    }
  }

  /** A literal span without line feed is one text node. */
  lemma LinesOfLine(s: string)
    requires '\n' !in s
    ensures Lines(s) == [Text(s)]
  {
    SplitNoSep(s, '\n');
  }

  /** Text without `<` is rendered as its lines alone. */
  lemma RenderPlain(t: string)
    requires '<' !in t
    ensures Render(t) == if |t| == 0 then [] else Lines(t)
  {
    NextMatchAcrossPlain(t, 0, |t|);
    assert Matches(t) == [];
    assert t[0..|t|] == t;
  }

  /** Where the pieces of `p + <strong> + inner + </strong> + q` lie. */
  lemma PairLayout(p: string, inner: string, q: string)
    requires '<' !in p && '<' !in inner && '<' !in q
    ensures var t := p + OpenTag + inner + CloseTag + q;
            var b := |p| + |OpenTag|;
            var c := b + |inner|;
            && |t| == c + |CloseTag| + |q|
            && NoOpenChar(t, 0, |p|)
            && OpenAt(t, |p|)
            && NoOpenChar(t, b, c)
            && CloseAt(t, c)
            && NoOpenChar(t, c + |CloseTag|, |t|)
            && t[0..|p|] == p && t[b..c] == inner && t[c + |CloseTag|..|t|] == q
            && (NoTerminatorIn(t, b, c) <==> NoTerminator(inner))
  {
    var t := p + OpenTag + inner + CloseTag + q;
    var b := |p| + |OpenTag|;
    var c := b + |inner|;
    var d := c + |CloseTag|;
    assert forall k | 0 <= k < |p| :: t[k] == p[k];
    assert forall j | 0 <= j < |OpenTag| :: t[|p| + j] == OpenTag[j];
    assert forall k | 0 <= k < |inner| :: t[b + k] == inner[k];
    assert forall j | 0 <= j < |CloseTag| :: t[c + j] == CloseTag[j];
    assert forall k | 0 <= k < |q| :: t[d + k] == q[k];
    assert t[0..|p|] == p;
    assert t[b..c] == inner;
    assert t[d..|t|] == q;
  }

  /** An opening tag, text without `<` or line terminator, and a closing
      tag make a match. */
  lemma MatchAtPair(t: string, a: nat, c: nat)
    requires a + |OpenTag| <= c && OpenAt(t, a) && CloseAt(t, c)
    requires NoOpenChar(t, a + |OpenTag|, c) && NoTerminatorIn(t, a + |OpenTag|, c)
    ensures MatchAt(t, a) == Some(c)
  {
    FirstCloseAcross(t, a + |OpenTag|, c);
  }

  /** `exec` stops where a match starts. */
  lemma NextMatchHere(t: string, a: nat, c: nat)
    requires a < |t| && MatchAt(t, a) == Some(c)
    ensures NextMatch(t, a) == Some(Span(a, c))
  {
  }

  /** Before the first `<`, `exec` finds the match that starts there. */
  lemma FirstMatchAt(t: string, a: nat, c: nat)
    requires a < |t| && NoOpenChar(t, 0, a) && MatchAt(t, a) == Some(c)
    ensures NextMatch(t, 0) == Some(Span(a, c))
  {
    NextMatchHere(t, a, c);
    NextMatchAcrossPlain(t, 0, a);
  }

  /** After the last `<`, `exec` finds nothing. */
  lemma NoMatchAfter(t: string, d: nat)
    requires d <= |t| && NoOpenChar(t, d, |t|)
    ensures NextMatch(t, d).None?
  {
    NextMatchAcrossPlain(t, d, |t|);
  }

  /** A first match and nothing after it: the scan finds that match alone. */
  lemma MatchesSingle(t: string, m: Span)
    requires NextMatch(t, 0) == Some(m)
    requires m.close + |CloseTag| <= |t| && NextMatch(t, m.close + |CloseTag|).None?
    ensures Matches(t) == [m]
  {
    MatchesFromStep(t, 0, m);
    assert MatchesFrom(t, m.close + |CloseTag|) == [];
    assert [m] + [] == [m];
  }

  /** The match at the first `<` is the only one when `exec` finds nothing
      after it. */
  lemma FirstOfOne(t: string, a: nat, c: nat)
    requires a < |t| && NoOpenChar(t, 0, a) && MatchAt(t, a) == Some(c)
    requires c + |CloseTag| <= |t| && NextMatch(t, c + |CloseTag|).None?
    ensures Matches(t) == [Span(a, c)]
  {
    FirstMatchAt(t, a, c);
    MatchesSingle(t, Span(a, c));
  }

  /** The scan finds just the match at `a` when the only `<` are at `a`
      and inside that match. */
  lemma SingleScan(t: string, a: nat, c: nat)
    requires a < |t| && NoOpenChar(t, 0, a) && MatchAt(t, a) == Some(c)
    requires c + |CloseTag| <= |t| && NoOpenChar(t, c + |CloseTag|, |t|)
    ensures Matches(t) == [Span(a, c)]
  {
    NoMatchAfter(t, c + |CloseTag|);
    FirstOfOne(t, a, c);
  }

  /** The scan finds exactly one match when the text has one tag pair with
      no line terminator between the tags and no other `<` outside it. */
  lemma OneMatchAt(t: string, a: nat, c: nat)
    requires a + |OpenTag| <= c && c + |CloseTag| <= |t|
    requires NoOpenChar(t, 0, a) && OpenAt(t, a)
    requires NoOpenChar(t, a + |OpenTag|, c) && CloseAt(t, c) && NoTerminatorIn(t, a + |OpenTag|, c)
    requires NoOpenChar(t, c + |CloseTag|, |t|)
    ensures Matches(t) == [Span(a, c)]
  {
    MatchAtPair(t, a, c);
    SingleScan(t, a, c);
  }

  /** With a single match, the loop runs one round and then emits the tail. */
  lemma RenderOneMatch(t: string, m: Span)
    requires Matches(t) == [m]
    ensures m.open + |OpenTag| <= m.close && m.close + |CloseTag| <= |t|
    ensures Render(t) == Literal(t, 0, m.open) + [Strong(Inner(t, m))] + Literal(t, m.close + |CloseTag|, |t|)
  {
    assert SpansFrom(t, Matches(t), 0);
    assert [m] + [] == Matches(t);
    AssembleCons(t, m, [], 0);
  }

  /** The literal nodes of a span are its lines, or nothing if it is empty. */
  lemma LiteralIs(t: string, x: nat, y: nat, s: string)
    requires x <= y <= |t| && t[x..y] == s
    ensures Literal(t, x, y) == if |s| == 0 then [] else Lines(s)
  {
  }

  /** A text with one tag pair and no other `<`, read as the pieces
      before, between and after the tags. */
  lemma RenderPairIn(t: string, a: nat, c: nat, p: string, inner: string, q: string)
    requires a + |OpenTag| <= c && c + |CloseTag| <= |t|
    requires NoOpenChar(t, 0, a) && OpenAt(t, a)
    requires NoOpenChar(t, a + |OpenTag|, c) && CloseAt(t, c) && NoTerminatorIn(t, a + |OpenTag|, c)
    requires NoOpenChar(t, c + |CloseTag|, |t|)
    requires t[0..a] == p && t[a + |OpenTag|..c] == inner && t[c + |CloseTag|..|t|] == q
    ensures Render(t) == (if |p| == 0 then [] else Lines(p)) + [Strong(inner)] + (if |q| == 0 then [] else Lines(q))
  {
    OneMatchAt(t, a, c);
    RenderOneMatch(t, Span(a, c));
    LiteralIs(t, 0, a, p);
    LiteralIs(t, c + |CloseTag|, |t|, q);
  }

  /** A message holding one `<strong>…</strong>` pair, with no other `<` and
      no line terminator inside the pair, renders as the text before it, one
      `<strong>` with the inner text, and the text after it. */
  lemma RenderOnePair(p: string, inner: string, q: string)
    requires '<' !in p && '<' !in inner && '<' !in q && NoTerminator(inner)
    ensures Render(p + OpenTag + inner + CloseTag + q)
         == (if |p| == 0 then [] else Lines(p)) + [Strong(inner)] + (if |q| == 0 then [] else Lines(q))
  {
    PairLayout(p, inner, q);
    RenderPairIn(p + OpenTag + inner + CloseTag + q, |p|, |p| + |OpenTag| + |inner|, p, inner, q);
  }

  /** A line terminator between an opening tag and the first closing tag
      after it: no match starts at the opening tag. */
  lemma BrokenMatchAt(t: string, a: nat, c: nat)
    requires a + |OpenTag| <= c && CloseAt(t, c)
    requires NoOpenChar(t, a + |OpenTag|, c) && !NoTerminatorIn(t, a + |OpenTag|, c)
    ensures MatchAt(t, a).None?
  {
    FirstCloseAcross(t, a + |OpenTag|, c);
  }

  /** A closing tag is not an opening one: its second character is `/`. */
  lemma NoMatchAtClose(t: string, c: nat)
    requires CloseAt(t, c)
    ensures MatchAt(t, c).None?
  {
    assert CloseTag[1] == '/' && CloseTagUpper[1] == '/';
    assert OpenTag[1] == 's' && OpenTagUpper[1] == 'S';
  }

  /** `exec` runs across text without `<` and then one position where no
      match starts. */
  lemma NextMatchPast(t: string, from: nat, a: nat)
    requires from <= a < |t| && NoOpenChar(t, from, a) && MatchAt(t, a).None?
    ensures NextMatch(t, from) == NextMatch(t, a + 1)
  {
    NextMatchAcrossPlain(t, from, a);
    NextMatchSkips(t, a);
  }

  /** Without a match the whole message goes through
      `appendTextWithLineBreaks`. */
  lemma RenderNoMatch(t: string)
    requires NextMatch(t, 0).None?
    ensures Render(t) == if |t| == 0 then [] else Lines(t)
  {
    assert Matches(t) == [];
    assert t[0..|t|] == t;
  }

  /** In a tag pair broken by a line terminator, the only `<` are the first
      characters of the tags, and no match starts at either. */
  lemma BrokenPairStarts(t: string, a: nat, c: nat)
    requires a + |OpenTag| <= c && c + |CloseTag| <= |t|
    requires OpenAt(t, a)
    requires NoOpenChar(t, a + |OpenTag|, c) && CloseAt(t, c) && !NoTerminatorIn(t, a + |OpenTag|, c)
    ensures MatchAt(t, a).None? && MatchAt(t, c).None?
    ensures NoOpenChar(t, a + 1, c)
  {
    BrokenMatchAt(t, a, c);
    NoMatchAtClose(t, c);
    TagTailsHaveNoLt();
    TagTailNoOpen(t, a, OpenTag, OpenTagUpper);
  }

  /** If `exec` finds nothing from `a + 1` on, and nothing starts at `a`
      or in the `<`-free text before it, it finds nothing from `from` on. */
  lemma ScanNone(t: string, from: nat, a: nat)
    requires from <= a < |t| && NoOpenChar(t, from, a) && MatchAt(t, a).None?
    requires NextMatch(t, a + 1).None?
    ensures NextMatch(t, from).None?
  {
    NextMatchPast(t, from, a);
  }

  /** `exec` finds nothing in text whose only `<` are at `a` and `c`, where
      no match starts. */
  lemma ScanPastTwo(t: string, a: nat, c: nat)
    requires a < c < |t|
    requires NoOpenChar(t, 0, a) && MatchAt(t, a).None?
    requires NoOpenChar(t, a + 1, c) && MatchAt(t, c).None?
    requires NoOpenChar(t, c + 1, |t|)
    ensures NextMatch(t, 0).None?
  {
    NoMatchAfter(t, c + 1);
    ScanNone(t, a + 1, c);
    ScanNone(t, 0, a);
  }

  /** The scan finds nothing when the text's one tag pair has a line
      terminator between the tags and there is no other `<`. */
  lemma BrokenPairAt(t: string, a: nat, c: nat)
    requires a + |OpenTag| <= c && c + |CloseTag| <= |t|
    requires NoOpenChar(t, 0, a) && OpenAt(t, a)
    requires NoOpenChar(t, a + |OpenTag|, c) && CloseAt(t, c) && !NoTerminatorIn(t, a + |OpenTag|, c)
    requires NoOpenChar(t, c + |CloseTag|, |t|)
    ensures NextMatch(t, 0).None?
  {
    BrokenPairStarts(t, a, c);
    TagTailsHaveNoLt();
    TagTailNoOpen(t, c, CloseTag, CloseTagUpper);
    ScanPastTwo(t, a, c);
  }

  /** A line terminator between the tags breaks the match: the whole message
      is rendered as literal lines, tags included, with no `<strong>`. */
  lemma RenderBrokenPair(p: string, inner: string, q: string)
    requires '<' !in p && '<' !in inner && '<' !in q && !NoTerminator(inner)
    ensures Render(p + OpenTag + inner + CloseTag + q) == Lines(p + OpenTag + inner + CloseTag + q)
  {
    var t := p + OpenTag + inner + CloseTag + q;
    PairLayout(p, inner, q);
    BrokenPairAt(t, |p|, |p| + |OpenTag| + |inner|);
    RenderNoMatch(t);
  }
}
