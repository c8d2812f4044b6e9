/** What the renderer of `appendMessage` promises about its output: reading
    the nodes back gives the message with exactly the matched tags removed,
    there is one `<strong>` per match holding the match's inner text, and
    there is one `<br>` per line feed of the message. */
module RenderFacts {
  import opened Wrappers
  import opened JsStrings
  import opened Markup

  /** The text a node shows: a `<br>` shows as a line feed. */
  function NodeText(n: Node): string {
    match n
    case Text(s) => s
    case Br => "\n"
    case Strong(s) => s
  }

  /** The text the nodes show, in order. */
  function Flatten(ns: seq<Node>): string {
    if |ns| == 0 then "" else NodeText(ns[0]) + Flatten(ns[1..])
  }

  /** Number of `<br>` nodes. */
  function CountBr(ns: seq<Node>): nat {
    if |ns| == 0 then 0 else (if ns[0].Br? then 1 else 0) + CountBr(ns[1..])
  }

  /** The contents of the `<strong>` nodes, in order. */
  function Strongs(ns: seq<Node>): seq<string> {
    if |ns| == 0 then [] else (if ns[0].Strong? then [ns[0].s] else []) + Strongs(ns[1..])
  }

  /** No text or emphasis node holds a line feed: every line feed shown is a `<br>`. */
  predicate NoRawNewline(ns: seq<Node>) {
    |ns| == 0 || ((ns[0].Br? || Count(ns[0].s, '\n') == 0) && NoRawNewline(ns[1..]))
  }

  lemma {:induction false} FlattenAppend(a: seq<Node>, b: seq<Node>)
    ensures Flatten(a + b) == Flatten(a) + Flatten(b)
  {
    if |a| > 0 {
      assert (a + b)[1..] == a[1..] + b;
      FlattenAppend(a[1..], b);
    } else {
      assert a + b == b;
    }
  }

  lemma {:induction false} CountBrAppend(a: seq<Node>, b: seq<Node>)
    ensures CountBr(a + b) == CountBr(a) + CountBr(b)
  {
    if |a| > 0 {
      assert (a + b)[1..] == a[1..] + b;
      CountBrAppend(a[1..], b);
    } else {
      assert a + b == b;
    }
  }

  lemma {:induction false} StrongsAppend(a: seq<Node>, b: seq<Node>)
    ensures Strongs(a + b) == Strongs(a) + Strongs(b)
  {
    if |a| > 0 {
      assert (a + b)[1..] == a[1..] + b;
      StrongsAppend(a[1..], b);
    } else {
      assert a + b == b;
    }
  }

  /** When every line feed shown is a `<br>`, the `<br>` count is the line
      feed count of the shown text. */
  lemma {:induction false} CountBrIsNewlines(ns: seq<Node>)
    requires NoRawNewline(ns)
    ensures CountBr(ns) == Count(Flatten(ns), '\n')
  {
    if |ns| > 0 {
      CountBrIsNewlines(ns[1..]);
      CountAppend(NodeText(ns[0]), Flatten(ns[1..]), '\n');
      assert ns[0].Br? ==> Count(NodeText(ns[0]), '\n') == 1 by {
        if ns[0].Br? {
          assert Count(NodeText(ns[0])[1..], '\n') == 0;
        }
      }
    }
  }

  /** Each line after the first reads back as a line feed and the line. */
  lemma {:induction false} FlattenBreakLines(first: string, parts: seq<string>)
    decreases |parts|
    ensures first + Flatten(BreakLines(parts)) == Join([first] + parts, '\n')
  {
    if |parts| == 0 {
      assert first + "" == first;
    } else {
      var tail := BreakLines(parts[1..]);
      FlattenBreakLines(parts[0], parts[1..]);
      assert ([parts[0]] + parts[1..]) == parts;
      FlattenAppend([Br, Text(parts[0])], tail);
      assert Flatten([Br, Text(parts[0])]) == "\n" + parts[0];
      assert ([first] + parts)[1..] == parts;
    }
  }

  /** The lines of a span read back as the span. */
  lemma FlattenLines(s: string)
    ensures Flatten(Lines(s)) == s
  {
    var parts := Split(s, '\n');
    FlattenBreakLines(parts[0], parts[1..]);
    FlattenAppend([Text(parts[0])], BreakLines(parts[1..]));
    assert [parts[0]] + parts[1..] == parts;
    JoinSplit(s, '\n');
  }

  /** The lines of a span hold no `<strong>`, no raw line feed, and one
      `<br>` per line feed of the span. */
  lemma {:induction false} BreakLinesFacts(parts: seq<string>)
    requires forall i | 0 <= i < |parts| :: '\n' !in parts[i]
    ensures Strongs(BreakLines(parts)) == []
    ensures CountBr(BreakLines(parts)) == |parts|
    ensures NoRawNewline(BreakLines(parts))
  {
    if |parts| > 0 {
      var tail := BreakLines(parts[1..]);
      BreakLinesFacts(parts[1..]);
      StrongsAppend([Br, Text(parts[0])], tail);
      CountBrAppend([Br, Text(parts[0])], tail);
      CountZero(parts[0], '\n');
      assert NoRawNewline([Text(parts[0])]);
      NoRawNewlineAppend([Br, Text(parts[0])], tail);
    }
  }

  lemma LinesFacts(s: string)
    ensures Strongs(Lines(s)) == []
    ensures CountBr(Lines(s)) == Count(s, '\n')
    ensures NoRawNewline(Lines(s))
  {
    var parts := Split(s, '\n');
    SplitPartsFree(s, '\n');
    assert forall i | 0 <= i < |parts[1..]| :: parts[1..][i] == parts[i + 1];
    BreakLinesFacts(parts[1..]);
    StrongsAppend([Text(parts[0])], BreakLines(parts[1..]));
    CountBrAppend([Text(parts[0])], BreakLines(parts[1..]));
    CountZero(parts[0], '\n');
    assert NoRawNewline([Text(parts[0])]);
    NoRawNewlineAppend([Text(parts[0])], BreakLines(parts[1..]));
  }

  lemma {:induction false} NoRawNewlineAppend(a: seq<Node>, b: seq<Node>)
    requires NoRawNewline(a) && NoRawNewline(b)
    ensures NoRawNewline(a + b)
  {
    if |a| > 0 {
      assert (a + b)[1..] == a[1..] + b;
      NoRawNewlineAppend(a[1..], b);
    } else {
      assert a + b == b;
    }
  }


  /** The text from `last` on with the two tags of each span deleted. */
  function Unwrap(t: string, ms: seq<Span>, last: nat): string
    requires last <= |t| && SpansFrom(t, ms, last)
    decreases |ms|
  {
    if |ms| == 0 then t[last..]
    else t[last..ms[0].open] + Inner(t, ms[0]) + Unwrap(t, ms[1..], ms[0].close + |CloseTag|)
  }

  lemma UnwrapStep(t: string, ms: seq<Span>, last: nat)
    requires last <= |t| && SpansFrom(t, ms, last) && |ms| > 0
    ensures Unwrap(t, ms, last) == t[last..ms[0].open] + Inner(t, ms[0]) + Unwrap(t, ms[1..], ms[0].close + |CloseTag|)
  {
  }

  /** Deleting the tags removes exactly their characters: 17 per span. */
  lemma {:induction false} UnwrapLength(t: string, ms: seq<Span>, last: nat)
    requires last <= |t| && SpansFrom(t, ms, last)
    decreases |ms|
    ensures |Unwrap(t, ms, last)| == |t| - last - (|OpenTag| + |CloseTag|) * |ms|
  {
    if |ms| > 0 {
      UnwrapStep(t, ms, last);
      UnwrapLength(t, ms[1..], ms[0].close + |CloseTag|);
    }
  }

  /** The inner texts of the spans, `match[1]` of each. */
  function Inners(t: string, ms: seq<Span>, last: nat): (r: seq<string>)
    requires last <= |t| && SpansFrom(t, ms, last)
    decreases |ms|
    ensures |r| == |ms|
  {
    if |ms| == 0 then []
    else [Inner(t, ms[0])] + Inners(t, ms[1..], ms[0].close + |CloseTag|)
  }

  /** A piece of the message as the loop of `appendMessage` cuts it: a
      literal span between matches, or the inner text of a match. */
  datatype Segment = Plain(s: string) | Bold(s: string)

  /** The segments from `last` on: a literal and a bold segment per span,
      then the trailing literal. */
  function Segments(t: string, ms: seq<Span>, last: nat): seq<Segment>
    requires last <= |t| && SpansFrom(t, ms, last)
    decreases |ms|
  {
    if |ms| == 0 then [Plain(t[last..])]
    else [Plain(t[last..ms[0].open]), Bold(Inner(t, ms[0]))] + Segments(t, ms[1..], ms[0].close + |CloseTag|)
  }

  lemma SegmentsStep(t: string, ms: seq<Span>, last: nat)
    requires last <= |t| && SpansFrom(t, ms, last) && |ms| > 0
    ensures Segments(t, ms, last)
         == [Plain(t[last..ms[0].open]), Bold(Inner(t, ms[0]))] + Segments(t, ms[1..], ms[0].close + |CloseTag|)
  {
  }

  /** The nodes of a segment: a non-empty literal goes through
      `appendTextWithLineBreaks`, an empty one adds nothing, a match's inner
      text becomes a `<strong>`. */
  function SegmentNodes(g: Segment): seq<Node> {
    match g
    case Plain(s) => if |s| == 0 then [] else Lines(s)
    case Bold(s) => [Strong(s)]
  }

  function Expand(gs: seq<Segment>): seq<Node> {
    if |gs| == 0 then [] else SegmentNodes(gs[0]) + Expand(gs[1..])
  }

  lemma ExpandCons2(a: Segment, b: Segment, rest: seq<Segment>)
    ensures Expand([a, b] + rest) == SegmentNodes(a) + (SegmentNodes(b) + Expand(rest))
  {
    assert ([a, b] + rest)[1..] == [b] + rest;
    assert ([b] + rest)[1..] == rest;
  }

  /** The literal span of the loop is the nodes of its segment. */
  lemma LiteralNodes(t: string, last: nat, end: nat)
    requires last <= end <= |t|
    ensures Literal(t, last, end) == SegmentNodes(Plain(t[last..end]))
  {
  }

  /** A round of the loop is the nodes of its two segments. */
  lemma RoundNodes(t: string, last: nat, m: Span)
    requires last <= m.open && m.open + |OpenTag| <= m.close <= |t|
    ensures LoopRound(t, last, m) == SegmentNodes(Plain(t[last..m.open])) + SegmentNodes(Bold(Inner(t, m)))
  {
    LiteralNodes(t, last, m.open);
  }

  lemma AssembleUnfold(t: string, ms: seq<Span>, last: nat)
    requires last <= |t| && SpansFrom(t, ms, last) && |ms| > 0
    ensures Assemble(t, ms, last) == LoopRound(t, last, ms[0]) + Assemble(t, ms[1..], ms[0].close + |CloseTag|)
  {
  }

  /** The segments from `last` on expand to the first round of the loop
      followed by the expansion of the segments after it. */
  lemma ExpandSegmentsStep(t: string, ms: seq<Span>, last: nat)
    requires last <= |t| && SpansFrom(t, ms, last) && |ms| > 0
    ensures Expand(Segments(t, ms, last))
         == LoopRound(t, last, ms[0]) + Expand(Segments(t, ms[1..], ms[0].close + |CloseTag|))
  {
    var a, b := Plain(t[last..ms[0].open]), Bold(Inner(t, ms[0]));
    var rest := Segments(t, ms[1..], ms[0].close + |CloseTag|);
    SegmentsStep(t, ms, last);
    RoundNodes(t, last, ms[0]);
    ExpandCons2(a, b, rest);
    AppendAssoc(SegmentNodes(a), SegmentNodes(b), Expand(rest));
  }

  /** The loop's output is the nodes of the segments, one after another. */
  lemma {:induction false} AssembleSegments(t: string, ms: seq<Span>, last: nat)
    requires last <= |t| && SpansFrom(t, ms, last)
    decreases |ms|
    ensures Assemble(t, ms, last) == Expand(Segments(t, ms, last))
  {
    if |ms| == 0 {
      LiteralNodes(t, last, |t|);
      assert t[last..|t|] == t[last..];
      assert Expand([Plain(t[last..])]) == SegmentNodes(Plain(t[last..])) + [];
    } else {
      AssembleSegments(t, ms[1..], ms[0].close + |CloseTag|);
      AssembleUnfold(t, ms, last);
      ExpandSegmentsStep(t, ms, last);
    }
  }

  /** The text of the segments, one after another. */
  function SegText(gs: seq<Segment>): string {
    if |gs| == 0 then "" else gs[0].s + SegText(gs[1..])
  }

  /** The texts of the bold segments, in order. */
  function Bolds(gs: seq<Segment>): seq<string> {
    if |gs| == 0 then [] else (if gs[0].Bold? then [gs[0].s] else []) + Bolds(gs[1..])
  }

  /** No bold segment holds a line feed. */
  predicate BoldsPlain(gs: seq<Segment>) {
    |gs| == 0 || ((gs[0].Plain? || Count(gs[0].s, '\n') == 0) && BoldsPlain(gs[1..]))
  }

  /** A segment's nodes read back as its text. */
  lemma FlattenSegment(g: Segment)
    ensures Flatten(SegmentNodes(g)) == g.s
  {
    match g
    case Plain(s) =>
      if |s| > 0 {
        FlattenLines(s);
      }
    case Bold(s) =>
      assert Flatten([Strong(s)]) == s + "";
  }

  /** A segment's nodes hold a `<strong>` exactly when it is bold. */
  lemma StrongsSegment(g: Segment)
    ensures Strongs(SegmentNodes(g)) == if g.Bold? then [g.s] else []
  {
    match g
    case Plain(s) =>
      if |s| > 0 {
        LinesFacts(s);
      }
    case Bold(s) =>
      assert Strongs([Strong(s)]) == [s] + [];
  }

  lemma NoRawNewlineSegment(g: Segment)
    requires g.Plain? || Count(g.s, '\n') == 0
    ensures NoRawNewline(SegmentNodes(g))
  {
    if g.Plain? && |g.s| > 0 {
      LinesFacts(g.s);
    }
  }

  lemma {:induction false} FlattenExpand(gs: seq<Segment>)
    ensures Flatten(Expand(gs)) == SegText(gs)
  {
    if |gs| > 0 {
      FlattenExpand(gs[1..]);
      FlattenSegment(gs[0]);
      FlattenAppend(SegmentNodes(gs[0]), Expand(gs[1..]));
    }
  }

  lemma {:induction false} StrongsExpand(gs: seq<Segment>)
    ensures Strongs(Expand(gs)) == Bolds(gs)
  {
    if |gs| > 0 {
      StrongsExpand(gs[1..]);
      StrongsSegment(gs[0]);
      StrongsAppend(SegmentNodes(gs[0]), Expand(gs[1..]));
    }
  }

  lemma {:induction false} NoRawNewlineExpand(gs: seq<Segment>)
    requires BoldsPlain(gs)
    ensures NoRawNewline(Expand(gs))
  {
    if |gs| > 0 {
      NoRawNewlineExpand(gs[1..]);
      NoRawNewlineSegment(gs[0]);
      NoRawNewlineAppend(SegmentNodes(gs[0]), Expand(gs[1..]));
    }
  }

  lemma SegTextCons2(a: Segment, b: Segment, rest: seq<Segment>)
    ensures SegText([a, b] + rest) == a.s + (b.s + SegText(rest))
  {
    assert ([a, b] + rest)[1..] == [b] + rest;
    assert ([b] + rest)[1..] == rest;
  }

  lemma BoldsCons2(a: string, b: string, rest: seq<Segment>)
    ensures Bolds([Plain(a), Bold(b)] + rest) == [b] + Bolds(rest)
  {
    assert ([Plain(a), Bold(b)] + rest)[1..] == [Bold(b)] + rest;
    assert ([Bold(b)] + rest)[1..] == rest;
  }

  lemma BoldsPlainCons2(a: string, b: string, rest: seq<Segment>)
    requires Count(b, '\n') == 0 && BoldsPlain(rest)
    ensures BoldsPlain([Plain(a), Bold(b)] + rest)
  {
    assert ([Plain(a), Bold(b)] + rest)[1..] == [Bold(b)] + rest;
    assert ([Bold(b)] + rest)[1..] == rest;
  }

  /** The segments' text is the text with the spans' tags deleted. */
  lemma {:induction false} SegTextUnwrap(t: string, ms: seq<Span>, last: nat)
    requires last <= |t| && SpansFrom(t, ms, last)
    decreases |ms|
    ensures SegText(Segments(t, ms, last)) == Unwrap(t, ms, last)
  {
    if |ms| == 0 {
      assert SegText([Plain(t[last..])]) == t[last..] + "";
    } else {
      var m, last' := ms[0], ms[0].close + |CloseTag|;
      var a, b, rest := t[last..m.open], Inner(t, m), Segments(t, ms[1..], last');
      SegTextUnwrap(t, ms[1..], last');
      SegmentsStep(t, ms, last);
      UnwrapStep(t, ms, last);
      calc {
        SegText(Segments(t, ms, last));
        SegText([Plain(a), Bold(b)] + rest);
        { SegTextCons2(Plain(a), Bold(b), rest); }
        a + (b + SegText(rest));
        { AppendAssoc(a, b, SegText(rest)); }
        a + b + Unwrap(t, ms[1..], last');
      }
    }
  }

  /** The bold segments hold the spans' inner texts. */
  lemma {:induction false} BoldsInners(t: string, ms: seq<Span>, last: nat)
    requires last <= |t| && SpansFrom(t, ms, last)
    decreases |ms|
    ensures Bolds(Segments(t, ms, last)) == Inners(t, ms, last)
  {
    if |ms| == 0 {
      assert Bolds([Plain(t[last..])]) == [] + [];
    } else {
      var m, last' := ms[0], ms[0].close + |CloseTag|;
      BoldsInners(t, ms[1..], last');
      SegmentsStep(t, ms, last);
      BoldsCons2(t[last..m.open], Inner(t, m), Segments(t, ms[1..], last'));
    }
  }

  /** A tag holds no line feed. */
  lemma TagHasNoNewline(t: string, i: nat, lower: string, upper: string)
    requires TagAt(t, i, lower, upper) && '\n' !in lower && '\n' !in upper
    ensures Count(t[i..i + |lower|], '\n') == 0
  {
    var tag := t[i..i + |lower|];
    forall k | 0 <= k < |tag| ensures tag[k] != '\n' {
      assert tag[k] == t[i + k];
      assert t[i + k] == lower[k] || t[i + k] == upper[k];
    }
    CountZero(tag, '\n');
  }

  /** The inner text of a match holds no line feed, since `.` matches none. */
  lemma InnerHasNoNewline(t: string, m: Span)
    requires m.open + |OpenTag| <= m.close <= |t|
    requires NoTerminatorIn(t, m.open + |OpenTag|, m.close)
    ensures Count(Inner(t, m), '\n') == 0
  {
    var inner := Inner(t, m);
    forall k | 0 <= k < |inner| ensures inner[k] != '\n' {
      assert inner[k] == t[m.open + |OpenTag| + k];
    }
    CountZero(inner, '\n');
  }

  /** A match holds no more line feeds than its inner text, that is none. */
  lemma MatchNewlines(t: string, m: Span)
    requires m.open + |OpenTag| <= m.close && m.close + |CloseTag| <= |t|
    requires IsRegexMatch(t, m.open, m.close)
    ensures Count(t[m.open..m.close + |CloseTag|], '\n') == 0
  {
    var a, b, c, d := m.open, m.open + |OpenTag|, m.close, m.close + |CloseTag|;
    InnerHasNoNewline(t, m);
    assert Inner(t, m) == t[b..c];
    TagHasNoNewline(t, a, OpenTag, OpenTagUpper);
    TagHasNoNewline(t, c, CloseTag, CloseTagUpper);
    CountSlices(t, a, b, d);
    CountSlices(t, b, c, d);
  }

  /** Counting over a cut range is counting over the two halves. */
  lemma CountSlices(t: string, a: nat, b: nat, c: nat)
    requires a <= b <= c <= |t|
    ensures Count(t[a..c], '\n') == Count(t[a..b], '\n') + Count(t[b..c], '\n')
  {
    assert t[a..c] == t[a..b] + t[b..c];
    CountAppend(t[a..b], t[b..c], '\n');
  }

  /** Counting over a cut suffix is counting over the two halves. */
  lemma CountSuffix(t: string, a: nat, b: nat)
    requires a <= b <= |t|
    ensures Count(t[a..], '\n') == Count(t[a..b], '\n') + Count(t[b..], '\n')
  {
    assert t[a..] == t[a..b] + t[b..];
    CountAppend(t[a..b], t[b..], '\n');
  }

  /** A span with no line feed in it, tags and inner text alike. */
  predicate PlainSpan(t: string, m: Span) {
    && m.open + |OpenTag| <= m.close
    && m.close + |CloseTag| <= |t|
    && Count(t[m.open..m.close + |CloseTag|], '\n') == 0
    && Count(Inner(t, m), '\n') == 0
  }

  predicate PlainSpans(t: string, ms: seq<Span>) {
    forall j | 0 <= j < |ms| :: PlainSpan(t, ms[j])
  }

  lemma PlainSpansTail(t: string, ms: seq<Span>)
    requires |ms| > 0 && PlainSpans(t, ms)
    ensures PlainSpan(t, ms[0]) && PlainSpans(t, ms[1..])
  {
    assert forall j | 0 <= j < |ms| - 1 :: ms[1..][j] == ms[j + 1];
  }

  /** A match of the expression holds no line feed. */
  lemma MatchIsPlain(t: string, m: Span)
    requires MatchAt(t, m.open) == Some(m.close)
    ensures PlainSpan(t, m)
  {
    MatchAtIsMatch(t, m.open);
    MatchNewlines(t, m);
    InnerHasNoNewline(t, m);
  }

  /** The matches the scan finds hold no line feed. */
  lemma MatchesArePlain(t: string, last: nat)
    requires last <= |t|
    ensures PlainSpans(t, MatchesFrom(t, last))
  {
    var ms := MatchesFrom(t, last);
    MatchesFromAreMatches(t, last);
    forall j | 0 <= j < |ms| ensures PlainSpan(t, ms[j]) {
      MatchIsPlain(t, ms[j]);
    }
  }

  /** Across the first span the line feeds of the unwrapped text and of the
      text itself both come from the literal span before it. */
  lemma UnwrapNewlinesStep(t: string, ms: seq<Span>, last: nat)
    requires last <= |t| && SpansFrom(t, ms, last) && |ms| > 0 && PlainSpan(t, ms[0])
    ensures Count(Unwrap(t, ms, last), '\n')
         == Count(t[last..ms[0].open], '\n') + Count(Unwrap(t, ms[1..], ms[0].close + |CloseTag|), '\n')
    ensures Count(t[last..], '\n')
         == Count(t[last..ms[0].open], '\n') + Count(t[ms[0].close + |CloseTag|..], '\n')
  {
    var m := ms[0];
    var last' := m.close + |CloseTag|;
    var before, inner, after := t[last..m.open], Inner(t, m), Unwrap(t, ms[1..], last');
    UnwrapStep(t, ms, last);
    CountAppend(before + inner, after, '\n');
    CountAppend(before, inner, '\n');
    CountSuffix(t, last, m.open);
    CountSuffix(t, m.open, last');
  }

  /** Deleting the tags of matches deletes no line feed. */
  lemma {:induction false} UnwrapNewlines(t: string, ms: seq<Span>, last: nat)
    requires last <= |t| && SpansFrom(t, ms, last) && PlainSpans(t, ms)
    decreases |ms|
    ensures Count(Unwrap(t, ms, last), '\n') == Count(t[last..], '\n')
  {
    if |ms| > 0 {
      PlainSpansTail(t, ms);
      UnwrapNewlines(t, ms[1..], ms[0].close + |CloseTag|);
      UnwrapNewlinesStep(t, ms, last);
    }
  }

  /** The bold segments of spans without line feeds hold none. */
  lemma {:induction false} SegmentsPlain(t: string, ms: seq<Span>, last: nat)
    requires last <= |t| && SpansFrom(t, ms, last) && PlainSpans(t, ms)
    decreases |ms|
    ensures BoldsPlain(Segments(t, ms, last))
  {
    if |ms| == 0 {
      assert BoldsPlain([Plain(t[last..])]);
    } else {
      PlainSpansTail(t, ms);
      SegmentsPlain(t, ms[1..], ms[0].close + |CloseTag|);
      SegmentsPlainStep(t, ms, last);
    }
  }

  lemma SegmentsPlainStep(t: string, ms: seq<Span>, last: nat)
    requires last <= |t| && SpansFrom(t, ms, last) && |ms| > 0 && PlainSpan(t, ms[0])
    requires BoldsPlain(Segments(t, ms[1..], ms[0].close + |CloseTag|))
    ensures BoldsPlain(Segments(t, ms, last))
  {
    SegmentsStep(t, ms, last);
    BoldsPlainCons2(t[last..ms[0].open], Inner(t, ms[0]), Segments(t, ms[1..], ms[0].close + |CloseTag|));
  }

  /** Reading the rendered nodes back gives the message with exactly the
      tags of the matches removed, so it is 17 characters shorter per match. */
  lemma RenderReadsBack(t: string)
    ensures Flatten(Render(t)) == Unwrap(t, Matches(t), 0)
    ensures |Flatten(Render(t))| == |t| - (|OpenTag| + |CloseTag|) * |Matches(t)|
  {
    var ms := Matches(t);
    UnwrapLength(t, ms, 0);
    AssembleSegments(t, ms, 0);
    FlattenExpand(Segments(t, ms, 0));
    SegTextUnwrap(t, ms, 0);
  }

  /** One `<strong>` per match, in order, each holding the match's inner text. */
  lemma RenderStrongs(t: string)
    ensures Strongs(Render(t)) == Inners(t, Matches(t), 0)
    ensures |Strongs(Render(t))| == |Matches(t)|
  {
    var ms := Matches(t);
    AssembleSegments(t, ms, 0);
    StrongsExpand(Segments(t, ms, 0));
    BoldsInners(t, ms, 0);
  }

  /** One `<br>` per line feed of the message, and no line feed anywhere else. */
  lemma RenderBreaks(t: string)
    ensures NoRawNewline(Render(t))
    ensures CountBr(Render(t)) == Count(t, '\n')
  {
    var ms := Matches(t);
    MatchesArePlain(t, 0);
    SegmentsPlain(t, ms, 0);
    AssembleSegments(t, ms, 0);
    NoRawNewlineExpand(Segments(t, ms, 0));
    CountBrIsNewlines(Render(t));
    RenderReadsBack(t);
    UnwrapNewlines(t, ms, 0);
    assert t[0..] == t;
  }
}
