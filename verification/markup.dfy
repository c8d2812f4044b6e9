/** The safe message renderer of script.js: `appendMessage` scans a message for
    `/<strong>(.*?)<\/strong>/gi` matches and turns the text into a flat list
    of text, line-break and emphasis nodes (`appendTextWithLineBreaks` splits
    the literal spans at `\n`). No input can produce any other kind of node:
    the `Node` type has no other constructor. */
module Markup {
  import opened Wrappers
  import opened JsStrings

  /** The three DOM nodes the renderer creates: a text node, a `<br>` and a
      `<strong>` whose `textContent` is `s`. */
  datatype Node = Text(s: string) | Br | Strong(s: string)

  const OpenTag: string := "<strong>"
  const CloseTag: string := "</strong>"
  const OpenTagUpper: string := "<STRONG>"
  const CloseTagUpper: string := "</STRONG>"

  /** ASCII lower-casing. Under the `i` flag without `u`, a JavaScript regular
      expression compares characters by upper-casing them but refuses to map a
      non-ASCII character onto an ASCII one, so on the characters of the two
      tags the comparison is exactly ASCII case-insensitive. */
  function LowerAscii(c: char): (d: char)
    ensures ('A' <= c <= 'Z') == (d != c)
  {
    if 'A' <= c <= 'Z' then (c as int + 32) as char else c
  }

  /** The tag spelled `lower` (with `upper` its upper-case spelling) occurs
      at position `i` of `t`, each character in either case. */
  predicate TagAt(t: string, i: nat, lower: string, upper: string) {
    && i + |lower| <= |t|
    && |lower| <= |upper|
    && forall j {:trigger lower[j]} | 0 <= j < |lower| :: t[i + j] == lower[j] || t[i + j] == upper[j]
  }

  predicate OpenAt(t: string, i: nat) {
    TagAt(t, i, OpenTag, OpenTagUpper)
  }

  predicate CloseAt(t: string, i: nat) {
    TagAt(t, i, CloseTag, CloseTagUpper)
  }

  /** `u` is the upper-case partner of the lower-case or caseless `l`. */
  predicate CasePair(l: char, u: char) {
    && !('A' <= l <= 'Z')
    && if 'a' <= l <= 'z' then u as int == l as int - 32 else u == l
  }

  /** Comparing with `l` after ASCII lower-casing is comparing with `l` or `u`. */
  lemma CasePairMatches(c: char, l: char, u: char)
    requires CasePair(l, u)
    ensures LowerAscii(c) == l <==> c == l || c == u
  {
  }

  /** Reading a tag in either spelling is reading it ignoring ASCII case. */
  lemma TagAtIgnoresCase(t: string, i: nat, lower: string, upper: string)
    requires |lower| == |upper|
    requires forall j | 0 <= j < |lower| :: CasePair(lower[j], upper[j])
    ensures TagAt(t, i, lower, upper) <==>
              i + |lower| <= |t| && forall j | 0 <= j < |lower| :: LowerAscii(t[i + j]) == lower[j]
  {
    if i + |lower| <= |t| {
      forall j | 0 <= j < |lower| ensures LowerAscii(t[i + j]) == lower[j] <==> t[i + j] == lower[j] || t[i + j] == upper[j] {
        CasePairMatches(t[i + j], lower[j], upper[j]);
      }
    }
  }

  /** The two spellings of each tag are case partners, so `OpenAt` and
      `CloseAt` are the case-insensitive readings of the tags. */
  lemma TagsIgnoreCase(t: string, i: nat)
    ensures OpenAt(t, i) <==>
              i + |OpenTag| <= |t| && forall j | 0 <= j < |OpenTag| :: LowerAscii(t[i + j]) == OpenTag[j]
    ensures CloseAt(t, i) <==>
              i + |CloseTag| <= |t| && forall j | 0 <= j < |CloseTag| :: LowerAscii(t[i + j]) == CloseTag[j]
  {
    TagAtIgnoresCase(t, i, OpenTag, OpenTagUpper);
    TagAtIgnoresCase(t, i, CloseTag, CloseTagUpper);
  }

  predicate NoTerminator(s: string) {
    forall k | 0 <= k < |s| :: !IsLineTerminator(s[k])
  }

  /** No line terminator in `t[from..hi]`. */
  predicate NoTerminatorIn(t: string, from: nat, hi: nat) {
    forall k | from <= k < hi && k < |t| :: !IsLineTerminator(t[k])
  }

  /** The regular expression, read as a backtracking matcher would: an opening
      tag at `i`, a closing tag at `k`, and between them only characters that
      `.` matches. */
  predicate IsRegexMatch(t: string, i: nat, k: nat) {
    && OpenAt(t, i)
    && i + |OpenTag| <= k
    && CloseAt(t, k)
    && NoTerminatorIn(t, i + |OpenTag|, k)
  }

  /** Position of the first closing tag at or after `from`. */
  function FirstClose(t: string, from: nat): (r: Option<nat>)
    decreases |t| - from
    ensures r.Some? ==> from <= r.value && r.value + |CloseTag| <= |t|
  {
    if from + |CloseTag| > |t| then None
    else if CloseAt(t, from) then Some(from)
    else FirstClose(t, from + 1)
  }

  /** `FirstClose` finds a closing tag, and none comes before it. */
  lemma {:induction false} FirstCloseIsFirst(t: string, from: nat)
    decreases |t| - from
    ensures FirstClose(t, from).Some? ==> CloseAt(t, FirstClose(t, from).value)
    ensures forall p | from <= p && (FirstClose(t, from).None? || p < FirstClose(t, from).value)
              :: !CloseAt(t, p)
  {
    if from + |CloseTag| <= |t| && !CloseAt(t, from) {
      FirstCloseIsFirst(t, from + 1);
    }
  }

  /** Where the closing tag of a match at `i` begins, if the expression
      matches at `i`. The lazy `(.*?)` takes the first closing tag after the
      opening one, and the match fails if a line terminator comes first. */
  function MatchAt(t: string, i: nat): (r: Option<nat>)
    ensures r.Some? ==> i + |OpenTag| <= r.value && r.value + |CloseTag| <= |t|
  {
    if !OpenAt(t, i) then None
    else
      match FirstClose(t, i + |OpenTag|)
      case None => None
      case Some(k) =>
        if NoTerminatorIn(t, i + |OpenTag|, k) then Some(k) else None
  }

  /** `MatchAt` agrees with the backtracking reading of the expression: it
      finds a match exactly when there is one, and then the one whose closing
      tag comes first, as the lazy `(.*?)` demands. */
  lemma MatchAtIsLazyMatch(t: string, i: nat)
    ensures MatchAt(t, i).Some? ==> IsRegexMatch(t, i, MatchAt(t, i).value)
    ensures MatchAt(t, i).Some? ==>
              forall k | i + |OpenTag| <= k < MatchAt(t, i).value :: !IsRegexMatch(t, i, k)
    ensures MatchAt(t, i).None? ==> forall k :: !IsRegexMatch(t, i, k)
  {
    if OpenAt(t, i) {
      FirstCloseIsFirst(t, i + |OpenTag|);
    }
  }

  /** What `MatchAt` finds is a match of the expression. */
  lemma MatchAtIsMatch(t: string, i: nat)
    requires MatchAt(t, i).Some?
    ensures IsRegexMatch(t, i, MatchAt(t, i).value)
  {
    FirstCloseIsFirst(t, i + |OpenTag|);
  }

  /** A match found by `exec`: `open` is its index, `close` the index of its
      closing tag; the inner text is `t[open + 8..close]` and scanning goes on
      at `close + 9`. */
  datatype Span = Span(open: nat, close: nat)

  /** One `strongRegex.exec(text)` with `lastIndex == from`: a match starting
      at or after `from`. */
  function NextMatch(t: string, from: nat): (r: Option<Span>)
    decreases |t| - from
    ensures r.Some? ==> from <= r.value.open
    ensures r.Some? ==> r.value.open + |OpenTag| <= r.value.close && r.value.close + |CloseTag| <= |t|
  {
    if from >= |t| then None
    else
      match MatchAt(t, from)
      case Some(k) => Some(Span(from, k))
      case None => NextMatch(t, from + 1)
  }

  /** What `NextMatch` finds is a match. */
  lemma {:induction false} NextMatchFinds(t: string, from: nat)
    decreases |t| - from
    ensures NextMatch(t, from).Some? ==> MatchAt(t, NextMatch(t, from).value.open) == Some(NextMatch(t, from).value.close)
  {
    if from < |t| && MatchAt(t, from).None? {
      NextMatchFinds(t, from + 1);
      NextMatchSkips(t, from);
    }
  }

  /** Where no match starts, `exec` moves on to the next position. */
  lemma NextMatchSkips(t: string, from: nat)
    requires from < |t| && MatchAt(t, from).None?
    ensures NextMatch(t, from) == NextMatch(t, from + 1)
  {
  }

  /** No match starts at or beyond the end of the text. */
  lemma NoMatchPastEnd(t: string, p: nat)
    requires |t| <= p
    ensures MatchAt(t, p).None?
  {
  }

  /** The match `NextMatch` finds is the leftmost one: no match starts
      between `from` and it, and none at all after `from` when it finds none. */
  lemma {:induction false} NextMatchIsLeftmost(t: string, from: nat)
    decreases |t| - from
    ensures forall p | from <= p && (NextMatch(t, from).None? || p < NextMatch(t, from).value.open)
              :: MatchAt(t, p).None?
  {
    if from >= |t| {
      forall p | from <= p ensures MatchAt(t, p).None? {
        NoMatchPastEnd(t, p);
      }
    } else if MatchAt(t, from).None? {
      NextMatchIsLeftmost(t, from + 1);
      NextMatchSkips(t, from);
    }
  }

  /** The text between the tags of a match: `match[1]`. */
  function Inner(t: string, m: Span): string
    requires m.open + |OpenTag| <= m.close <= |t|
  {
    t[m.open + |OpenTag|..m.close]
  }

  /** `appendTextWithLineBreaks`: after the first part of `s.split('\n')`, each
      further part is preceded by a `<br>`. */
  function Lines(s: string): seq<Node> {
    var parts := Split(s, '\n');
    [Text(parts[0])] + BreakLines(parts[1..])
  }

  function BreakLines(parts: seq<string>): seq<Node> {
    if |parts| == 0 then [] else [Br, Text(parts[0])] + BreakLines(parts[1..])
  }

  /** The nodes for the literal span `t[last..end]`, which `appendMessage`
      only emits when the span is not empty. */
  function Literal(t: string, last: nat, end: nat): seq<Node>
    requires last <= end <= |t|
  {
    if last < end then Lines(t[last..end]) else []
  }

  /** One round of the segmentation loop: the literal span before the match,
      then the match's `<strong>`. */
  function LoopRound(t: string, last: nat, m: Span): seq<Node>
    requires last <= m.open && m.open + |OpenTag| <= m.close <= |t|
  {
    Literal(t, last, m.open) + [Strong(Inner(t, m))]
  }

  /** The nodes the segmentation loop emits from `lastIndex == last` on when
      `exec` returns the matches `ms`: a round per match, then the trailing
      span. */
  function Assemble(t: string, ms: seq<Span>, last: nat): seq<Node>
    requires last <= |t| && SpansFrom(t, ms, last)
    decreases |ms|
  {
    if |ms| == 0 then Literal(t, last, |t|)
    else LoopRound(t, last, ms[0]) + Assemble(t, ms[1..], ms[0].close + |CloseTag|)
  }

  /** The nodes `appendMessage(text)` puts into the message's `div`. */
  function Render(t: string): seq<Node> {
    Assemble(t, Matches(t), 0)
  }

  /** When `exec` finds `m`, the matches from `last` on are `m` and those
      after it. */
  lemma MatchesFromStep(t: string, last: nat, m: Span)
    requires last <= |t| && NextMatch(t, last) == Some(m)
    ensures m.close + |CloseTag| <= |t|
    ensures MatchesFrom(t, last) == [m] + MatchesFrom(t, m.close + |CloseTag|)
  {
  }

  /** Assembling from a first match is its round followed by the rest. */
  lemma AssembleCons(t: string, m: Span, rest: seq<Span>, last: nat)
    requires last <= |t| && SpansFrom(t, [m] + rest, last)
    ensures m.close + |CloseTag| <= |t| && SpansFrom(t, rest, m.close + |CloseTag|)
    ensures Assemble(t, [m] + rest, last) == LoopRound(t, last, m) + Assemble(t, rest, m.close + |CloseTag|)
  {
    assert ([m] + rest)[1..] == rest;
  }

  /** What is still to come before and after one round of the loop. */
  lemma AssembleStep(t: string, last: nat, m: Span)
    requires last <= |t| && NextMatch(t, last) == Some(m)
    ensures last <= m.open && m.open + |OpenTag| <= m.close && m.close + |CloseTag| <= |t|
    ensures Assemble(t, MatchesFrom(t, last), last)
         == LoopRound(t, last, m) + Assemble(t, MatchesFrom(t, m.close + |CloseTag|), m.close + |CloseTag|)
  {
    MatchesFromStep(t, last, m);
    AssembleCons(t, m, MatchesFrom(t, m.close + |CloseTag|), last);
  }

  /** One round of the loop: what is emitted so far followed by what is
      still to come stays the same. */
  lemma RenderRound(t: string, last: nat, frag: seq<Node>, m: Span, last': nat, frag': seq<Node>, goal: seq<Node>)
    requires last <= |t| && NextMatch(t, last) == Some(m)
    requires last' == m.close + |CloseTag| && frag' == frag + LoopRound(t, last, m)
    requires frag + Assemble(t, MatchesFrom(t, last), last) == goal
    ensures last' <= |t| && frag' + Assemble(t, MatchesFrom(t, last'), last') == goal
  {
    AssembleStep(t, last, m);
    Emit(frag, frag', Assemble(t, MatchesFrom(t, last), last), LoopRound(t, last, m),
         Assemble(t, MatchesFrom(t, last'), last'), goal);
  }

  /** Emitting `round` moves it from what is still to come to what is
      emitted so far. */
  lemma Emit<T>(frag: seq<T>, frag': seq<T>, todo: seq<T>, round: seq<T>, rest: seq<T>, goal: seq<T>)
    requires todo == round + rest && frag' == frag + round && frag + todo == goal
    ensures frag' + rest == goal
  {
    AppendAssoc(frag, round, rest);
  }

  lemma AppendAssoc<T>(a: seq<T>, b: seq<T>, c: seq<T>)
    ensures a + b + c == a + (b + c)
  {
  }

  /** Once `exec` finds nothing, only the trailing span is still to come. */
  lemma RenderExit(t: string, last: nat, frag: seq<Node>, frag': seq<Node>, goal: seq<Node>)
    requires last <= |t| && NextMatch(t, last).None?
    requires frag' == frag + Literal(t, last, |t|)
    requires frag + Assemble(t, MatchesFrom(t, last), last) == goal
    ensures frag' == goal
  {
    assert MatchesFrom(t, last) == [];
  }

  /** The loop of `appendMessage` as written, with `strongRegex.lastIndex`
      and the local `lastIndex` kept equal. */
  method RenderMessage(text: string) returns (frag: seq<Node>)
    ensures frag == Render(text)
  {
    frag := [];
    var lastIndex: nat := 0;
    var next := NextMatch(text, lastIndex);
    ghost var goal := Render(text);
    assert [] + Assemble(text, MatchesFrom(text, 0), 0) == goal;
    while next.Some?
      invariant lastIndex <= |text|
      invariant next == NextMatch(text, lastIndex)
      invariant frag + Assemble(text, MatchesFrom(text, lastIndex), lastIndex) == goal
      decreases |text| - lastIndex
    {
      var m := next.value;
      ghost var last0, frag0 := lastIndex, frag;
      frag := frag + LoopRound(text, lastIndex, m);
      lastIndex := m.close + |CloseTag|;
      RenderRound(text, last0, frag0, m, lastIndex, frag, goal);
      next := NextMatch(text, lastIndex);
    }
    ghost var frag0 := frag;
    frag := frag + Literal(text, lastIndex, |text|);
    RenderExit(text, lastIndex, frag0, frag, goal);
  }

  /** The successive results of `exec` from `lastIndex == last` on: ordered,
      non-overlapping, inside `t`, each one a match. */
  function MatchesFrom(t: string, last: nat): (ms: seq<Span>)
    requires last <= |t|
    decreases |t| - last
    ensures SpansFrom(t, ms, last)
  {
    var next := NextMatch(t, last);
    if next.None? then []
    else
      var rest := MatchesFrom(t, next.value.close + |CloseTag|);
      assert ([next.value] + rest)[1..] == rest;
      [next.value] + rest
  }

  function Matches(t: string): seq<Span> {
    MatchesFrom(t, 0)
  }

  /** `ms` are spans of `t` at or after `last`, in order, not overlapping,
      each with room for both tags. */
  predicate SpansFrom(t: string, ms: seq<Span>, last: nat)
    decreases |ms|
  {
    |ms| == 0 || (
      && last <= ms[0].open
      && ms[0].open + |OpenTag| <= ms[0].close
      && ms[0].close + |CloseTag| <= |t|
      && SpansFrom(t, ms[1..], ms[0].close + |CloseTag|))
  }

  /** Every span is a match of the expression. */
  predicate AllMatches(t: string, ms: seq<Span>) {
    forall j | 0 <= j < |ms| :: MatchAt(t, ms[j].open) == Some(ms[j].close)
  }

  /** Position `p` lies inside one of the spans, tags included. */
  predicate Covered(ms: seq<Span>, p: nat) {
    exists j | 0 <= j < |ms| :: ms[j].open <= p < ms[j].close + |CloseTag|
  }

  /** The scan finds only matches. */
  lemma {:induction false} MatchesFromAreMatches(t: string, last: nat)
    requires last <= |t|
    decreases |t| - last
    ensures AllMatches(t, MatchesFrom(t, last))
  {
    var next := NextMatch(t, last);
    if next.Some? {
      var m := next.value;
      var last' := m.close + |CloseTag|;
      MatchesFromStep(t, last, m);
      NextMatchFinds(t, last);
      MatchesFromAreMatches(t, last');
      var rest := MatchesFrom(t, last');
      var ms := [m] + rest;
      forall j | 0 <= j < |ms| ensures MatchAt(t, ms[j].open) == Some(ms[j].close) {
        if j > 0 {
          assert ms[j] == rest[j - 1];
        }
      }
    }
  }

  /** The scan misses no match: every position at which the expression
      matches is the start of a found match or lies inside one, whose text
      the scan does not look at again. */
  lemma {:induction false} MatchesFromCover(t: string, last: nat)
    requires last <= |t|
    decreases |t| - last
    ensures forall p | last <= p && MatchAt(t, p).Some? :: Covered(MatchesFrom(t, last), p)
  {
    NextMatchIsLeftmost(t, last);
    var next := NextMatch(t, last);
    if next.Some? {
      var m := next.value;
      var last' := m.close + |CloseTag|;
      MatchesFromStep(t, last, m);
      MatchesFromCover(t, last');
      var rest := MatchesFrom(t, last');
      var ms := [m] + rest;
      forall p | last <= p && MatchAt(t, p).Some? ensures Covered(ms, p) {
        if p < last' {
          assert ms[0] == m;
        } else {
          var j :| 0 <= j < |rest| && rest[j].open <= p < rest[j].close + |CloseTag|;
          assert ms[j + 1] == rest[j];
        }
      }
    }
  }
}
