/** `validateEmail` of script.js (lines 95-111): the platform's own check of
    an `<input type="email">` as a first gate, then the strict pattern
    `/^[a-zA-Z0-9.!#$%&'*+/=?^_`{|}~-]+@[a-zA-Z0-9-]+(?:\.[a-zA-Z0-9-]+)*$/`;
    if the platform check throws, the loose pattern `/\S+@\S+\.\S+/`. */
module Email {
  import opened JsStrings

  predicate IsAsciiAlnum(c: char) {
    ('a' <= c <= 'z') || ('A' <= c <= 'Z') || ('0' <= c <= '9')
  }

  /** The class `[a-zA-Z0-9.!#$%&'*+/=?^_`{|}~-]` of the local part. */
  predicate IsLocalChar(c: char) {
    IsAsciiAlnum(c) || c in ".!#$%&'*+/=?^_`{|}~-"
  }

  /** The class `[a-zA-Z0-9-]` of a domain label. */
  predicate IsLabelChar(c: char) {
    IsAsciiAlnum(c) || c == '-'
  }

  /** `[a-zA-Z0-9.!#$%&'*+/=?^_`{|}~-]+` */
  predicate IsLocalPart(s: string) {
    |s| > 0 && forall k | 0 <= k < |s| :: IsLocalChar(s[k])
  }

  /** `[a-zA-Z0-9-]+` */
  predicate IsLabel(s: string) {
    |s| > 0 && forall k | 0 <= k < |s| :: IsLabelChar(s[k])
  }

  predicate AllLabels(labels: seq<string>) {
    forall i | 0 <= i < |labels| :: IsLabel(labels[i])
  }

  /** `s` is spelled `local@label.label…` as the strict pattern reads it:
      a local part, one `@`, and at least one label, the labels joined by
      single dots. */
  predicate Shaped(s: string, local: string, labels: seq<string>) {
    && IsLocalPart(local)
    && |labels| >= 1
    && AllLabels(labels)
    && s == local + "@" + Join(labels, '.')
  }

  /** The language of the strict pattern, anchored at both ends. */
  ghost predicate InStrictLanguage(s: string) {
    exists local: string, labels: seq<string> :: Shaped(s, local, labels)
  }

  /** Position of the first `@`, or `|s|` if there is none. */
  function FirstAt(s: string): (i: nat)
    ensures i <= |s|
    ensures forall k | 0 <= k < i :: s[k] != '@'
    ensures i < |s| ==> s[i] == '@'
  {
    if |s| == 0 || s[0] == '@' then 0 else FirstAt(s[1..]) + 1
  }

  /** `re.test(email)` with the strict pattern. No character of the local
      class is an `@`, so the local part ends at the first `@`; what follows
      must split at the dots into labels. */
  function StrictTest(s: string): bool {
    var i := FirstAt(s);
    && i < |s|
    && IsLocalPart(s[..i])
    && AllLabels(Split(s[i + 1..], '.'))
  }

  lemma LabelsHaveNoDot(labels: seq<string>)
    requires AllLabels(labels)
    ensures forall i | 0 <= i < |labels| :: '.' !in labels[i]
  {
    forall i | 0 <= i < |labels| ensures '.' !in labels[i] {
      assert IsLabel(labels[i]);
    }
  }

  /** A string whose characters are all labels' characters or dots has no `@`. */
  lemma {:induction false} JoinLabelsHasNoAt(labels: seq<string>)
    requires AllLabels(labels)
    ensures '@' !in Join(labels, '.')
  {
    if |labels| > 1 {
      JoinLabelsHasNoAt(labels[1..]);
      assert IsLabel(labels[0]);
      assert '@' !in labels[0];
    } else if |labels| == 1 {
      assert IsLabel(labels[0]);
    }
  }

  /** The strict test accepts exactly the strings of the pattern's language. */
  lemma StrictTestIsPattern(s: string)
    ensures StrictTest(s) <==> InStrictLanguage(s)
  {
    if StrictTest(s) {
      var i := FirstAt(s);
      var labels := Split(s[i + 1..], '.');
      JoinSplit(s[i + 1..], '.');
      assert s == s[..i] + "@" + s[i + 1..];
      assert Shaped(s, s[..i], labels);
    }
    if InStrictLanguage(s) {
      var local, labels :| Shaped(s, local, labels);
      var d := Join(labels, '.');
      assert '@' !in local by {
        assert forall k | 0 <= k < |local| :: IsLocalChar(local[k]);
      }
      FirstAtOfShape(s, local, d);
      assert s[..|local|] == local;
      assert s[|local| + 1..] == d;
      LabelsHaveNoDot(labels);
      SplitJoin(labels, '.');
    }
  }

  lemma FirstAtOfShape(s: string, local: string, d: string)
    requires s == local + "@" + d && '@' !in local
    ensures FirstAt(s) == |local|
  {
    var i := FirstAt(s);
    assert forall k | 0 <= k < |local| :: s[k] == local[k];
    assert s[|local|] == '@';
  }

  /** What the strict pattern lets through has exactly one `@`, a non-empty
      local part before it, and non-empty `[A-Za-z0-9-]` labels joined by
      single dots after it. */
  lemma StrictTestShape(s: string)
    requires StrictTest(s)
    ensures Count(s, '@') == 1
    ensures exists local: string, labels: seq<string> :: Shaped(s, local, labels)
  {
    StrictTestIsPattern(s);
    var local, labels :| Shaped(s, local, labels);
    assert '@' !in local by {
      assert forall k | 0 <= k < |local| :: IsLocalChar(local[k]);
    }
    JoinLabelsHasNoAt(labels);
    CountAppend(local + "@", Join(labels, '.'), '@');
    CountAppend(local, "@", '@');
    CountZero(local, '@');
    CountZero(Join(labels, '.'), '@');
  }

  /** A witness that `/\S+@\S+\.\S+/` matches somewhere in `s`: an `@` at
      `i` after a non-space character, a `.` at `j` after at least one
      non-space character following the `@`, and a non-space character
      after the dot. */
  predicate LooseAt(s: string, i: nat, j: nat) {
    && 1 <= i && i + 1 < j && j + 1 < |s|
    && s[i] == '@' && s[j] == '.'
    && !IsJsSpace(s[i - 1]) && !IsJsSpace(s[j + 1])
    && forall k | i < k < j :: !IsJsSpace(s[k])
  }

  /** The loose pattern matches somewhere in `s`. */
  ghost predicate InLooseLanguage(s: string) {
    exists i: nat, j: nat :: LooseAt(s, i, j)
  }

  /** Search for the dot of a loose match after the `@` at `i`, scanning
      the non-space run that starts right after it from `j` on. */
  function DotAfter(s: string, i: nat, j: nat): bool
    requires i < j <= |s|
    decreases |s| - j
  {
    if j + 1 >= |s| || IsJsSpace(s[j]) then false
    else (i + 1 < j && s[j] == '.' && !IsJsSpace(s[j + 1])) || DotAfter(s, i, j + 1)
  }

  /** Search for a loose match whose `@` is at `i` or later. */
  function LooseFrom(s: string, i: nat): bool
    decreases |s| - i
  {
    if i >= |s| then false
    else (1 <= i && s[i] == '@' && !IsJsSpace(s[i - 1]) && DotAfter(s, i, i + 1)) || LooseFrom(s, i + 1)
  }

  /** `/\S+@\S+\.\S+/.test(email)` */
  function LooseTest(s: string): bool {
    LooseFrom(s, 0)
  }

  lemma {:induction false} DotAfterIsWitness(s: string, i: nat, j: nat)
    requires 1 <= i < j <= |s| && s[i] == '@' && !IsJsSpace(s[i - 1])
    requires forall k | i < k < j :: !IsJsSpace(s[k])
    decreases |s| - j
    ensures DotAfter(s, i, j) <==> exists j': nat | j <= j' :: LooseAt(s, i, j')
  {
    if j + 1 >= |s| {
      assert forall j': nat | j <= j' :: !LooseAt(s, i, j');
    } else if IsJsSpace(s[j]) {
      assert forall j': nat | j <= j' :: !LooseAt(s, i, j');
    } else {
      DotAfterIsWitness(s, i, j + 1);
      if LooseAt(s, i, j) {
        assert DotAfter(s, i, j);
      }
      if exists j': nat | j <= j' :: LooseAt(s, i, j') {
        var j': nat :| j <= j' && LooseAt(s, i, j');
        if j' > j {
          assert DotAfter(s, i, j + 1);
        }
      }
    }
  }

  lemma {:induction false} LooseFromIsWitness(s: string, i: nat)
    decreases |s| - i
    ensures LooseFrom(s, i) <==> exists a: nat, b: nat | i <= a :: LooseAt(s, a, b)
  {
    if i >= |s| {
      assert forall a: nat, b: nat | i <= a :: !LooseAt(s, a, b);
    } else {
      LooseFromIsWitness(s, i + 1);
      var here := 1 <= i && s[i] == '@' && !IsJsSpace(s[i - 1]);
      if here {
        DotAfterIsWitness(s, i, i + 1);
      } else {
        assert forall b: nat :: !LooseAt(s, i, b);
      }
      if exists a: nat, b: nat | i <= a :: LooseAt(s, a, b) {
        var a: nat, b: nat :| i <= a && LooseAt(s, a, b);
        if a == i {
          assert DotAfter(s, i, i + 1);
        }
      }
    }
  }

  /** The loose test accepts exactly the strings the loose pattern matches
      somewhere in. */
  lemma LooseTestIsPattern(s: string)
    ensures LooseTest(s) <==> InLooseLanguage(s)
  {
    LooseFromIsWitness(s, 0);
  }

  /** What `input.checkValidity()` did: threw, or returned a verdict. The
      platform's verdict itself is not modelled. */
  datatype PlatformCheck = Threw | Checked(valid: bool)

  /** `validateEmail(email)` given the outcome of the platform check. */
  function ValidateEmail(email: string, platform: PlatformCheck): bool {
    match platform
    case Threw => LooseTest(email)
    case Checked(valid) => valid && StrictTest(email)
  }

  /** When the platform check runs, an accepted address has the strict
      pattern's shape whatever the platform said; a platform rejection is
      final. */
  lemma ValidateEmailChecked(email: string, valid: bool)
    ensures ValidateEmail(email, Checked(valid)) <==> valid && InStrictLanguage(email)
    ensures ValidateEmail(email, Checked(valid)) ==> Count(email, '@') == 1
  {
    StrictTestIsPattern(email);
    if ValidateEmail(email, Checked(valid)) {
      StrictTestShape(email);
    }
  }

  /** When the platform check throws, acceptance is the loose pattern. */
  lemma ValidateEmailThrew(email: string)
    ensures ValidateEmail(email, Threw) <==> InLooseLanguage(email)
  {
    LooseTestIsPattern(email);
  }

  /** Empty and white-space-only input is rejected on either path. */
  lemma ValidateEmailRejectsBlank(email: string, platform: PlatformCheck)
    requires AllSpace(email)
    ensures !ValidateEmail(email, platform)
  {
    LooseTestIsPattern(email);
    forall i: nat, j: nat ensures !LooseAt(email, i, j) {
      if 1 <= i <= |email| {
        assert IsJsSpace(email[i - 1]);
      }
    }
    var i := FirstAt(email);
    if i > 0 {
      assert email[..i][0] == email[0];
      assert IsJsSpace(email[0]);
    }
  }

  /** The strict pattern does not require a dot after the `@`: `a@b` passes
      it, while the loose pattern rejects it. */
  lemma SingleLabelDomain()
    ensures StrictTest("a@b")
    ensures !LooseTest("a@b")
  {
    var s := "a@b";
    assert FirstAt(s) == 1 by {
      FirstAtOfShape(s, "a", "b");
    }
    assert s[..1] == "a";
    assert s[2..] == "b";
    SplitNoSep("b", '.');
    LooseTestIsPattern(s);
    assert forall i: nat, j: nat :: !LooseAt(s, i, j);
  }
}
