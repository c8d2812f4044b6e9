/** `processMessage` of script.js (lines 113-153): the four-step
    conversation that asks for a name, an email address and a note, then
    saves the lead. The outcome of the platform's email check and of the
    database write are parameters of each message. */
module Chat {
  import opened Wrappers
  import opened JsStrings
  import opened Email
  import opened Store
  import opened Prompts
  import Markup
  import RenderFacts

  /** What `processMessage` appends to the chat: the user's own (trimmed)
      text, or a reply. */
  datatype Entry = UserSaid(text: string) | BotSaid(reply: Prompt)

  /** The module-level `step` and `userData`. */
  datatype State = State(step: int, data: Lead)

  /** `step = 0`, `userData = {}`. */
  const Start: State := State(0, NoData)

  /** The database as the chat sees it: the gateway left by
      `tryInitFirebase` and the `leads` collection. */
  datatype World = World(gateway: Gateway, leads: seq<Lead>)

  /** What the environment decides for one message: how
      `input.checkValidity()` went in `validateEmail`, and whether `addDoc`
      succeeds in `saveLead`. */
  datatype Outside = Outside(platform: PlatformCheck, writes: bool)

  /** Result of one call: the new state and database, and the entries
      appended, in order. */
  datatype Turn = Turn(state: State, world: World, said: seq<Entry>)

  /** `processMessage(text)`. */
  function Process(s: State, w: World, text: string, env: Outside): (t: Turn)
    ensures t.world.gateway == w.gateway
  {
    var value := Trim(text);
    if |value| == 0 then Turn(s, w, [])
    else
      var echo := [UserSaid(value)];
      if s.step == 0 then
        Turn(State(1, s.data), w, echo + [BotSaid(AskName)])
      else if s.step == 1 then
        Turn(State(2, s.data.(name := Some(value))), w, echo + [BotSaid(Greet(value))])
      else if s.step == 2 then
        if !ValidateEmail(value, env.platform) then
          Turn(s, w, echo + [BotSaid(BadEmail)])
        else
          Turn(State(3, s.data.(email := Some(value))), w, echo + [BotSaid(AskNote)])
      else if s.step == 3 then
        var data := s.data.(message := Some(value));
        var r := SaveLead(w.gateway, w.leads, data, env.writes);
        Turn(Start, w.(leads := r.1), echo + [BotSaid(Saving), BotSaid(if r.0 then Saved else SaveFailed)])
      else
        Turn(s, w, echo)
  }

  /** Blank input, after trimming, does nothing at all; anything else is
      echoed first, trimmed. */
  lemma BlankIgnored(s: State, w: World, text: string, env: Outside)
    ensures var t := Process(s, w, text, env);
            && (AllSpace(text) <==> t.said == [])
            && (AllSpace(text) ==> t == Turn(s, w, []))
            && (!AllSpace(text) ==> t.said[0] == UserSaid(Trim(text)) && Trim(text) != [])
  {
  }

  /** A message's echo is followed by one reply, or by two at the last step. */
  lemma ReplyCount(s: State, w: World, text: string, env: Outside)
    requires 0 <= s.step <= 3 && !AllSpace(text)
    ensures |Process(s, w, text, env).said| == if s.step == 3 then 3 else 2
    ensures forall i | 1 <= i < |Process(s, w, text, env).said| :: Process(s, w, text, env).said[i].BotSaid?
  {
  }

  /** The step goes round 0, 1, 2, 3, 0; only a rejected email address (or
      blank input) keeps it where it is, and then nothing else changes
      either. */
  lemma StepCycle(s: State, w: World, text: string, env: Outside)
    requires 0 <= s.step <= 3
    ensures var t := Process(s, w, text, env);
            var stays := AllSpace(text) || (s.step == 2 && !ValidateEmail(Trim(text), env.platform));
            && 0 <= t.state.step <= 3
            && (stays ==> t.state == s && t.world == w)
            && (!stays ==> t.state.step == (s.step + 1) % 4)
  {
  }

  /** A rejected address gets the echo and the one error reply; the step,
      the fields and the database stay as they were. */
  lemma EmailRejected(s: State, w: World, text: string, env: Outside)
    requires s.step == 2 && !AllSpace(text) && !ValidateEmail(Trim(text), env.platform)
    ensures Process(s, w, text, env) == Turn(s, w, [UserSaid(Trim(text)), BotSaid(BadEmail)])
  {
  }

  /** The collection changes only at the last step, and there by exactly
      the completed lead when the save succeeds, announced as such. */
  lemma OnlyLastStepSaves(s: State, w: World, text: string, env: Outside)
    requires !AllSpace(text)
    ensures var t := Process(s, w, text, env);
            && (s.step != 3 ==> t.world == w)
            && (s.step == 3 ==>
                  var lead := s.data.(message := Some(Trim(text)));
                  && t.state == Start
                  && (t.said[2] == BotSaid(Saved) <==> t.world.leads == w.leads + [lead])
                  && (t.said[2] == BotSaid(SaveFailed) <==> t.world.leads == w.leads))
  {
    if s.step == 3 {
      var lead := s.data.(message := Some(Trim(text)));
      assert w.leads + [lead] != w.leads by {
        assert |w.leads + [lead]| != |w.leads|;
      }
    }
  }

  /** A filled-in value: non-empty and trimmed. */
  predicate Filled(v: string) {
    v != [] && Trim(v) == v
  }

  /** An address that `validateEmail` accepted on one of its two paths. */
  predicate Accepted(e: string) {
    StrictTest(e) || LooseTest(e)
  }

  /** What `userData` holds at each step: the name from step 2 on, the
      email address at step 3, never the note; each value filled in, and
      the address one the validator accepted. */
  predicate Consistent(s: State) {
    && 0 <= s.step <= 3
    && (s.data.name.Some? <==> s.step >= 2)
    && (s.data.email.Some? <==> s.step == 3)
    && s.data.message.None?
    && (s.data.name.Some? ==> Filled(s.data.name.value))
    && (s.data.email.Some? ==> Filled(s.data.email.value) && Accepted(s.data.email.value))
  }

  /** A lead as saved: every field present and filled in, the address
      accepted. */
  predicate Complete(lead: Lead) {
    && lead.name.Some? && Filled(lead.name.value)
    && lead.email.Some? && Filled(lead.email.value) && Accepted(lead.email.value)
    && lead.message.Some? && Filled(lead.message.value)
  }

  predicate AllComplete(leads: seq<Lead>) {
    forall i | 0 <= i < |leads| :: Complete(leads[i])
  }

  /** The validator accepts only what one of its patterns accepts. */
  lemma ValidatedIsAccepted(e: string, platform: PlatformCheck)
    requires ValidateEmail(e, platform)
    ensures Accepted(e)
  {
  }

  /** Trimmed input is filled in. */
  lemma TrimFilled(text: string)
    requires !AllSpace(text)
    ensures Filled(Trim(text))
  {
    TrimIdempotent(text);
  }

  /** `b` is `a` with possibly more added at the end. */
  predicate Extends<T(==)>(a: seq<T>, b: seq<T>) {
    |a| <= |b| && b[..|a|] == a
  }

  lemma ExtendsTrans<T>(a: seq<T>, b: seq<T>, c: seq<T>)
    requires Extends(a, b) && Extends(b, c)
    ensures Extends(a, c)
  {
    assert c[..|a|] == c[..|b|][..|a|];
  }

  /** `processMessage` keeps `userData` consistent with `step`, only adds
      to the collection, and every lead it saves is complete. */
  lemma ProcessKeepsConsistent(s: State, w: World, text: string, env: Outside)
    requires Consistent(s) && AllComplete(w.leads)
    ensures Consistent(Process(s, w, text, env).state)
    ensures AllComplete(Process(s, w, text, env).world.leads)
    ensures Extends(w.leads, Process(s, w, text, env).world.leads)
  {
    if AllSpace(text) {
      assert w.leads[..|w.leads|] == w.leads;
    } else {
      var value := Trim(text);
      TrimFilled(text);
      if s.step == 3 {
        SaveStep(s, w, text, env);
        var lead := s.data.(message := Some(value));
        assert Complete(lead);
        AppendComplete(w.leads, lead);
      } else {
        assert w.leads[..|w.leads|] == w.leads;
        if s.step == 2 && ValidateEmail(value, env.platform) {
          ValidatedIsAccepted(value, env.platform);
        }
      }
    }
  }

  /** Adding a complete lead keeps the collection complete and extends it. */
  lemma AppendComplete(leads: seq<Lead>, lead: Lead)
    requires AllComplete(leads) && Complete(lead)
    ensures AllComplete(leads + [lead]) && Extends(leads, leads + [lead])
  {
    assert (leads + [lead])[..|leads|] == leads;
    assert forall i | 0 <= i < |leads| :: (leads + [lead])[i] == leads[i];
  }

  /** A run of messages, each with what the environment decided for it:
      the final state and database and everything appended. */
  function Run(s: State, w: World, msgs: seq<(string, Outside)>): (t: Turn)
    decreases |msgs|
  {
    if |msgs| == 0 then Turn(s, w, [])
    else
      var t0 := Process(s, w, msgs[0].0, msgs[0].1);
      var rest := Run(t0.state, t0.world, msgs[1..]);
      Turn(rest.state, rest.world, t0.said + rest.said)
  }

  /** Over any run from a consistent state, the state stays consistent,
      the gateway is untouched, the collection only grows, and every lead
      in it is complete. */
  lemma {:induction false} RunKeepsConsistent(s: State, w: World, msgs: seq<(string, Outside)>)
    requires Consistent(s) && AllComplete(w.leads)
    decreases |msgs|
    ensures var t := Run(s, w, msgs);
            && Consistent(t.state)
            && AllComplete(t.world.leads)
            && t.world.gateway == w.gateway
            && Extends(w.leads, t.world.leads)
  {
    if |msgs| == 0 {
      assert w.leads[..|w.leads|] == w.leads;
    } else {
      var t0 := Process(s, w, msgs[0].0, msgs[0].1);
      ProcessKeepsConsistent(s, w, msgs[0].0, msgs[0].1);
      RunKeepsConsistent(t0.state, t0.world, msgs[1..]);
      ExtendsTrans(w.leads, t0.world.leads, Run(t0.state, t0.world, msgs[1..]).world.leads);
    }
  }

  /** Running a first message, then the rest. */
  lemma RunCons(s: State, w: World, m: (string, Outside), rest: seq<(string, Outside)>)
    ensures var t0 := Process(s, w, m.0, m.1);
            var r := Run(t0.state, t0.world, rest);
            Run(s, w, [m] + rest) == Turn(r.state, r.world, t0.said + r.said)
  {
    assert ([m] + rest)[1..] == rest;
  }

  /** The four steps of a conversation, each on non-blank input. */
  lemma AskNameStep(s: State, w: World, text: string, env: Outside)
    requires s.step == 0 && !AllSpace(text)
    ensures Process(s, w, text, env) == Turn(State(1, s.data), w, [UserSaid(Trim(text)), BotSaid(AskName)])
  {
  }

  lemma GreetStep(s: State, w: World, text: string, env: Outside)
    requires s.step == 1 && !AllSpace(text)
    ensures Process(s, w, text, env)
         == Turn(State(2, s.data.(name := Some(Trim(text)))), w, [UserSaid(Trim(text)), BotSaid(Greet(Trim(text)))])
  {
  }

  lemma EmailStep(s: State, w: World, text: string, env: Outside)
    requires s.step == 2 && !AllSpace(text) && ValidateEmail(Trim(text), env.platform)
    ensures Process(s, w, text, env)
         == Turn(State(3, s.data.(email := Some(Trim(text)))), w, [UserSaid(Trim(text)), BotSaid(AskNote)])
  {
  }

  lemma SaveStep(s: State, w: World, text: string, env: Outside)
    requires s.step == 3 && !AllSpace(text)
    ensures var lead := s.data.(message := Some(Trim(text)));
            var saved := w.gateway.canSave && w.gateway.db.Some? && env.writes;
            (Process(s, w, text, env)
             == Turn(Start, w.(leads := if saved then w.leads + [lead] else w.leads),
                     [UserSaid(Trim(text)), BotSaid(Saving), BotSaid(if saved then Saved else SaveFailed)]))
  {
  }

  /** At the name step, the name `A`, U+2028, `B` is echoed and greeted as
      typed, and the greeting shows no `<strong>`. */
  lemma LineSeparatorGreeted(s: State, w: World, text: string, env: Outside)
    requires s.step == 1 && text == "A\U{2028}B"
    ensures var t := Process(s, w, text, env);
            && t.said == [UserSaid(text), BotSaid(Greet(text))]
            && RenderFacts.Strongs(Markup.Render(PromptText(t.said[1].reply))) == []
  {
    GreetingLineSeparator(text);
    GreetStep(s, w, text, env);
  }

  /** The whole conversation from the start: four non-blank messages, the
      third an address the validator accepts, bring the chat back to the
      start, and the lead holds the three trimmed answers, saved exactly when
      the gateway can save and the write succeeds. */
  lemma Conversation(w: World, hello: string, name: string, email: string, note: string,
                     platform: PlatformCheck, writes: bool)
    requires !AllSpace(hello) && !AllSpace(name) && !AllSpace(email) && !AllSpace(note)
    requires ValidateEmail(Trim(email), platform)
    ensures var any := Outside(platform, writes);
            var t := Run(Start, w, [(hello, any), (name, any), (email, any), (note, any)]);
            var lead := Lead(Some(Trim(name)), Some(Trim(email)), Some(Trim(note)));
            var saved := w.gateway.canSave && w.gateway.db.Some? && writes;
            && t.state == Start
            && t.world.leads == (if saved then w.leads + [lead] else w.leads)
            && t.said == [UserSaid(Trim(hello)), BotSaid(AskName)]
                        + ([UserSaid(Trim(name)), BotSaid(Greet(Trim(name)))]
                        + ([UserSaid(Trim(email)), BotSaid(AskNote)]
                        + [UserSaid(Trim(note)), BotSaid(Saving), BotSaid(if saved then Saved else SaveFailed)]))
  {
    var any := Outside(platform, writes);
    var s1 := State(1, NoData);
    var s2 := State(2, NoData.(name := Some(Trim(name))));
    var s3 := State(3, s2.data.(email := Some(Trim(email))));
    AskNameStep(Start, w, hello, any);
    GreetStep(s1, w, name, any);
    EmailStep(s2, w, email, any);
    SaveStep(s3, w, note, any);
    var t4 := Process(s3, w, note, any);
    RunCons(s3, w, (note, any), []);
    assert t4.said + [] == t4.said;
    RunCons(s2, w, (email, any), [(note, any)]);
    RunCons(s1, w, (name, any), [(email, any), (note, any)]);
    RunCons(Start, w, (hello, any), [(name, any), (email, any), (note, any)]);
  }
}
