# Chat widget core, modelled in Dafny

`script.js` runs a small lead-capture chat. Its four-step conversation
(`processMessage`) does the following:

1. It asks for a name.
2. It greets the user by name and asks for an email address.
3. It checks that address with `validateEmail` and asks for a note.
4. It hands the collected record to `saveLead`, which writes to a Firestore
   `leads` collection. The write happens only if `tryInitFirebase` enabled
   saving.

Every message goes through `appendMessage`, which does not use `innerHTML`.
Instead it scans the text for `/<strong>(.*?)<\/strong>/gi` matches and
builds text, `<br>` and `<strong>` nodes.

The model lifts these pieces out of the browser as pure functions on
immutable data:

| module | file | what it models |
|---|---|---|
| `JsStrings` | `jsstrings.dfy` | ECMAScript white space and line terminators; `trim`, `split` on one character |
| `Escape` | `escape.dfy` | `escapeHtml` and a decoder for the five references it writes |
| `Markup` | `markup.dfy` | the regular expression's matcher, the `exec` loop of `appendMessage` (also as a `method` with the loop as written) and `appendTextWithLineBreaks` |
| `RenderFacts` | `renderfacts.dfy` | what the rendered nodes show: read-back, `<strong>` contents, `<br>` count |
| `RenderShapes` | `rendershapes.dfy` | the renderer on the shapes of message the chat actually sends |
| `Email` | `email.dfy` | the two patterns of `validateEmail` and their combination |
| `Prompts` | `prompts.dfy` | the bot's replies and how they are shown |
| `Store` | `store.dfy` | the guards of `tryInitFirebase` and `saveLead` |
| `Chat` | `chat.dfy` | `processMessage` and runs of messages |

Three kinds of input are parameters of each message:
- the platform's verdict in `validateEmail`, and whether it threw;
- whether the Firebase SDK loaded;
- whether `addDoc` succeeded.

Strings are sequences of Unicode code points.

Details of the code that the model follows and a reader might not expect:
- A regular-expression `.` refuses all four ECMAScript line terminators: line feed, carriage return, U+2028 and U+2029. So a `<strong>` pair is broken by any of them, not only by a line feed.
- Only line feeds become `<br>`. A carriage return stays in a text node.
- The user's echo is the trimmed text, not the raw input.
- The echo also goes through the `<strong>` scan, so a user who types `<strong>x</strong>` sees `x` in bold. Only text, `<br>` and `<strong>` nodes can arise.
- A message sent while a save is pending is not refused: see "Left out".

## Model

| member | source | states |
|---|---|---|
| JsStrings.Trim | script.js:114 | the result is the input with a white-space-only prefix and suffix cut off; it is empty exactly when the input is all white space, and otherwise starts and ends with a non-space character |
| JsStrings.TrimIdempotent | script.js:114 | trimming twice is trimming once |
| JsStrings.Split | script.js:47 | `split` gives one more part than there are separators |
| JsStrings.JoinSplit | script.js:47 | joining the parts of `split('\n')` with line feeds gives the text back |
| JsStrings.SplitPartsFree | script.js:47 | no part of `split` holds the separator |
| JsStrings.SplitJoin | script.js:47 | splitting the join of one or more separator-free parts gives the parts back |
| Escape.EscapeHtmlSafe | script.js:85-93 | the output is never shorter than the input and holds no `<`, `>`, `"` or `'` |
| Escape.EscapeHtmlIdentity | script.js:85-93 | the output is as long as the input exactly when no special character occurs, and then equals it |
| Escape.EscapeHtmlKeepsPlain | script.js:85-93 | a character that is neither escaped nor part of a reference occurs in the output exactly when it occurs in the input |
| Escape.UnescapeEscape | script.js:85-93 | decoding the five references gives the input back |
| Escape.EscapeInjective | script.js:85-93 | two names that escape alike are equal |
| Markup.TagsIgnoreCase | script.js:61 | the tag test accepts exactly the ASCII case-insensitive spellings of `<strong>` and `</strong>` |
| Markup.MatchAtIsLazyMatch | script.js:61 | a match at a position exists exactly when the expression matches there, and it ends at the first closing tag, with no line terminator between the tags |
| Markup.NextMatchIsLeftmost | script.js:66 | `exec` from `lastIndex` finds the leftmost match, and none when there is none |
| Markup.NextMatchFinds | script.js:66 | what `exec` returns is a match |
| Markup.MatchesFromAreMatches | script.js:66-74 | every span the global scan visits is a match |
| Markup.MatchesFromCover | script.js:66-74 | every position where the expression matches starts a visited span or lies inside one |
| Markup.RenderMessage | script.js:61-78 | the loop of `appendMessage` as written emits exactly the rendered nodes |
| RenderFacts.FlattenLines | script.js:46-53 | the nodes of `appendTextWithLineBreaks` read back as its text, reading each `<br>` as a line feed |
| RenderFacts.LinesFacts | script.js:46-53 | a literal span gives no `<strong>`, one `<br>` per line feed, and no line feed inside a text node |
| RenderFacts.RenderReadsBack | script.js:46-78 | reading the rendered message back gives the text with exactly the matched tags removed, 17 characters per match |
| RenderFacts.RenderStrongs | script.js:66-74 | there is one `<strong>` per match, in order, each holding the match's inner text |
| RenderFacts.RenderBreaks | script.js:46-78 | there is one `<br>` per line feed of the message and no line feed inside any node |
| RenderShapes.RenderPlain | script.js:55-78 | a message without `<` is rendered as its lines |
| RenderShapes.RenderOnePair | script.js:61-78 | one tag pair without a line terminator inside, and no other `<` in the message, becomes the lines before it, one `<strong>` with the inner text, and the lines after it |
| RenderShapes.RenderBrokenPair | script.js:61-78 | one tag pair with a line terminator inside, and no other `<` in the message, is not a match, and the whole message, tags included, is rendered as lines |
| Email.StrictTestIsPattern | script.js:103-104 | the strict test accepts exactly the language of the anchored pattern |
| Email.StrictTestShape | script.js:103-104 | an accepted string has exactly one `@`, a non-empty local part and non-empty `[A-Za-z0-9-]` labels joined by single dots |
| Email.LooseTestIsPattern | script.js:109 | the fallback test accepts exactly the strings in which `\S+@\S+\.\S+` matches somewhere |
| Email.ValidateEmailChecked | script.js:97-106 | when the platform check runs, an address is accepted exactly when the platform accepts it and it is in the strict language; then it has exactly one `@` |
| Email.ValidateEmailThrew | script.js:107-110 | when the platform check throws, acceptance is the fallback pattern |
| Email.ValidateEmailRejectsBlank | script.js:95-111 | empty and all-white-space input is rejected on both paths |
| Email.SingleLabelDomain | script.js:103-104 | the strict pattern accepts `a@b`, which has no dot after the `@`, and the fallback rejects it |
| Prompts.FixedPromptShown | script.js:120-148 | every reply but the greeting is shown as one text node holding exactly its text |
| Prompts.EscapeKeepsTerminators | script.js:85-93 | escaping neither adds nor removes line terminators: each of the four occurs as often in the escape as in the name |
| Prompts.GreetingShown | script.js:127 | a name without line terminators is greeted with the prefix, one `<strong>` holding the escaped name, and the suffix |
| Prompts.GreetingDecodes | script.js:127 | for a name without line terminators, the greeting's one `<strong>` decodes back to the name |
| Prompts.GreetingShowsEntities | script.js:127 | a name without line terminators but with a special character is shown changed: its one `<strong>` holds the references, not the name |
| Prompts.GreetingAmpersand | script.js:127 | the name `&` is shown as `&amp;` |
| Prompts.GreetingBrokenByTerminator | script.js:127 | a name with a line terminator leaves the greeting without any `<strong>`, with the tags shown as text |
| Prompts.GreetingLineSeparator | script.js:114-127 | the name `A`, U+2028, `B` is left unchanged by `trim()`, and its greeting has no `<strong>` |
| Chat.LineSeparatorGreeted | script.js:114-128 | at the name step, the name `A`, U+2028, `B` is echoed and greeted as typed, and the greeting shows no `<strong>` |
| Prompts.Shown | script.js:127 | the corrected greeting shows exactly the name in its one `<strong>` for every name, and reads back as the sentence around it |
| Prompts.GreetingAgrees | script.js:127 | on names without special characters or line terminators, the code as written shows the corrected greeting |
| Store.TryInit | script.js:10-23 | without a usable API key nothing changes; when the SDK loads, saving is on with the configured database; on failure saving is off and `db` is kept |
| Store.SaveLead | script.js:25-35 | the lead is saved, and `true` returned, exactly when saving is on, a database is set and the write succeeds; otherwise the collection is untouched |
| Store.TryInitSound | script.js:10-23 | initialisation keeps "saving on implies a usable configuration and the database built from it" |
| Store.InitAllSound | script.js:10-23 | that invariant holds however often initialisation runs |
| Store.NoKeyNeverSaves | script.js:12 | a configuration without a usable API key leaves the gateway as it was, however often initialisation runs |
| Store.DbGuardRedundant | script.js:26 | in a sound gateway the `!db` half of the guard never decides the outcome |
| Store.SaveAfterInit | script.js:10-35 | after the load-time initialisation, a lead is saved exactly when the key is usable, the SDK loaded and the write succeeded |
| Chat.Process | script.js:113-153 | no message changes the gateway that `tryInitFirebase` left |
| Chat.BlankIgnored | script.js:114-117 | blank input changes nothing and appends nothing; any other input is echoed first, trimmed |
| Chat.ReplyCount | script.js:117-148 | the echo is followed by one reply, or by two at the last step |
| Chat.StepCycle | script.js:119-141 | the step stays in 0..3 and advances by one modulo 4, except on blank input or a rejected address, where state and database are unchanged |
| Chat.EmailRejected | script.js:132-136 | a rejected address gets the echo and the one error reply, and nothing else changes |
| Chat.OnlyLastStepSaves | script.js:143-150 | only the last step changes the collection; it resets the chat, and it announces success exactly when the completed lead was added |
| Chat.ProcessKeepsConsistent | script.js:113-153 | each message keeps the stored fields consistent with the step and only adds complete leads to the collection |
| Chat.RunKeepsConsistent | script.js:113-153 | over any run of messages the state stays consistent, the gateway is untouched, and the collection only grows, by complete leads |
| Chat.Conversation | script.js:119-151 | a full conversation from the start returns to the start and saves the three trimmed answers exactly when saving is on and the write succeeds, with every echo and reply in order |

## Left out

- The DOM: element lookup, class names, scrolling, form wiring and the Escape key (script.js lines 37-40, 56-58, 80-82, 155-172). The renderer's output is the list of nodes it would append.
- `appendMessage` returns early when the chat container is missing. The model assumes the container exists.
- `input.checkValidity()`: the platform's email verdict is a parameter of each message, and so is whether the check throws.
- The Firebase SDK: the dynamic imports, `initializeApp`, `getFirestore` and `addDoc` are represented by a "loaded" flag and a "write succeeded" flag. The model assumes a rejected `addDoc` wrote nothing.
- Console logging.
- The load-time `tryInitFirebase()` (line 175) is not awaited, so it may finish after the first messages. `Chat.Run` keeps one gateway for the whole run. This loses nothing: `processMessage` reads the gateway only at step 3, in `saveLead`, and `Store.SaveAfterInit` states what the gateway is once initialisation has finished.
- Interleaving at the `await` in `processMessage` (line 146). During a save, `step` is still 3. A message sent before the save settles would therefore be taken as a second note and start a second save. The model runs messages one at a time.
- `String(text || '')` on a non-string argument. The input is always the field's string value, so the model takes a string.
- The truthiness of a non-string `apiKey`. The model takes the key as an optional string.
- UTF-16: strings are sequences of code points. The 🚀 of one reply counts as one character, not two.
- Escape.EscapeHtml: the function itself carries no postcondition. Its promises are stated by Escape.EscapeHtmlSafe, Escape.EscapeHtmlIdentity, Escape.EscapeHtmlKeepsPlain and Escape.UnescapeEscape.
- Chat.Process: its own contract states only that the gateway is untouched. Its behaviour is stated by Chat.BlankIgnored, Chat.ReplyCount, Chat.StepCycle, Chat.EmailRejected, Chat.OnlyLastStepSaves, the four step lemmas Chat.AskNameStep, Chat.GreetStep, Chat.EmailStep and Chat.SaveStep, Chat.ProcessKeepsConsistent and Chat.Conversation.
- Markup.Render: the function itself carries no postcondition. Its promises are stated by Markup.RenderMessage, RenderFacts.RenderReadsBack, RenderFacts.RenderStrongs, RenderFacts.RenderBreaks and the RenderShapes lemmas.
- Markup.Lines: the function itself carries no postcondition. Its promises are stated by RenderFacts.FlattenLines and RenderFacts.LinesFacts.
- Email.ValidateEmail: the function itself carries no postcondition. Its promises are stated by Email.ValidateEmailChecked, Email.ValidateEmailThrew and Email.ValidateEmailRejectsBlank.
- Email.StrictTest: the function itself carries no postcondition. Its promises are stated by Email.StrictTestIsPattern and Email.StrictTestShape.
- Email.LooseTest: the function itself carries no postcondition. Its promises are stated by Email.LooseTestIsPattern.
- JsStrings.Split: its own contract counts the parts only. Their contents are stated by JsStrings.SplitPartsFree, JsStrings.JoinSplit and JsStrings.SplitJoin.
- Prompts.PromptText: the longer replies are written as two literals joined at a space. The text is the same as the source's.

## Findings

| source | as written | input that shows it | evidently intended | confidence | as-written member | corrected member |
|---|---|---|---|---|---|---|
| script.js:127 | the greeting passes the name through `escapeHtml`, but `appendMessage` sets the match's text as `textContent`, so references are shown literally | the name `&` (or `Tom & Jerry`) is shown as `&amp;` (`Tom &amp; Jerry`) | the name shown as typed; `textContent` needs no escaping | high; not executed | Prompts.GreetingAmpersand | Prompts.Shown |
| script.js:127 | the name sits between `<strong>` tags that the expression pairs only when no line terminator lies between them | the name `A`, U+2028 LINE SEPARATOR, `B`, which a text field and `trim()` both keep: the greeting shows `<strong>` and `</strong>` as text and nothing in bold | the name shown in bold whatever it contains | medium; not executed | Chat.LineSeparatorGreeted | Prompts.Shown |
