# Word-chain turn engine

A Dafny model of the Korean word-chain game (끝말잇기) assistant in `src/Chatbot.js`. Each word played must start with the last character of the word before it, and no word may be played twice. The user plays against an external text-generation service (the "responder"). The model covers:

- `lastChar`: the required initial character.
- `validateNextWord`: the ordered rule check.
- The session state kept by `setupChatbot`: the `usedWords` list and the `waiting` flag. `resetGame` and `onSend` act on this state.

Files:

- `JsString.dfy` (module `JsString`) models the JavaScript string built-ins the engine relies on: the `\s` class (ECMAScript WhiteSpace and LineTerminator characters), `trim`, and `replace(/\s+/g, '')`.
- `WordChain.dfy` (module `WordChain`) holds the pure rules. It also has `Advance`, a function that gives one `onSend` turn in terms of the used-word list. Lemmas relate these functions. The main one says that any sequence of sends and resets keeps the invariant: every recorded word is non-empty and whitespace-free, no word appears twice, and each word starts with `lastChar` of the word before it.
- `Session.dfy` (module `Chatbot`) has the class `Session`, with the two closure variables as fields and `Reset` and `Send` as methods. `Send` mirrors `onSend` step by step and is proved against `Advance`.

Interface choices:

- The responder call is a parameter `respond: (string, seq<string>) -> Outcome`. It receives the required initial and the used words, as `requestNextWord` does. It returns `Reply(content)` or `Failure`.
- `Failure` covers a network error, a non-success status and missing content.
- The clean-up at the end of `requestNextWord` is modelled as `ReplyWord`. These are the steps at `src/Chatbot.js:90-92`: trim the content, treat an empty result as a parse failure, and strip all whitespace.
- Whether an API key is configured is a boolean parameter.

Behaviour of the code worth noting:

- `resetGame` clears only `usedWords` (`src/Chatbot.js:165-171`). It does not touch `waiting`, so `Reset` keeps `waiting` unchanged.
- Nothing ends the game. After the responder concedes with the sentinel `없음` (`src/Chatbot.js:209-212`), the next user word is handled like any other.
- The responder's word is not passed through `validateNextWord` again. `onSend` re-checks only "already used" and the initial character (`src/Chatbot.js:213-216`), and relies on the clean-up for non-empty and whitespace-free. `AdvanceRevalidatesReply` proves that the two amount to the same check.

## Model

| member | source | states |
|---|---|---|
| `JsString.IsSpace` | src/Chatbot.js:175 | no contract: the characters `\s` matches and `trim` strips (ECMAScript WhiteSpace and LineTerminator) |
| `JsString.HasSpace` | src/Chatbot.js:175 | no contract: `/\s/.test(next)`, some character is whitespace |
| `JsString.SkipSpaces` | src/Chatbot.js:27 | the start of the trimmed string: every character before it is whitespace, and the character at it is not |
| `JsString.SkipSpacesBack` | src/Chatbot.js:27 | the end of the trimmed string: every character from it on is whitespace, and the character before it is not |
| `JsString.Trim` | src/Chatbot.js:27 | `trim` returns a slice of the input with only whitespace around it; the slice is empty exactly when the input is all whitespace, and otherwise starts and ends with a non-whitespace character |
| `JsString.RemoveSpaces` | src/Chatbot.js:92 | removing `\s+` leaves a string with no whitespace whose characters are the input's non-whitespace characters, and leaves a whitespace-free string unchanged |
| `JsString.RemoveSpacesAppend` | src/Chatbot.js:92 | removal distributes over concatenation; with `RemoveSpaces`'s contract this fixes the result as the visible characters in their original order and number |
| `JsString.RemoveSpacesOfBlank` | src/Chatbot.js:92 | an all-whitespace string becomes empty |
| `JsString.RemoveSpacesOfPadded` | src/Chatbot.js:90-92 | whitespace around a string does not change what is left once whitespace is removed |
| `JsString.TrimKeepsVisible` | src/Chatbot.js:90 | trimming keeps every non-whitespace character of the input |
| `JsString.TrimOfUnpadded` | src/Chatbot.js:185 | a string that neither starts nor ends with whitespace is its own trim |
| `JsString.TrimIdempotent` | src/Chatbot.js:27 | trimming twice is trimming once |
| `WordChain.LastChar` | src/Chatbot.js:25-29 | `lastChar` has at most one character; it is "" exactly for empty or all-whitespace text, and otherwise it is a non-whitespace character |
| `WordChain.LastCharIsLastVisible` | src/Chatbot.js:25-29 | a non-empty `lastChar` is the character at the last non-whitespace position of the text, with only whitespace after it |
| `WordChain.LastCharOfWord` | src/Chatbot.js:25-29 | for a non-empty whitespace-free word, `lastChar` is its final character |
| `WordChain.StartsWith` | src/Chatbot.js:179 | no contract: `next[0] === need`, false for an empty word (also the `validStart` test at line 215) |
| `WordChain.ValidateNextWord` | src/Chatbot.js:173-181 | the exact condition for each verdict, in rule order. Accept iff the word is non-empty, has no whitespace, is unused, and (when `prev` is non-empty) starts with `lastChar(prev)`. Empty iff the word is empty. Whitespace iff non-empty with whitespace. Already-used iff a well-formed word that is in the list, whatever its initial. Wrong-initial iff otherwise valid but not starting with `lastChar(prev)`, and it names that character |
| `WordChain.ReplyWord` | src/Chatbot.js:90-92 | the cleaned-up reply exists exactly when the content is not all whitespace, and is then non-empty with no whitespace |
| `WordChain.ReplyWordRemovesSpaces` | src/Chatbot.js:90-92 | for content that is not all whitespace, the cleaned-up reply is exactly `RemoveSpaces(content)`: the content's non-whitespace characters in order |
| `WordChain.LastWord` | src/Chatbot.js:188 | no contract: the last used word, or "" when there is none |
| `WordChain.Advance` | src/Chatbot.js:183-228 | no contract of its own: one `onSend` turn as a function of the used words; it is described by the `Advance*` lemmas below and `Session.Send` is proved against it |
| `WordChain.AdvanceOnlyAppends` | src/Chatbot.js:183-228 | one turn only appends to the used words, at most two of them; two are added exactly when the responder's word is recorded |
| `WordChain.ReplyStep` | src/Chatbot.js:206-227 | the responder's half of a turn adds at most one word. It adds one exactly when it reports an answer, and that word is whitespace-free, not the sentinel, unused, and starts with the required initial |
| `WordChain.ChainLinksLastToFirst` | src/Chatbot.js:176-179 | in a valid chain each word's first character is the final character of the word before it |
| `WordChain.ExtendChain` | src/Chatbot.js:196 | appending an unused word that chains onto the last word keeps the invariant |
| `WordChain.AdvanceIgnoresBlank` | src/Chatbot.js:185-186 | empty or whitespace-only input leaves the used words unchanged and reports nothing |
| `WordChain.AdvanceRefuses` | src/Chatbot.js:188-193 | a rejected user word is reported with the validator's reason and the used words are unchanged |
| `WordChain.AdvanceRecordsUserWord` | src/Chatbot.js:195-204 | an accepted user word is appended exactly once as the new last word before any reply; without an API key the turn ends there |
| `WordChain.AdvanceRevalidatesReply` | src/Chatbot.js:208-221 | the responder is asked with `lastChar` of the user's word and the list including it. The sentinel adds nothing. Any other cleaned-up reply is recorded iff `validateNextWord(userWord, reply)` accepts it; otherwise it is reported as a rule violation and not recorded |
| `WordChain.AdvanceReportsFailure` | src/Chatbot.js:207-223 | a failed request, or a reply with blank content, is reported as an error; only the user's word stays recorded |
| `WordChain.AdvanceKeepsChain` | src/Chatbot.js:183-228 | one turn keeps the invariant: words non-empty and whitespace-free, no duplicates, each starting with `lastChar` of the previous word |
| `WordChain.ReplyStepKeepsChain` | src/Chatbot.js:213-220 | recording the responder's word keeps the invariant |
| `WordChain.ReplayKeepsChain` | src/Chatbot.js:162-228 | no sequence of sends and new games breaks the invariant |
| `WordChain.AcceptExamples` | src/Chatbot.js:177-180 | a first word 사과 is accepted with no previous word, and 과자 is accepted after 사과 |
| `WordChain.RejectExamples` | src/Chatbot.js:174-179 | 나무 after 사과 is refused for the initial 과; a repeated 사과 is refused as already used although its initial is wrong too; 과 자 is refused for whitespace |
| `WordChain.LastCharExample` | src/Chatbot.js:25-29 | `lastChar` of a word padded with spaces and a newline is its last letter |
| `WordChain.ConcedeExample` | src/Chatbot.js:209-212 | a padded sentinel reply ends the turn with nothing added |
| `WordChain.WrongInitialReplyExample` | src/Chatbot.js:214-218 | a reply with the wrong initial is reported and not recorded |
| `WordChain.RepeatedReplyExample` | src/Chatbot.js:213-218 | a reply that was already played is reported and not recorded |
| `WordChain.AnswerExample` | src/Chatbot.js:220-221 | a padded valid reply is cleaned up and recorded |
| `WordChain.BlankReplyExample` | src/Chatbot.js:91 | a blank reply is a parse failure |
| `Chatbot.Session.constructor` | src/Chatbot.js:162-163 | a new session has no words and is not waiting |
| `Chatbot.Session.Reset` | src/Chatbot.js:165-166 | `resetGame` empties the word list and leaves `waiting` alone |
| `Chatbot.Session.Validate` | src/Chatbot.js:173-181 | `validateNextWord` reads the session's list and changes nothing |
| `Chatbot.Session.Send` | src/Chatbot.js:183-228 | while waiting, nothing changes. Otherwise the new list and the reported event are those of `Advance` on the old list, and `waiting` is false on exit. The invariant is kept |

## Left out

- DOM construction, message rendering, focus handling and event-listener wiring (`createEl`, `renderMessage`, the panel, the buttons). These only display and have no rules. The text of each message is not modelled; rejection reasons and turn outcomes are datatype constructors.
- The body of `requestNextWord` before its clean-up: the prompt, the HTTP request, status handling and JSON access. This is network I/O and is replaced by the `respond` parameter. `src/api.js` (an environment lookup and a second network call) is not part of this model.
- Asynchrony. `Send` is one atomic step. A reply arriving after a `resetGame` during the `await`, and clicks during it, are not modelled. Because of this, `waiting` is false between `Send` calls in the model, and the busy branch is reachable only from a state built directly.
- Chatbot.Session.Send: its contract does not state that `waiting` is never raised on the no-key path or that it is raised for the duration of the request; with the request as one atomic step, only its value on exit is observable.
- UTF-16 code units versus code points in `next[0]` and `trimmed[trimmed.length - 1]`: strings are plain sequences of characters.
- The input box. `onSend` reads its text, clears it after an accepted word (`src/Chatbot.js:197`) and keeps it after a refusal; `resetGame` clears it too (`src/Chatbot.js:169`). `Send` takes the text as a parameter, and the box's contents after a call are not modelled.
- The API key is a boolean; its value and how it is looked up are not modelled.
