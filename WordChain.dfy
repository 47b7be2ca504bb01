/** The rules of the Korean word-chain game (끝말잇기) in src/Chatbot.js:
    the required initial character, the ordered validation of a candidate
    word, the clean-up of the responder's reply, and one turn of `onSend`
    as a function of the used-word list. */
module WordChain {
  import opened JsString

  datatype Option<T> = None | Some(value: T)

  /** `lastChar(text)`: the last non-whitespace character of `text`, as a
      string of length one, or "" when `text` is empty or all whitespace. */
  function LastChar(text: string): (r: string)
    ensures |r| <= 1
    ensures r == [] <==> AllSpace(text)
    ensures r != [] ==> !IsSpace(r[0])
  {
    if text == [] then []
    else
      var trimmed := Trim(text);
      if trimmed == [] then [] else [trimmed[|trimmed| - 1]]
  }

  /** A non-empty `lastChar` is the character at the last position of
      `text` that is not whitespace. */
  lemma LastCharIsLastVisible(text: string)
    requires !AllSpace(text)
    ensures exists j :: 0 <= j < |text| && LastChar(text) == [text[j]] && !IsSpace(text[j]) &&
                        forall k :: j < k < |text| ==> IsSpace(text[k])
  {
    var trimmed := Trim(text);
    var j := SkipSpaces(text, 0) + |trimmed| - 1;
    assert text[j] == trimmed[|trimmed| - 1];
  }

  /** A word as the game records it: non-empty, with no whitespace. */
  predicate IsWord(w: string)
  {
    w != [] && !HasSpace(w)
  }

  /** JavaScript's `next[0] === need` for a candidate `next` and a required
      initial `need` of at most one character (false when `next` is empty). */
  predicate StartsWith(next: string, need: string)
  {
    next != [] && [next[0]] == need
  }

  /** Why a candidate word is refused; each reason is shown to the user as
      a message (the required initial is named in the last one). */
  datatype Reason =
    | Empty                    // the word is empty
    | Spaced                   // the word contains whitespace
    | Used                     // the word was already played
    | WrongStart(need: string) // the word does not start with `need`

  datatype Verdict = Accept | Reject(reason: Reason)

  /** `validateNextWord(prev, next)` over the session's `usedWords`. The
      rules are tried in order (empty, whitespace, already used, initial
      character) and the first that fails is the one reported. */
  function ValidateNextWord(prev: string, next: string, used: seq<string>): (v: Verdict)
    ensures v == Accept <==>
      IsWord(next) && next !in used && (prev != [] ==> StartsWith(next, LastChar(prev)))
    ensures v == Reject(Empty) <==> next == []
    ensures v == Reject(Spaced) <==> next != [] && HasSpace(next)
    ensures v == Reject(Used) <==> IsWord(next) && next in used
    ensures v.Reject? && v.reason.WrongStart? <==>
      IsWord(next) && next !in used && prev != [] && !StartsWith(next, LastChar(prev))
    ensures v.Reject? && v.reason.WrongStart? ==> v.reason.need == LastChar(prev)
  {
    if next == [] then Reject(Empty)
    else if HasSpace(next) then Reject(Spaced)
    else if next in used then Reject(Used)
    else if prev == [] then Accept
    else
      var need := LastChar(prev);
      if !StartsWith(next, need) then Reject(WrongStart(need))
      else Accept
  }

  /** `usedWords[usedWords.length - 1] || ''`: the word to chain onto. */
  function LastWord(used: seq<string>): (w: string)
  {
    if used == [] then [] else used[|used| - 1]
  }

  /** What the responder produced: the raw message content of a successful
      reply, or a failure (network error, non-success status, no content). */
  datatype Outcome = Reply(content: string) | Failure

  /** The responder's answer after the clean-up at the end of
      `requestNextWord`: the content is trimmed, an empty one is a parse
      failure, and every remaining whitespace character is removed. */
  function ReplyWord(content: string): (r: Option<string>)
    ensures r.Some? <==> !AllSpace(content)
    ensures r.Some? ==> IsWord(r.value)
  {
    var text := Trim(content);
    if text == [] then None
    else
      var word := RemoveSpaces(text);
      assert text[0] in word;
      Some(word)
  }

  /** The cleaned-up reply is the content with every whitespace character
      removed and the others kept in order: trimming first changes nothing
      but the position at which the blank content is detected. */
  lemma ReplyWordRemovesSpaces(content: string)
    requires !AllSpace(content)
    ensures ReplyWord(content) == Some(RemoveSpaces(content))
  {
    var t := Trim(content);
    var i := SkipSpaces(content, 0);
    var pre, post := content[..i], content[i + |t|..];
    assert content == pre + t + post;
    forall k | 0 <= k < |pre| ensures IsSpace(pre[k]) {
      assert pre[k] == content[k];
    }
    forall k | 0 <= k < |post| ensures IsSpace(post[k]) {
      assert post[k] == content[i + |t| + k];
    }
    RemoveSpacesOfPadded(pre, t, post);
  }

  /** The word by which the responder concedes the game. */
  const Sentinel: string := "없음"

  /** What `onSend` reports to the user. */
  datatype Event =
    | Ignored                  // busy, or blank input: nothing happens
    | Refused(reason: Reason)  // the user's word breaks a rule
    | NoApiKey                 // no key configured: the responder is not asked
    | Conceded                 // the responder answered the sentinel
    | RuleBreak(word: string)  // the responder's word breaks a rule
    | Answered(word: string)   // the responder's word is recorded
    | Error                    // the responder failed

  datatype Step = Step(words: seq<string>, event: Event)

  /** The responder: given the required initial and the used words, it
      produces an outcome. */
  type Responder = (string, seq<string>) -> Outcome

  /** `onSend` (when not already waiting) as a function of the used-word
      list before the call, the input box's text, whether an API key is
      configured, and the responder. */
  function Advance(used: seq<string>, input: string, hasApiKey: bool, respond: Responder): (r: Step)
  {
    var user := Trim(input);
    if user == [] then Step(used, Ignored)
    else
      var check := ValidateNextWord(LastWord(used), user, used);
      if check.Reject? then Step(used, Refused(check.reason))
      else
        var recorded := used + [user];
        var need := LastChar(user);
        if !hasApiKey then Step(recorded, NoApiKey)
        else ReplyStep(recorded, need, respond(need, recorded))
  }

  /** The `try` block of `onSend`: the responder's outcome for the required
      initial `need`, checked against the used words `recorded` (which
      already end with the user's word). */
  function ReplyStep(recorded: seq<string>, need: string, outcome: Outcome): (r: Step)
    ensures |recorded| <= |r.words| <= |recorded| + 1 && r.words[..|recorded|] == recorded
    ensures r.event.Answered? <==> |r.words| == |recorded| + 1
    ensures r.event.Answered? ==>
      r.words == recorded + [r.event.word] && IsWord(r.event.word) &&
      r.event.word != Sentinel && r.event.word !in recorded && StartsWith(r.event.word, need)
    ensures !r.event.Ignored? && !r.event.Refused? && !r.event.NoApiKey?
  {
    var next := if outcome.Reply? then ReplyWord(outcome.content) else None;
    if next.None? then Step(recorded, Error)
    else if next.value == Sentinel then Step(recorded, Conceded)
    else if next.value in recorded || !StartsWith(next.value, need) then
      Step(recorded, RuleBreak(next.value))
    else Step(recorded + [next.value], Answered(next.value))
  }

  /** No word occurs twice. */
  predicate Distinct(words: seq<string>)
  {
    forall i, j :: 0 <= i < j < |words| ==> words[i] != words[j]
  }

  /** Each word starts with `lastChar` of the word before it. */
  predicate Chained(words: seq<string>)
  {
    forall i :: 0 < i < |words| ==> StartsWith(words[i], LastChar(words[i - 1]))
  }

  /** The invariant of a session's `usedWords`, as the checks before its two
      pushes guarantee it. */
  predicate ValidChain(words: seq<string>)
  {
    (forall i :: 0 <= i < |words| ==> IsWord(words[i])) && Distinct(words) && Chained(words)
  }

  /** The last character of a word is its final element. */
  lemma LastCharOfWord(w: string)
    requires IsWord(w)
    ensures LastChar(w) == [w[|w| - 1]]
  {
    TrimOfUnpadded(w);
  }

  /** In a valid chain every word starts with the final character of the
      word before it. */
  lemma ChainLinksLastToFirst(words: seq<string>)
    requires ValidChain(words)
    ensures forall i :: 0 < i < |words| ==> words[i][0] == words[i - 1][|words[i - 1]| - 1]
  {
    forall i | 0 < i < |words| ensures words[i][0] == words[i - 1][|words[i - 1]| - 1] {
      LastCharOfWord(words[i - 1]);
    }
  }

  /** Appending a fresh word that chains onto the last one keeps the
      invariant. */
  lemma ExtendChain(words: seq<string>, w: string)
    requires ValidChain(words) && IsWord(w) && w !in words
    requires words != [] ==> StartsWith(w, LastChar(LastWord(words)))
    ensures ValidChain(words + [w])
  {
    var longer := words + [w];
    var n := |words|;
    forall i | 0 <= i < |longer| ensures IsWord(longer[i]) {
      if i < n { assert longer[i] == words[i]; }
    }
    forall i, j | 0 <= i < j < |longer| ensures longer[i] != longer[j] {
      assert longer[i] == words[i];
      if j < n { assert longer[j] == words[j]; } else { assert longer[j] == w; }
    }
    forall i | 0 < i < |longer| ensures StartsWith(longer[i], LastChar(longer[i - 1])) {
      assert longer[i - 1] == words[i - 1];
      if i < n { assert longer[i] == words[i]; } else { assert longer[i] == w; }
    }
  }

  /** A turn only appends to the used words, at most two of them, and
      two exactly when the responder's word is recorded. */
  lemma AdvanceOnlyAppends(used: seq<string>, input: string, hasApiKey: bool, respond: Responder)
    ensures var r := Advance(used, input, hasApiKey, respond);
      |used| <= |r.words| <= |used| + 2 && r.words[..|used|] == used &&
      (r.event.Answered? <==> |r.words| == |used| + 2)
  {
    var user := Trim(input);
    if user != [] && ValidateNextWord(LastWord(used), user, used) == Accept {
      var recorded := used + [user];
      assert recorded[..|used|] == used;
      if hasApiKey {
        var need := LastChar(user);
        var r := ReplyStep(recorded, need, respond(need, recorded));
        assert Advance(used, input, hasApiKey, respond) == r;
        assert r.words[..|used|] == recorded[..|used|];
      }
    }
  }

  /** Blank input (empty or whitespace only) changes nothing. */
  lemma AdvanceIgnoresBlank(used: seq<string>, input: string, hasApiKey: bool, respond: Responder)
    requires AllSpace(input)
    ensures Advance(used, input, hasApiKey, respond) == Step(used, Ignored)
  {
  }

  /** A user word the validator rejects is reported and not recorded. */
  lemma AdvanceRefuses(used: seq<string>, input: string, hasApiKey: bool, respond: Responder, reason: Reason)
    requires Trim(input) != [] && ValidateNextWord(LastWord(used), Trim(input), used) == Reject(reason)
    ensures Advance(used, input, hasApiKey, respond) == Step(used, Refused(reason))
  {
  }

  /** An accepted user word is recorded exactly once, as the new last word
      before any reply; without an API key nothing else happens. */
  lemma AdvanceRecordsUserWord(used: seq<string>, input: string, hasApiKey: bool, respond: Responder)
    requires ValidateNextWord(LastWord(used), Trim(input), used) == Accept
    ensures var r := Advance(used, input, hasApiKey, respond);
      |r.words| > |used| && r.words[..|used| + 1] == used + [Trim(input)] &&
      r.event != Ignored && !r.event.Refused?
    ensures !hasApiKey ==> Advance(used, input, hasApiKey, respond) == Step(used + [Trim(input)], NoApiKey)
  {
  }

  /** The responder is asked for a word starting with `lastChar` of the
      user's word, given the used words including it; its cleaned-up reply
      is recorded exactly when it is not the sentinel and passes the same
      validator as the user's word. */
  lemma AdvanceRevalidatesReply(used: seq<string>, input: string, respond: Responder, content: string, w: string)
    requires ValidateNextWord(LastWord(used), Trim(input), used) == Accept
    requires respond(LastChar(Trim(input)), used + [Trim(input)]) == Reply(content)
    requires ReplyWord(content) == Some(w)
    ensures var user := Trim(input);
      var r := Advance(used, input, true, respond);
      && (w == Sentinel ==> r == Step(used + [user], Conceded))
      && (w != Sentinel && ValidateNextWord(user, w, used + [user]) == Accept ==>
            r == Step(used + [user, w], Answered(w)))
      && (w != Sentinel && ValidateNextWord(user, w, used + [user]) != Accept ==>
            r == Step(used + [user], RuleBreak(w)))
  {
    var user := Trim(input);
    assert used + [user] + [w] == used + [user, w];
  }

  /** A failed request, or a reply with no content, is reported as an
      error; only the user's word is recorded. */
  lemma AdvanceReportsFailure(used: seq<string>, input: string, respond: Responder)
    requires ValidateNextWord(LastWord(used), Trim(input), used) == Accept
    requires var outcome := respond(LastChar(Trim(input)), used + [Trim(input)]);
      outcome.Failure? || AllSpace(outcome.content)
    ensures Advance(used, input, true, respond) == Step(used + [Trim(input)], Error)
  {
  }

  /** One turn keeps the session invariant. */
  lemma AdvanceKeepsChain(used: seq<string>, input: string, hasApiKey: bool, respond: Responder)
    requires ValidChain(used)
    ensures ValidChain(Advance(used, input, hasApiKey, respond).words)
  {
    var user := Trim(input);
    if user != [] && ValidateNextWord(LastWord(used), user, used) == Accept {
      ExtendChain(used, user);
      if hasApiKey {
        var need := LastChar(user);
        ReplyStepKeepsChain(used + [user], need, respond(need, used + [user]));
      }
    }
  }

  /** Recording the responder's word keeps the invariant. */
  lemma ReplyStepKeepsChain(recorded: seq<string>, need: string, outcome: Outcome)
    requires ValidChain(recorded) && recorded != [] && need == LastChar(LastWord(recorded))
    ensures ValidChain(ReplyStep(recorded, need, outcome).words)
  {
    var next := if outcome.Reply? then ReplyWord(outcome.content) else None;
    if next.Some? && next.value != Sentinel && next.value !in recorded && StartsWith(next.value, need) {
      ExtendChain(recorded, next.value);
    } else {
      assert ReplyStep(recorded, need, outcome).words == recorded;
    }
  }

  /** A user action: submitting the input box, or starting a new game. */
  datatype Action = Send(input: string, hasApiKey: bool, respond: Responder) | NewGame

  /** The used-word list after a sequence of actions. */
  function Replay(used: seq<string>, actions: seq<Action>): (words: seq<string>)
    decreases |actions|
  {
    if actions == [] then used
    else
      var next := match actions[0]
        case NewGame => []
        case Send(input, hasApiKey, respond) => Advance(used, input, hasApiKey, respond).words;
      Replay(next, actions[1..])
  }

  /** No sequence of sends and resets breaks the invariant. */
  lemma {:induction false} ReplayKeepsChain(used: seq<string>, actions: seq<Action>)
    requires ValidChain(used)
    ensures ValidChain(Replay(used, actions))
    decreases |actions|
  {
    if actions != [] {
      match actions[0]
      case NewGame =>
        ReplayKeepsChain([], actions[1..]);
      case Send(input, hasApiKey, respond) =>
        AdvanceKeepsChain(used, input, hasApiKey, respond);
        ReplayKeepsChain(Advance(used, input, hasApiKey, respond).words, actions[1..]);
    }
  }

  /** Examples of accepted words: any first word, and a word starting
      with the last character of the previous one. */
  lemma AcceptExamples()
    ensures ValidateNextWord([], "사과", []) == Accept
    ensures ValidateNextWord("사과", "과자", ["사과"]) == Accept
  {
    TrimOfUnpadded("사과");
    assert !HasSpace("사과") && !HasSpace("과자");
  }

  /** Examples of refused words; a repeated word is reported as already
      used although its initial is wrong too. */
  lemma RejectExamples()
    ensures ValidateNextWord("사과", "나무", ["사과"]) == Reject(WrongStart("과"))
    ensures ValidateNextWord("사과", "사과", ["사과"]) == Reject(Used)
    ensures ValidateNextWord("사과", "과 자", ["사과"]) == Reject(Spaced)
  {
    TrimOfUnpadded("사과");
    assert !HasSpace("나무") && !HasSpace("사과");
    assert IsSpace("과 자"[1]);
  }

  /** `lastChar` skips trailing whitespace. */
  lemma LastCharExample()
    ensures LastChar(" 사과 \n") == "과"
  {
    var padded := " 사과 \n";
    assert SkipSpaces(padded, 1) == 1;
    assert SkipSpacesBack(padded, 1, 3) == 3;
    assert Trim(padded) == "사과";
  }

  /** Responder examples, after the user's "과자" was recorded: the
      sentinel ends the turn with nothing added. */
  lemma ConcedeExample()
    ensures ReplyStep(["사과", "과자"], "자", Reply(" 없음\n")) == Step(["사과", "과자"], Conceded)
  {
    var content := " 없음\n";
    assert SkipSpaces(content, 1) == 1;
    assert SkipSpacesBack(content, 1, 3) == 3;
    assert Trim(content) == Sentinel;
    assert !HasSpace(Sentinel);
    assert ReplyWord(content) == Some(Sentinel);
  }

  /** A reply with the wrong initial is not recorded. */
  lemma WrongInitialReplyExample()
    ensures ReplyStep(["사과", "과자"], "자", Reply("나무")) == Step(["사과", "과자"], RuleBreak("나무"))
  {
    TrimOfUnpadded("나무");
    assert !HasSpace("나무");
    assert ReplyWord("나무") == Some("나무");
  }

  /** A reply that was already played is not recorded. */
  lemma RepeatedReplyExample()
    ensures ReplyStep(["사과", "과자"], "자", Reply("과자")) == Step(["사과", "과자"], RuleBreak("과자"))
  {
    TrimOfUnpadded("과자");
    assert !HasSpace("과자");
    assert ReplyWord("과자") == Some("과자");
  }

  /** A valid reply is cleaned up and recorded. */
  lemma AnswerExample()
    ensures ReplyStep(["사과", "과자"], "자", Reply(" 자두 ")) == Step(["사과", "과자", "자두"], Answered("자두"))
  {
    var content := " 자두 ";
    assert SkipSpaces(content, 1) == 1;
    assert SkipSpacesBack(content, 1, 3) == 3;
    assert Trim(content) == "자두";
    assert !HasSpace("자두");
    assert ReplyWord(content) == Some("자두");
    assert "자두" != Sentinel && "자두" !in ["사과", "과자"];
  }

  /** A blank reply is a parse failure. */
  lemma BlankReplyExample()
    ensures ReplyStep(["사과", "과자"], "자", Reply(" ")) == Step(["사과", "과자"], Error)
  {
    assert AllSpace(" ");
  }
}
