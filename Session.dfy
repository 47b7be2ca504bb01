/** The state behind `setupChatbot` in src/Chatbot.js: the closure
    variables `usedWords` and `waiting`, with `resetGame` and `onSend`
    acting on them. */
module Chatbot {
  import opened JsString
  import opened WordChain

  class Session {
    /** The words played so far, oldest first. */
    var usedWords: seq<string>
    /** True while a request to the responder is outstanding. */
    var waiting: bool

    ghost predicate Valid()
      reads this
    {
      ValidChain(usedWords)
    }

    /** The two closure variables as `setupChatbot` declares them; its
        closing `resetGame()` call leaves them as they are. */
    constructor ()
      ensures Valid() && usedWords == [] && !waiting
    {
      usedWords := [];
      waiting := false;
    }

    /** `resetGame`: a new, empty word list. The busy flag is left alone. */
    method Reset()
      modifies this
      ensures Valid() && usedWords == [] && waiting == old(waiting)
    {
      usedWords := [];
    }

    /** `validateNextWord`: a query on the current word list that changes
        nothing. */
    method Validate(prev: string, next: string) returns (v: Verdict)
      ensures v == ValidateNextWord(prev, next, usedWords)
    {
      v := ValidateNextWord(prev, next, usedWords);
    }

    /** `onSend`, with the text of the input box, whether an API key is
        configured and the responder as parameters. While a request is
        outstanding it does nothing; otherwise it plays one turn and always
        releases the busy flag. */
    method Send(input: string, hasApiKey: bool, respond: Responder) returns (event: Event)
      requires Valid()
      modifies this
      ensures Valid()
      ensures old(waiting) ==> event == Ignored && usedWords == old(usedWords) && waiting
      ensures !old(waiting) ==>
        !waiting && Step(usedWords, event) == Advance(old(usedWords), input, hasApiKey, respond)
    {
      if waiting {
        return Ignored;
      }
      ghost var before := usedWords;
      AdvanceKeepsChain(before, input, hasApiKey, respond);
      var userText := Trim(input);
      if userText == [] {
        return Ignored;
      }
      var prev := LastWord(usedWords);
      var check := Validate(prev, userText);
      if check.Reject? {
        return Refused(check.reason);
      }
      usedWords := usedWords + [userText];
      var requiredInitial := LastChar(userText);
      if !hasApiKey {
        return NoApiKey;
      }
      waiting := true;
      var outcome := respond(requiredInitial, usedWords);
      var next := if outcome.Reply? then ReplyWord(outcome.content) else None;
      if next.None? {
        event := Error;
      } else if next.value == Sentinel {
        event := Conceded;
      } else {
        var dup := next.value in usedWords;
        var validStart := StartsWith(next.value, requiredInitial);
        if dup || !validStart {
          event := RuleBreak(next.value);
        } else {
          usedWords := usedWords + [next.value];
          event := Answered(next.value);
        }
      }
      waiting := false;
    }
  }
}
