/**
 The conversation repair of `_fix_user_history`: after a successful retry the
 user's prompt, and then the bot's reply, are appended to the stored
 conversation so that the history does not jump from one assistant turn to
 the next.
 */
module History {
  import opened Wrappers

  datatype Turn = Turn(role: string, content: string)

  function UserTurn(prompt: string): Turn {
    Turn("user", prompt)
  }

  function AssistantTurn(reply: string): Turn {
    Turn("assistant", reply)
  }

  /** Two assistant turns in a row somewhere in the history. */
  predicate HasAssistantPair(h: seq<Turn>) {
    exists k | 0 <= k < |h| - 1 :: h[k].role == "assistant" && h[k + 1].role == "assistant"
  }

  /**
   `_fix_user_history` as written: with a conversation and a prompt, the
   prompt is appended as a user turn unless the last turn's content equals
   it, whatever that turn's role; then a non-empty reply is appended as an
   assistant turn. Without a conversation or a prompt nothing is written.
   */
  function FixUserHistory(history: Option<seq<Turn>>, prompt: string, botReply: string): (r: Option<seq<Turn>>)
    ensures r.Some? <==> history.Some? && prompt != []
    ensures r.Some? ==>
      var h := history.value;
      var addsUser := h == [] || h[|h| - 1].content != prompt;
      && |r.value| == |h| + (if addsUser then 1 else 0) + (if botReply != [] then 1 else 0)
      && r.value[..|h|] == h
      && (addsUser ==> r.value[|h|] == UserTurn(prompt))
      && (botReply != [] ==> r.value[|r.value| - 1] == AssistantTurn(botReply))
  {
    if history.None? || prompt == [] then None
    else
      var h := history.value;
      var withUser := if h == [] || h[|h| - 1].content != prompt then h + [UserTurn(prompt)] else h;
      Some(if botReply != [] then withUser + [AssistantTurn(botReply)] else withUser)
  }

  /**
   The content-only comparison lets the repair produce exactly the jump it is
   meant to prevent: when the last assistant turn happens to read like the
   prompt, the reply is appended straight after it.
   */
  lemma FixUserHistoryAddsAssistantPair()
    ensures
      var h := [UserTurn("hi"), AssistantTurn("hi")];
      var r := FixUserHistory(Some(h), "hi", "hello");
      && !HasAssistantPair(h)
      && r == Some(h + [AssistantTurn("hello")])
      && HasAssistantPair(r.value)
  {
    var h := [UserTurn("hi"), AssistantTurn("hi")];
    var r := FixUserHistory(Some(h), "hi", "hello").value;
    assert r[1].role == "assistant" && r[2].role == "assistant";
  }

  /**
   The repair that keeps the promise of its docstring, that the context never
   goes assistant → assistant: the prompt is appended unless the last turn is
   that very user turn.
   */
  function FixUserHistoryByRole(history: Option<seq<Turn>>, prompt: string, botReply: string): (r: Option<seq<Turn>>)
    ensures r.Some? <==> history.Some? && prompt != []
    ensures r.Some? ==>
      var h := history.value;
      var addsUser := h == [] || h[|h| - 1] != UserTurn(prompt);
      && |r.value| == |h| + (if addsUser then 1 else 0) + (if botReply != [] then 1 else 0)
      && r.value[..|h|] == h
      && r.value[|r.value| - (if botReply != [] then 2 else 1)] == UserTurn(prompt)
      && (botReply != [] ==> r.value[|r.value| - 1] == AssistantTurn(botReply))
  {
    if history.None? || prompt == [] then None
    else
      var h := history.value;
      var withUser := if h == [] || h[|h| - 1] != UserTurn(prompt) then h + [UserTurn(prompt)] else h;
      Some(if botReply != [] then withUser + [AssistantTurn(botReply)] else withUser)
  }

  /** The corrected repair never creates two assistant turns in a row. */
  lemma {:induction false} FixUserHistoryByRoleKeepsAlternation(history: seq<Turn>, prompt: string, botReply: string)
    requires prompt != [] && !HasAssistantPair(history)
    ensures !HasAssistantPair(FixUserHistoryByRole(Some(history), prompt, botReply).value)
  {
    var r := FixUserHistoryByRole(Some(history), prompt, botReply).value;
    forall k | 0 <= k < |r| - 1 && r[k].role == "assistant" ensures r[k + 1].role != "assistant" {
      if k + 1 < |history| {
        assert r[k] == history[k] && r[k + 1] == history[k + 1];
      }
    }
  }

  /** Repairing twice with the same prompt and no reply adds nothing the second time. */
  lemma FixUserHistoryByRoleSettles(history: seq<Turn>, prompt: string)
    requires prompt != []
    ensures
      var once := FixUserHistoryByRole(Some(history), prompt, []);
      FixUserHistoryByRole(once, prompt, []) == once
  {
  }
}
