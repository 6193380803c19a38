/**
 The decisions of the reliability layer: whether a fresh completion is
 committed, passed through or retried (`process_and_retry_on_llm_response`),
 whether a decorated result is intercepted as an error (`intercept_api_error`),
 and the sequential retry loop of `_execute_retry_sequence` run against a
 scripted provider.
 */
module Orchestrator {
  import opened Wrappers
  import opened Text
  import opened Settings
  import opened Validator
  import opened Tags
  import opened ErrorSignals
  import opened Pending
  import opened ThoughtLog
  import opened History

  /**
   What the hook sees of an LLM response: its role, its completion text, the
   finish reason of its first choice (none when there is no raw completion or
   no choice), and `str(raw_completion)`.
   */
  datatype Response = Response(role: string, completion: string, finishReason: Option<string>, rawRepr: string)

  /** A tool-call response is handed on untouched: its text is not the reply. */
  predicate IsToolCall(resp: Response) {
    resp.finishReason == Some("tool_calls")
  }

  /** The core's own error result, which it overwrites afterwards; the hook leaves it alone. */
  predicate IsCoreError(resp: Response) {
    resp.role == "err" && Contains(resp.completion, "AstrBot 请求失败")
  }

  /** A raw completion that reports an upstream or server error. */
  predicate RawReportsError(resp: Response) {
    var raw := Fold(resp.rawRepr);
    Contains(raw, "error") && (Contains(raw, "upstream") || Contains(raw, "500"))
  }

  /** The marker with which a silent request declares that no reply is wanted. */
  const NoResponseMarker: string := "<NO_RESPONSE>"

  /**
   Any reason to distrust a fresh completion: it is blank, matches an error
   keyword or signature, is truncated (when that check is on), fails the
   structural validator, comes with an error in the raw completion, or holds
   an unbalanced incantation or dossier tag.
   */
  predicate Defective(cfg: Config, resp: Response) {
    var text := resp.completion;
    || IsBlank(text)
    || ShouldRetryResponse(Some(text), cfg.errorKeywords)
    || (cfg.enableTruncationRetry && IsTruncated(text))
    || SafeProcess(cfg, text).Rejected?
    || RawReportsError(resp)
    || HasIncompleteIncantation(cfg, text)
    || HasIncompleteDossier(text)
  }

  /** The thought of a verdict, empty when there is none. */
  function ThoughtOf(v: Validation): string {
    if v.ThoughtAndReply? then v.thought else []
  }

  /** The line that introduces a displayed thought. */
  const ThinkingBanner: string := "🤔 罗莎思考中：\n"

  /**
   The text committed for a verdict: the reply alone, or the thought and the
   reply under the thinking banner when thoughts are displayed and there is one.
   */
  function VisibleText(cfg: Config, v: Validation): (r: string)
    ensures !cfg.displayCotText || ThoughtOf(v) == [] ==> r == v.Reply()
    ensures cfg.displayCotText && ThoughtOf(v) != [] ==>
      && |r| > |ThinkingBanner| + |ThoughtOf(v)| + |v.Reply()|
      && r[..|ThinkingBanner|] == ThinkingBanner
      && r[|ThinkingBanner|..|ThinkingBanner| + |ThoughtOf(v)|] == ThoughtOf(v)
      && r[|r| - |v.Reply()|..] == v.Reply()
      && Occurs(r, ThoughtOf(v))
  {
    var thought := ThoughtOf(v);
    if cfg.displayCotText && thought != [] then
      var head := ThinkingBanner;
      var r := head + thought + "\n\n---\n\n" + v.Reply();
      assert OccursAt(r, thought, |head|) by { assert r[|head|..|head| + |thought|] == thought; }
      r
    else v.Reply()
  }

  /** What is written to the thought log on a commit: the thought, or the sentinel; never empty. */
  function LogPayload(v: Validation): (r: string)
    ensures r != []
    ensures ThoughtOf(v) != [] ==> r == ThoughtOf(v)
    ensures ThoughtOf(v) == [] ==> r == NoThoughtFlag
  {
    if ThoughtOf(v) != [] then ThoughtOf(v) else NoThoughtFlag
  }

  // ---------------------------------------------------------------- on_llm_response

  datatype Reaction =
    | Untouched
    | Retry
    | Commit(completion: string, logPayload: string)

  /**
   `process_and_retry_on_llm_response` up to the retry sequence: the core's
   own error, an unknown or already guarded key, and the silent marker leave
   the response alone; a defective response that is not a tool call sets the
   guard and retries; anything else commits the validator's reply and logs
   its thought. A structural rejection that slips through as a tool call
   commits an empty reply.
   */
  function OnResponse(cfg: Config, store: Store, key: string, resp: Response): (r: (Reaction, Store))
    ensures r.0.Untouched? <==>
      IsCoreError(resp) || key !in store || GuardHit(store, key) || Occurs(resp.completion, NoResponseMarker)
    ensures r.0.Retry? <==>
      && !IsCoreError(resp) && key in store && !GuardHit(store, key)
      && !Occurs(resp.completion, NoResponseMarker)
      && !IsToolCall(resp) && Defective(cfg, resp)
    ensures r.0.Retry? ==> r.1 == SetGuard(store, key) && GuardHit(r.1, key)
    ensures !r.0.Retry? ==> r.1 == store
    ensures r.0.Commit? ==>
      var v := SafeProcess(cfg, resp.completion);
      && (v.Rejected? ==> IsToolCall(resp) && r.0 == Commit([], NoThoughtFlag))
      && (!v.Rejected? ==> r.0 == Commit(VisibleText(cfg, v), LogPayload(v)))
  {
    var text := resp.completion;
    if IsCoreError(resp) then (Untouched, store)
    else
      var v := SafeProcess(cfg, text);
      if key !in store || GuardHit(store, key) then (Untouched, store)
      else if Contains(text, NoResponseMarker) then (Untouched, store)
      else if !IsToolCall(resp) && Defective(cfg, resp) then (Retry, SetGuard(store, key))
      else if v.Rejected? then (Commit([], NoThoughtFlag), store)
      else (Commit(VisibleText(cfg, v), LogPayload(v)), store)
  }

  // ---------------------------------------------------------------- on_decorating_result

  /**
   `intercept_api_error`: for a known, unguarded key with a result, an error
   signature or a configured keyword (both sides lower-cased) in the result
   text sets the guard and starts a retry; anything else is left alone.
   */
  function InterceptApiError(cfg: Config, store: Store, key: string, result: Option<string>): (r: (Reaction, Store))
    ensures r.0.Untouched? || r.0.Retry?
    ensures r.0.Retry? <==>
      && key in store && !GuardHit(store, key) && result.Some?
      && (|| HasApiErrorPattern(result.value)
          || exists k :: 0 <= k < |cfg.errorKeywords| && Occurs(Fold(result.value), Fold(cfg.errorKeywords[k])))
    ensures r.0.Retry? ==> r.1 == SetGuard(store, key) && GuardHit(r.1, key)
    ensures r.0.Untouched? ==> r.1 == store
  {
    if key !in store || GuardHit(store, key) || result.None? then (Untouched, store)
    else
      var text := result.value;
      var keyword := exists k | 0 <= k < |cfg.errorKeywords| :: Contains(Fold(text), Fold(cfg.errorKeywords[k]));
      if HasApiErrorPattern(text) || keyword then (Retry, SetGuard(store, key))
      else (Untouched, store)
  }

  /**
   The idempotency guard: once either hook has decided to retry a request,
   neither hook acts on that request again, whatever response or result
   arrives next.
   */
  lemma RetryHappensOnce(cfg: Config, store: Store, key: string, first: Response, again: Response, result: Option<string>)
    requires OnResponse(cfg, store, key, first).0.Retry? || InterceptApiError(cfg, store, key, result).0.Retry?
    ensures
      var after := if OnResponse(cfg, store, key, first).0.Retry? then OnResponse(cfg, store, key, first).1
                   else InterceptApiError(cfg, store, key, result).1;
      && OnResponse(cfg, after, key, again) == (Untouched, after)
      && InterceptApiError(cfg, after, key, result) == (Untouched, after)
  {
  }

  /** A tool-call response is never retried, however defective its text. */
  lemma ToolCallIsNeverRetried(cfg: Config, store: Store, key: string, resp: Response)
    requires IsToolCall(resp)
    ensures !OnResponse(cfg, store, key, resp).0.Retry?
  {
  }

  // ---------------------------------------------------------------- retry loop

  /**
   The checks `_execute_retry_sequence` applies to one attempt: a response
   with a non-empty completion that the validator accepts, with balanced
   incantation and dossier tags, and that calls for no retry. The verdict is
   what gets committed.
   */
  function CheckAttempt(cfg: Config, completion: Option<string>): (r: Option<Validation>)
    ensures r.Some? <==>
      && completion.Some? && completion.value != []
      && !SafeProcess(cfg, completion.value).Rejected?
      && !HasIncompleteIncantation(cfg, completion.value)
      && !HasIncompleteDossier(completion.value)
      && !ShouldRetryResponse(completion, cfg.errorKeywords)
    ensures r.Some? ==> r.value == SafeProcess(cfg, completion.value) && !r.value.Rejected?
  {
    match completion
    case None => None
    case Some(text) =>
      if text == [] then None
      else
        var v := SafeProcess(cfg, text);
        if v.Rejected? || HasIncompleteIncantation(cfg, text) || HasIncompleteDossier(text)
           || ShouldRetryResponse(completion, cfg.errorKeywords)
        then None
        else Some(v)
  }

  /**
   Every completion the first pass would commit without a retry (and that is
   not a tool call) is one the retry loop also accepts: the loop is never
   stricter than the hook that sends requests to it.
   */
  lemma CommitWouldBeAccepted(cfg: Config, store: Store, key: string, resp: Response)
    requires OnResponse(cfg, store, key, resp).0.Commit? && !IsToolCall(resp)
    ensures CheckAttempt(cfg, Some(resp.completion)) == Some(SafeProcess(cfg, resp.completion))
  {
    assert !IsBlank(resp.completion);
  }

  /**
   The hook distrusts a completion exactly when the retry loop would refuse it,
   or it is truncated (with that check on), or its raw completion reports an
   upstream or server error: the two checks the loop does not repeat.
   */
  lemma DefectiveIsLoopRefusal(cfg: Config, resp: Response)
    ensures Defective(cfg, resp) <==>
      || CheckAttempt(cfg, Some(resp.completion)).None?
      || (cfg.enableTruncationRetry && IsTruncated(resp.completion))
      || RawReportsError(resp)
  {
  }

  /** The provider's answer to attempt `n` (counting from 0); past the script, or a failed call, there is none. */
  function ScriptAt(script: seq<Option<string>>, n: nat): Option<string> {
    if n < |script| then script[n] else None
  }

  /**
   What the retry loop did: whether an attempt was accepted, how many provider
   calls it made, the sleeps between them, and the accepted verdict.
   */
  datatype RetryRun = RetryRun(success: bool, attempts: nat, sleeps: seq<int>, accepted: Option<Validation>)

  /**
   The loop from attempt `n` (0-based) on, up to `maxAttempts` attempts, where
   `check(j)` is the verdict on attempt `j`; each failure but the last is
   followed by `delay * attempt` seconds of sleep.
   */
  function RunFrom(check: nat -> Option<Validation>, n: nat, maxAttempts: int, delay: nat): (r: RetryRun)
    requires n <= maxAttempts || n == 0
    decreases maxAttempts - n
    ensures n <= r.attempts && (r.attempts <= maxAttempts || r.attempts == n)
    ensures r.success <==> exists j: nat :: n <= j < maxAttempts && check(j).Some?
    ensures r.success ==>
      && r.attempts > n
      && r.accepted == check(r.attempts - 1)
      && r.accepted.Some?
      && forall j: nat :: n <= j < r.attempts - 1 ==> check(j).None?
    ensures !r.success ==> r.accepted.None? && r.attempts == (if maxAttempts > n then maxAttempts else n)
    ensures |r.sleeps| == (if r.attempts > n then r.attempts - n - 1 else 0)
    ensures forall k :: 0 <= k < |r.sleeps| ==> r.sleeps[k] == delay * (n + k + 1)
  {
    if n >= maxAttempts then RetryRun(false, n, [], None)
    else if check(n).Some? then RetryRun(true, n + 1, [], check(n))
    else
      var rest := RunFrom(check, n + 1, maxAttempts, delay);
      var sleep := if n + 1 < maxAttempts then [delay * (n + 1)] else [];
      RetryRun(rest.success, rest.attempts, sleep + rest.sleeps, rest.accepted)
  }

  /** Python's `int(x)` on a number: the integer part, truncated toward zero. */
  function TruncateToInt(x: real): (n: int)
    ensures x >= 0.0 ==> n as real <= x < n as real + 1.0
    ensures x < 0.0 ==> n as real - 1.0 < x <= n as real
  {
    if x >= 0.0 then x.Floor else -((-x).Floor)
  }

  /**
   The delay `max(0, int(retry_delay))` the loop multiplies by the attempt
   number: whole seconds, a fractional part dropped, and never negative.
   */
  function Delay(cfg: Config): (d: nat)
    ensures cfg.retryDelay >= 0.0 ==> d as real <= cfg.retryDelay < d as real + 1.0
    ensures cfg.retryDelay < 1.0 ==> d == 0
  {
    var n := TruncateToInt(cfg.retryDelay);
    if n > 0 then n else 0
  }

  /** The verdict on attempt `j` (0-based) of a run against `script`. */
  function Verdicts(cfg: Config, script: seq<Option<string>>): nat -> Option<Validation> {
    (j: nat) => CheckAttempt(cfg, ScriptAt(script, j))
  }

  /**
   `_execute_retry_sequence` against a scripted provider: at most
   `max_attempts` calls, each failed one but the last followed by a sleep of
   the non-negative delay times the attempt number; on success the verdict of
   the last attempt made is the accepted one.
   */
  function ExecuteRetrySequence(cfg: Config, script: seq<Option<string>>): (r: RetryRun)
    ensures r.attempts <= (if cfg.maxAttempts > 0 then cfg.maxAttempts else 0)
    ensures r.success ==> r.attempts >= 1 && r.accepted.Some?
    ensures !r.success ==> r.accepted.None? && r.attempts == (if cfg.maxAttempts > 0 then cfg.maxAttempts else 0)
    ensures |r.sleeps| == (if r.attempts > 0 then r.attempts - 1 else 0)
    ensures forall k :: 0 <= k < |r.sleeps| ==> r.sleeps[k] == Delay(cfg) * (k + 1)
  {
    RunFrom(Verdicts(cfg, script), 0, cfg.maxAttempts, Delay(cfg))
  }

  /** The loop succeeds exactly when one of its `max_attempts` attempts would be accepted. */
  lemma RetrySucceedsIffSomeAttemptPasses(cfg: Config, script: seq<Option<string>>)
    ensures ExecuteRetrySequence(cfg, script).success <==>
      exists j: nat :: j < cfg.maxAttempts && CheckAttempt(cfg, ScriptAt(script, j)).Some?
  {
    var check := Verdicts(cfg, script);
    var r := RunFrom(check, 0, cfg.maxAttempts, Delay(cfg));
    assert forall j: nat :: check(j) == CheckAttempt(cfg, ScriptAt(script, j));
  }

  /** A successful loop commits the verdict of the last attempt it made. */
  lemma RetryCommitsLastAttempt(cfg: Config, script: seq<Option<string>>)
    requires ExecuteRetrySequence(cfg, script).success
    ensures
      var r := ExecuteRetrySequence(cfg, script);
      r.accepted == CheckAttempt(cfg, ScriptAt(script, r.attempts - 1))
  {
    var check := Verdicts(cfg, script);
    var r := RunFrom(check, 0, cfg.maxAttempts, Delay(cfg));
    assert r.accepted == check(r.attempts - 1);
  }

  /** A successful loop stops at the first accepted attempt: every earlier attempt `j` was refused. */
  lemma RetryStopsAtFirstPass(cfg: Config, script: seq<Option<string>>, j: nat)
    requires ExecuteRetrySequence(cfg, script).success
    requires j < ExecuteRetrySequence(cfg, script).attempts - 1
    ensures CheckAttempt(cfg, ScriptAt(script, j)).None?
  {
    var check := Verdicts(cfg, script);
    var r := RunFrom(check, 0, cfg.maxAttempts, Delay(cfg));
    assert check(j).None?;
  }

  function Sum(xs: seq<int>): int
    decreases |xs|
  {
    if xs == [] then 0 else xs[0] + Sum(xs[1..])
  }

  lemma {:induction false} SumOfSteps(xs: seq<int>, delay: int, n: nat)
    requires forall k :: 0 <= k < |xs| ==> xs[k] == delay * (n + k + 1)
    decreases |xs|
    ensures 2 * Sum(xs) == delay * |xs| * (2 * n + |xs| + 1)
  {
    if xs != [] {
      SumOfSteps(xs[1..], delay, n + 1);
      StepSumArith(delay, n, |xs|);
    }
  }

  /** The inductive step of `SumOfSteps`: the first sleep plus the sum of the rest. */
  lemma StepSumArith(delay: int, n: nat, m: nat)
    requires m >= 1
    ensures 2 * delay * (n + 1) + delay * (m - 1) * (2 * (n + 1) + m) == delay * m * (2 * n + m + 1)
  {
    var a, b := 2 * (n + 1), (m - 1) * (2 * (n + 1) + m);
    assert a + b == m * (2 * n + m + 1);
    assert delay * a + delay * b == delay * (a + b);
  }

  /** A run of `a` attempts waits `delay * a * (a - 1) / 2` seconds in all: the schedule is linear, not exponential. */
  lemma TotalSleep(check: nat -> Option<Validation>, maxAttempts: int, delay: nat)
    ensures
      var r := RunFrom(check, 0, maxAttempts, delay);
      r.attempts >= 1 ==> 2 * Sum(r.sleeps) == delay * (r.attempts - 1) * r.attempts
  {
    var r := RunFrom(check, 0, maxAttempts, delay);
    var a := r.attempts;
    if a >= 1 {
      SumOfSteps(r.sleeps, delay, 0);
      assert 2 * 0 + |r.sleeps| + 1 == a;
    }
  }

  /** What the success exit of the retry loop writes: the repaired conversation, the log entry and the displayed result. */
  datatype Commitment = Commitment(history: Option<seq<Turn>>, logPayload: string, visible: string)

  /**
   The success exit of `_execute_retry_sequence` for an accepted verdict: the
   conversation is repaired by `_fix_user_history` as written, the thought or
   the sentinel is logged, and the displayed text is the result.
   */
  function CommitRetry(cfg: Config, v: Validation, history: Option<seq<Turn>>, prompt: string): (r: Commitment)
    requires !v.Rejected?
    ensures r.logPayload != [] && r.visible == VisibleText(cfg, v)
    ensures r.history.Some? <==> history.Some? && prompt != []
    ensures r.history.Some? ==> |history.value| <= |r.history.value| && r.history.value[..|history.value|] == history.value
    ensures r.history.Some? ==>
      var h := history.value;
      (|r.history.value| > |h| && r.history.value[|h|] == UserTurn(prompt)) || (h != [] && h[|h| - 1].content == prompt)
    ensures r.history.Some? && v.Reply() != [] ==>
      var h := r.history.value;
      |h| >= 1 && h[|h| - 1] == AssistantTurn(v.Reply())
  {
    Commitment(FixUserHistory(history, prompt, v.Reply()), LogPayload(v), VisibleText(cfg, v))
  }

  /**
   The success exit with the role-aware repair: the history ends with the
   prompt and the reply, and never gains two assistant turns in a row.
   */
  function CommitRetryCorrected(cfg: Config, v: Validation, history: Option<seq<Turn>>, prompt: string): (r: Commitment)
    requires !v.Rejected?
    ensures r.logPayload != [] && r.visible == VisibleText(cfg, v)
    ensures r.history.Some? <==> history.Some? && prompt != []
    ensures r.history.Some? ==> |history.value| <= |r.history.value| && r.history.value[..|history.value|] == history.value
    ensures r.history.Some? && v.Reply() != [] ==>
      var h := r.history.value;
      |h| >= 2 && h[|h| - 2] == UserTurn(prompt) && h[|h| - 1] == AssistantTurn(v.Reply())
    ensures r.history.Some? && !HasAssistantPair(history.value) ==> !HasAssistantPair(r.history.value)
  {
    CorrectedRepairEnds(history, prompt, v.Reply());
    Commitment(FixUserHistoryByRole(history, prompt, v.Reply()), LogPayload(v), VisibleText(cfg, v))
  }

  lemma CorrectedRepairEnds(history: Option<seq<Turn>>, prompt: string, reply: string)
    ensures var r := FixUserHistoryByRole(history, prompt, reply);
      && (r.Some? ==> |history.value| <= |r.value| && r.value[..|history.value|] == history.value)
      && (r.Some? && reply != [] ==>
            |r.value| >= 2 && r.value[|r.value| - 2] == UserTurn(prompt) && r.value[|r.value| - 1] == AssistantTurn(reply))
      && (r.Some? && !HasAssistantPair(history.value) ==> !HasAssistantPair(r.value))
  {
    var r := FixUserHistoryByRole(history, prompt, reply);
    if r.Some? && !HasAssistantPair(history.value) {
      FixUserHistoryByRoleKeepsAlternation(history.value, prompt, reply);
    }
  }

  /**
   The as-written commit can leave the conversation going assistant → assistant
   where the role-aware one does not.
   */
  lemma CommitRetryDiffers(cfg: Config)
    ensures
      var v := ReplyOnly("hello");
      var h := Some([UserTurn("hi"), AssistantTurn("hi")]);
      && HasAssistantPair(CommitRetry(cfg, v, h, "hi").history.value)
      && !HasAssistantPair(CommitRetryCorrected(cfg, v, h, "hi").history.value)
  {
    FixUserHistoryAddsAssistantPair();
    var h := [UserTurn("hi"), AssistantTurn("hi")];
    FixUserHistoryByRoleKeepsAlternation(h, "hi", "hello");
  }

  /**
   The completion left on the response after a retry: the accepted text as
   displayed, or, when every attempt failed, an empty completion if a fallback
   reply is configured (it is sent separately) and the original otherwise.
   */
  function AfterRetry(cfg: Config, original: string, run: RetryRun): (r: (string, bool))
    requires run.success ==> run.accepted.Some?
    ensures run.success ==> r == (VisibleText(cfg, run.accepted.value), false)
    ensures !run.success ==> (r.1 <==> cfg.fallbackReply != [])
    ensures !run.success && cfg.fallbackReply != [] ==> r.0 == []
    ensures !run.success && cfg.fallbackReply == [] ==> r.0 == original
  {
    if run.success then (VisibleText(cfg, run.accepted.value), false)
    else if cfg.fallbackReply != [] then ([], true)
    else (original, false)
  }

  /**
   `_apply_fallback`: the fallback reply followed by zero to two zero-width
   spaces chosen by the clock, so that repeated fallbacks are not identical.
   */
  function FallbackText(cfg: Config, clock: nat): (r: string)
    ensures |cfg.fallbackReply| <= |r| <= |cfg.fallbackReply| + 2
    ensures r[..|cfg.fallbackReply|] == cfg.fallbackReply
    ensures forall k :: |cfg.fallbackReply| <= k < |r| ==> r[k] == '\U{200B}'
    ensures |r| - |cfg.fallbackReply| == clock % 3
  {
    cfg.fallbackReply + seq(clock % 3, _ => '\U{200B}')
  }
}
