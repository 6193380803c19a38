# Reliability layer of the chain-of-thought retry plugin, in Dafny

The plugin sits between an AstrBot chat bot and its LLM provider. For every
completion it decides whether the text is a usable reply, a reply with a
chain of thought before a final-reply anchor, or a failure in disguise (an
error message, a truncated or structurally broken answer, an unbalanced tag).
Failures are retried against the stored request, at most once per request,
with a linear back-off; successes are committed, their thought logged to a
two-tier log, and the conversation history repaired.

This project models that layer as pure functions over `seq<char>`, maps and
immutable datatypes, and proves what its docstrings and comments promise.

- `text.dfy` — `Wrappers` (an `Option` type) and `Text`: Python's `\s` and
  `str.isspace`, ASCII `lower()`, substring search, `strip`, `replace(kw, "")`,
  `re.sub(r"\s+", " ", …).strip()`, `split("\n")` and `int(…)` on digits.
- `settings.dfy` — `Settings`: the options the layer reads, list parsing and
  the shipped defaults.
- `validator.dfy` — `Validator`: the last-anchor split, the bracket-tolerant
  tag detector and the three-way verdict of `_safe_process_response`.
- `tags.dfy` — `Tags`: incantation markers, pairs, counts and command
  extraction; dossier tags.
- `errors.dfy` — `ErrorSignals`: the error-signature regexes (as sequences of
  literal, `\s*` and `\d` pieces, with a greedy matcher proved equal to their
  regex meaning), `_should_retry_response`, `_is_truncated`,
  `_parse_status_codes` and the excluded-command prefix test.
- `store.dfy` — `Pending`: the pending-request map, retry guard and sweep.
- `orchestrator.dfy` — `Orchestrator`: the decisions of the response hook and
  of the error interceptor, the retry loop against a scripted provider, and
  the commit of its result.
- `logstore.dfy` — `ThoughtLog`: file names, the cold archive and the hot list.
- `history.dfy` — `History`: the conversation repair, as written and corrected.

Regular expressions are matched on the ASCII-folded text (`re.IGNORECASE`
restricted to ASCII letters); `\s` is Python's Unicode whitespace set; `\w`
(for `\b`) is ASCII letters, digits, `_` and the CJK ideographs U+4E00–U+9FFF.
The anchor is a literal phrase, then at most one of a set of marks (`[:：]?`),
then `\s*`, as in the default pattern.

On these points the model follows what the code does, which is easy to
misread:

- the retry delay is linear, `delay * attempt` (main.py:1001), not exponential;
- truncation is only the literal `[TRUNCATED_BY_LENGTH]` in the completion
  (main.py:830-833);
- the logged thought is the whole stripped text before the last anchor, tags
  included (main.py:360), and a reply without an anchor is stripped and
  keyword-filtered, not passed on unchanged (main.py:383-390);
- a tool-call response is never retried; if its text is also structurally
  rejected it is committed as an empty reply with the no-thought sentinel
  (main.py:580-583, 622, 650-660);
- `retryable_status_codes` is parsed but nothing consults it (main.py:252).

## Model

| member | source | states |
|---|---|---|
| `Settings.ParseLineList` | main.py:249-250 | every parsed entry is a stripped, lower-cased, non-empty line |
| `Settings.ParseLineListSelects` | main.py:249-250 | the parsed list is, in order, the stripped and lower-cased text of exactly the non-blank lines |
| `Settings.NonBlankLinesExact` | main.py:249-250 | the lines kept by `if k.strip()` are exactly those that are not blank |
| `Settings.NonBlankLinesIncrease` | main.py:249-250 | the kept lines stay in input order |
| `Settings.ParseLineListRoundTrip` | main.py:259-264 | a list of stripped lower-case entries written one per line parses back to itself |
| `Text.RemoveAllChanges` | main.py:389 | `replace(kw, "")` changes the text exactly when the keyword is non-empty and occurs in it |
| `Text.RemoveAllAtFirst` | main.py:389 | `replace` keeps the text before the leftmost occurrence, drops the occurrence and carries on behind it |
| `Text.RemoveEach` | main.py:387-389 | removing the keywords in turn only deletes characters, and leaves the text unchanged exactly when every keyword is empty or absent at its turn |
| `Text.NormalizeSpaces` | main.py:398-399 | a normalised command is stripped and single-spaced, empty exactly when the content was blank, and keeps the content's non-space characters in order with one space wherever whitespace separated them |
| `Text.SplitJoinLines` | main.py:250 | splitting lines that were joined with newlines gives the lines back |
| `Validator.LastAnchor` | main.py:356-359 | `finditer`'s last match: none exactly when the anchor never occurs, otherwise an occurrence with none after the point the scan resumes |
| `Validator.ScanFrom` | main.py:356 | every text has a `finditer` scan: each match is the leftmost from where the previous one resumed |
| `Validator.LastAnchorIsLastOfScan` | main.py:356-359 | for any phrase, including self-overlapping ones, the chosen match is the last match of the `finditer` scan |
| `Validator.LastAnchorIsLastOccurrence` | main.py:355-362 | for a phrase that cannot overlap itself, the last match is the last occurrence in the whole text |
| `Validator.SplitByFinalAnchor` | main.py:355-362 | none without an anchor; otherwise the stripped text before and after the last match, and the phrase never occurs in the reply |
| `Validator.FinalizeReply` | main.py:385-390 | the stripped text with keywords removed: never longer, no new characters, and equal to the stripped text exactly when every configured keyword is empty or absent |
| `Validator.TagVariantDetected` | main.py:202-213 | any opening bracket, an optional `/`, the start or end core in any ASCII case and any closing bracket is detected |
| `Validator.NoBracketNoTagMarker` | main.py:202-213 | text without an opening bracket is never flagged |
| `Validator.SafeProcess` | main.py:364-383 | empty text gives an empty reply; an anchor gives thought and filtered reply; no anchor but a tag variant is rejected; neither gives the filtered text |
| `Tags.SpacedMarkerMatches` | main.py:338-353 | a marker may have whitespace around the core and the slash, and ends just after its closing bracket |
| `Tags.CountMarkers` | main.py:413-422 | the number of non-overlapping marker matches is zero exactly when no marker occurs |
| `Tags.NextMarkerIsLeftmost` | main.py:413-422 | the search finds the leftmost marker from the current position |
| `Tags.CountMarkersFromFirst` | main.py:413-422 | `findall` counts the leftmost marker and goes on counting after its end |
| `Tags.FirstClose` | main.py:331-335 | the lazy content ends at the first closing marker after the opening one |
| `Tags.HasIncompleteIncantation` | main.py:410-427 | false for empty text, a disabled tag or no marker; true with markers but no pair; otherwise true exactly when the counts differ |
| `Tags.PairHasMarkers` | main.py:410-427 | a complete pair contains an opening and a closing marker, so both counts are positive |
| `Tags.PairStartingAt` | main.py:331-335 | the match at a position closes at the first closing marker after the opener (the lazy `.*?`), the earliest close possible; none means no pair opens there |
| `Tags.ExtractFrom` | main.py:392-408 | commands are non-empty and normalised; with no pair the rest of the text is returned unchanged, with one it gets shorter |
| `Tags.ExtractSkipsTo` | main.py:407 | where no pair starts, `re.sub` copies the text unchanged |
| `Tags.ExtractRemovesLeftmostPair` | main.py:398-407 | the leftmost pair is dropped, its normalised content becomes the next command unless empty, and the substitution goes on after it |
| `Tags.ExtractIncantationCommands` | main.py:392-408 | the text comes back unchanged exactly when it holds no complete pair, and then no command is reported |
| `Tags.ExtractIncantationFirstPair` | main.py:392-408 | on the whole text: the part before the leftmost pair is kept and its content is the first command |
| `Tags.HasIncompleteDossier` | main.py:429-437 | false when a complete pair exists; otherwise true exactly when an opening or closing marker appears |
| `Tags.DossierMarkerBoundary` | main.py:222-223 | after the bracket (and slash) and blanks, the keyword is a marker exactly when it ends the text or a non-word character follows |
| `Tags.DossierTagIsMarker` | main.py:218-223 | the bracketed dossier tag also satisfies the word-boundary marker pattern |
| `Tags.DossierPairHasMarkers` | main.py:429-437 | a complete dossier pair has both an opening and a closing marker |
| `ErrorSignals.MatchFrom` | main.py:893-906 | the greedy match of one signature ends within the text |
| `ErrorSignals.MatchFromSound` | main.py:893-906 | every greedy match is a match in the regex sense |
| `ErrorSignals.MatchFromComplete` | main.py:893-906 | for well-formed signatures every regex match is found by the greedy matcher |
| `ErrorSignals.SignatureSearchIsRegexSearch` | main.py:905-906 | the search over all starts and signatures decides the combined regex's `search` |
| `ErrorSignals.HasApiErrorPattern` | main.py:883-906 | false on empty text; true for `AstrBot` plus `请求失败` (case kept) or any signature (case ignored) |
| `ErrorSignals.ApiErrorInContext` | main.py:883-906 | an error signature is detected wherever the text is embedded |
| `ErrorSignals.ServerErrorDetected` | main.py:893 | `error code: 502` is recognised as a server error |
| `ErrorSignals.ShouldRetryResponse` | main.py:867-881 | a missing or blank completion, a configured keyword in the lower-cased text, or an error signature calls for a retry |
| `ErrorSignals.ShouldRetryInContext` | main.py:867-881 | a non-blank completion that calls for a retry still does with more text around it |
| `ErrorSignals.IsTruncated` | main.py:830-833 | truncation is the literal marker in the completion |
| `ErrorSignals.ParseStatusCodes` | main.py:847-848 | exactly the numbers of the lines that strip to digits |
| `ErrorSignals.StatusCodesRoundTrip` | main.py:847-848 | codes written one per line parse back to the set of those codes |
| `ErrorSignals.IsExcludedCommand` | main.py:530-532 | excluded exactly when the stripped, lower-cased message starts with a configured command |
| `ErrorSignals.TypedCommandIsExcluded` | main.py:530-532 | a configured command typed with leading blanks, in any case and followed by anything is excluded |
| `Pending.Record` | main.py:525-562 | no prompt or an excluded command leaves the store alone; otherwise the key holds a fresh unguarded entry and other keys are untouched |
| `Pending.RecordClearsGuard` | main.py:562 | re-recording a key clears its guard |
| `Pending.GuardHit` | main.py:858-860 | the guard hits only when the key is stored and its flag is set |
| `Pending.SetGuard` | main.py:862-865 | sets the flag of a stored key; an absent key changes nothing; other keys keep their entries |
| `Pending.SetGuardHits` | main.py:858-865 | after setting, the guard hits exactly for stored keys; setting twice is setting once; other keys are unaffected |
| `Pending.Sweep` | main.py:840-843 | removes exactly the entries older than 300 seconds and leaves the others untouched |
| `Pending.SweepAbsorbs` | main.py:835-843 | an earlier sweep followed by a later one equals the later one alone; sweeping is idempotent |
| `Pending.SweepKeepsGuards` | main.py:840-843 | a sweep does not change the guard of a surviving key |
| `Orchestrator.VisibleText` | main.py:651-655 | the reply alone, or, when a thought is displayed, the thinking banner first, the thought right after it, and the reply at the end |
| `Orchestrator.LogPayload` | main.py:657-660 | the thought, or the sentinel when there is none; never empty, so a commit always logs |
| `Orchestrator.OnResponse` | main.py:567-661 | the response is left alone exactly when it is the core's error, its key is unknown or guarded, or it holds `<NO_RESPONSE>`; a defective non-tool response sets the guard and retries; otherwise the reply is committed |
| `Orchestrator.InterceptApiError` | main.py:663-700 | a known, unguarded result with an error signature or keyword sets the guard and retries; nothing else happens |
| `Orchestrator.RetryHappensOnce` | main.py:606-609 | after either hook starts a retry, neither hook acts on that request again |
| `Orchestrator.ToolCallIsNeverRetried` | main.py:599-603 | a tool-call response is never retried |
| `Orchestrator.DefectiveIsLoopRefusal` | main.py:616-630 | the hook distrusts a completion exactly when the retry loop would refuse it, it is truncated with that check on, or its raw completion reports an upstream or 500 error |
| `Orchestrator.CheckAttempt` | main.py:996-1037 | an attempt passes exactly when it is non-empty, not rejected, tag-balanced and calls for no retry |
| `Orchestrator.CommitWouldBeAccepted` | main.py:622-630 | whatever the hook commits unretried, the retry loop would also accept |
| `Orchestrator.RunFrom` | main.py:988-1063 | success exactly when some remaining attempt passes, at the first one; sleeps of `delay * attempt` after each failure but the last |
| `Orchestrator.ExecuteRetrySequence` | main.py:983-1063 | at most `max_attempts` calls and `attempts - 1` sleeps of `max(0, delay) * attempt` |
| `Orchestrator.RetrySucceedsIffSomeAttemptPasses` | main.py:988-1063 | the loop succeeds exactly when one of its attempts would pass |
| `Orchestrator.RetryCommitsLastAttempt` | main.py:1039-1059 | on success the committed verdict is that of the last attempt made |
| `Orchestrator.RetryStopsAtFirstPass` | main.py:999-1037 | on success every earlier attempt was refused |
| `Orchestrator.TruncateToInt` | main.py:988 | Python's `int()` on a number: the integer part, truncated toward zero |
| `Orchestrator.Delay` | main.py:988 | whole seconds, within one second below a non-negative setting; zero for any setting below one second |
| `Orchestrator.TotalSleep` | main.py:1001 | a run of `a` attempts sleeps `delay * a * (a - 1) / 2` seconds in all |
| `Orchestrator.CommitRetry` | main.py:1039-1057 | the success exit repairs the history as written: the old history is a prefix, the prompt is appended unless the last turn's content equals it, a non-empty reply ends it; it logs a non-empty payload and displays the verdict |
| `Orchestrator.CommitRetryCorrected` | main.py:908-933 | the success exit with the role-aware repair: the history ends with the prompt and the reply and gains no assistant pair |
| `Orchestrator.CommitRetryDiffers` | main.py:926-929 | on `[user "hi", assistant "hi"]` with prompt `"hi"` the as-written commit produces an assistant pair and the corrected one does not |
| `Orchestrator.AfterRetry` | main.py:641-647 | success shows the accepted text; failure empties the completion exactly when a fallback is configured |
| `Orchestrator.FallbackText` | main.py:819-828 | the fallback reply followed by `clock % 3` zero-width spaces |
| `ThoughtLog.SanitizeFilename` | main.py:154-155 | same length, safe characters kept, unsafe ones become `_`, none remains |
| `ThoughtLog.SanitizeFixesSafeNames` | main.py:154-155 | safe names are their own file name; sanitising is idempotent |
| `ThoughtLog.SanitizeCollides` | main.py:154-155 | `a:b` and `a_b` share a hot file |
| `ThoughtLog.PyPrefix` | main.py:302 | Python's `t[:n]`, including negative `n` |
| `ThoughtLog.HotInsert` | main.py:296-302 | a prefix of the list with the new record in front, of length `min(old + 1, limit)` (Python slice rules for a negative limit) |
| `ThoughtLog.Save` | main.py:285-305 | nothing for an empty session or content; otherwise a cold block appended for the day and the hot list updated, nothing else touched |
| `ThoughtLog.Read` | main.py:307-321 | index `i` gives record `i - 1` when `1 <= i <= length` of a parsed file, shown with the sentinel replaced; nothing otherwise |
| `ThoughtLog.SaveThenRead` | main.py:296-318 | the thought just saved is read back first |
| `ThoughtLog.SaveShiftsReads` | main.py:296-318 | a save moves every earlier thought one index back, up to the limit |
| `ThoughtLog.SaveKeepsOtherSessions` | main.py:293-321 | sessions with another file name read as before |
| `ThoughtLog.SaveKeepsLimit` | main.py:301-302 | hot lists never exceed a non-negative limit |
| `History.FixUserHistory` | main.py:926-933 | as written: the prompt is added unless the last turn's content equals it, then a non-empty reply |
| `History.FixUserHistoryAddsAssistantPair` | main.py:926-933 | as written, the repair can put two assistant turns in a row |
| `History.FixUserHistoryByRole` | main.py:908-933 | corrected: the history ends with the user prompt, then the reply when there is one |
| `History.FixUserHistoryByRoleKeepsAlternation` | main.py:910-911 | corrected, the repair never creates two assistant turns in a row |
| `History.FixUserHistoryByRoleSettles` | main.py:926-930 | corrected, repeating the repair without a reply adds nothing |

## Left out

- Provider calls, the conversation manager, the event queue, `asyncio` tasks
  and sleeps: the provider is a script of optional completions, sleeps are
  returned as durations, and the conversation is passed in as a value.
- Real file I/O and JSON: files are maps from name to content; a hot file that
  does not parse is `Corrupt`. Write failures, which the code swallows, are
  not modelled. Clocks (`time.time()`, dates and stamps) are parameters.
- Request-key generation (`uuid`), SpectreCore detection and newline
  normalisation, `final_cot_stripper`, `dispatch_tool_command`,
  `_silence_event` and the message-chain plumbing: framework glue around the
  decisions modelled here.
- The HTML template, `_render_and_reply` and the `/cogito` summarisation loop:
  presentation and provider calls.
- The parts of a stored request the layer never inspects (contexts, images,
  tools, sender, provider parameters).
- User-configured regexes: the anchor is modelled as a literal phrase with an
  optional mark and trailing whitespace, which covers the default pattern but
  not arbitrary patterns.
- `Text.Fold`: `re.IGNORECASE` and `str.lower()` fold only ASCII letters here;
  Python also folds non-ASCII letters.
- `Tags.IsWordChar`: Python's `\w` in a `str` pattern is every character for
  which `str.isalnum()` holds, plus `_`; the model has ASCII letters and
  digits, `_` and the CJK ideographs U+4E00–U+9FFF only. So, for example,
  `<DOSSIER_UPDATEé` is a marker here and not in Python.
- `Tags.HasIncompleteDossier`: inherits the `Tags.IsWordChar` approximation
  through the `\b` after the keyword.
- `Text.IsDigits`: Python's `isdigit()` and `\d` also accept non-ASCII digits;
  only `0`–`9` are modelled.
- `ErrorSignals.IsTruncated`: called with a bare string the code always
  answers false; only the response form, the one the code uses, is modelled.
- `Orchestrator.Delay`: `retry_delay` is taken to be a number; a string
  setting, which `int()` would parse or reject, is not modelled.
- `Pending.Sweep`: timestamps are exact reals, not floats; the 60-second
  period of the sweep task is not modelled.
- `Orchestrator.ExecuteRetrySequence`: the first-success and
  success-iff-some-attempt-passes properties are stated in the lemmas
  `RetrySucceedsIffSomeAttemptPasses`, `RetryCommitsLastAttempt` and
  `RetryStopsAtFirstPass` rather than in its own contract.
- `Orchestrator.OnResponse`: when every retry fails and no fallback reply is
  configured, the code leaves the original, distrusted completion on the
  response; `AfterRetry` models this as written.

## Findings

| source | as written | input that shows it | evidently intended | confidence | as-written member | corrected member |
|---|---|---|---|---|---|---|
| main.py:926-929 | the prompt is appended only when the last turn's `content` differs from it, whatever the last turn's role | history `[user "hi", assistant "hi"]`, prompt `"hi"`, reply `"hello"` gives `… assistant "hi", assistant "hello"` | append the prompt unless the last turn is that user turn, so the history never goes assistant → assistant (the docstring at main.py:910-911) | medium, not executed | `History.FixUserHistoryAddsAssistantPair` | `History.FixUserHistoryByRoleKeepsAlternation` |
