/**
 The pending-request store: what `store_llm_request` records per request key,
 the retry guard that makes each request retried at most once per pipeline
 pass, and the periodic time-to-live sweep.
 */
module Pending {
  import opened Wrappers
  import opened Text
  import opened ErrorSignals

  /** Seconds an entry survives in the store before the sweep drops it. */
  const EntryTtl: real := 300.0

  /**
   The parameters kept for a retry. Contexts, images, tools, sender and
   provider parameters are opaque to the reliability layer and left out.
   */
  datatype Entry = Entry(prompt: string, conversationId: Option<string>, timestamp: real, guard: bool)

  type Store = map<string, Entry>

  /**
   `store_llm_request`: a request without a prompt, or whose stripped,
   lower-cased message starts with an excluded command, is not recorded; any
   other replaces whatever was stored under its key, with the guard clear.
   */
  function Record(store: Store, key: string, message: string, excludes: seq<string>,
                  prompt: Option<string>, conversationId: Option<string>, now: real): (r: Store)
    ensures prompt.None? || IsExcludedCommand(message, excludes) ==> r == store
    ensures prompt.Some? && !IsExcludedCommand(message, excludes) ==>
      key in r && r[key] == Entry(prompt.value, conversationId, now, false)
    ensures forall k :: k != key ==> (k in r <==> k in store) && (k in r ==> r[k] == store[k])
  {
    if prompt.None? || IsExcludedCommand(message, excludes) then store
    else store[key := Entry(prompt.value, conversationId, now, false)]
  }

  /** `_retry_guard_hit`: the key is stored and its guard is set. */
  function GuardHit(store: Store, key: string): (r: bool)
    ensures r <==> key in store && store[key].guard
  {
    key in store && store[key].guard
  }

  /** `_set_retry_guard`: sets the guard of a stored key; an absent key is left absent. */
  function SetGuard(store: Store, key: string): (r: Store)
    ensures r.Keys == store.Keys
    ensures key in store ==> r[key] == store[key].(guard := true)
    ensures forall k :: k in store && k != key ==> r[k] == store[k]
  {
    if key in store then store[key := store[key].(guard := true)] else store
  }

  /** Setting the guard makes it hit exactly when the key is stored, and setting it again changes nothing. */
  lemma SetGuardHits(store: Store, key: string)
    ensures GuardHit(SetGuard(store, key), key) <==> key in store
    ensures SetGuard(SetGuard(store, key), key) == SetGuard(store, key)
    ensures forall k :: k != key ==> GuardHit(SetGuard(store, key), k) == GuardHit(store, k)
  {
  }

  /** A newly recorded request is never guarded, whatever happened to the key before. */
  lemma RecordClearsGuard(store: Store, key: string, message: string, excludes: seq<string>,
                          prompt: string, conversationId: Option<string>, now: real)
    requires !IsExcludedCommand(message, excludes)
    ensures !GuardHit(Record(store, key, message, excludes, Some(prompt), conversationId, now), key)
  {
  }

  /** An entry is stale once more than the time-to-live has passed since it was recorded. */
  predicate Expired(e: Entry, now: real) {
    now - e.timestamp > EntryTtl
  }

  /** The body of `_periodic_cleanup_task`: every expired entry is removed, every other kept as it was. */
  function Sweep(store: Store, now: real): (r: Store)
    ensures forall k :: k in r <==> k in store && !Expired(store[k], now)
    ensures forall k :: k in r ==> r[k] == store[k]
  {
    map k | k in store && !Expired(store[k], now) :: store[k]
  }

  /**
   Sweeping at an earlier time and then at a later one is the same as
   sweeping only at the later one; in particular a sweep is idempotent.
   */
  lemma SweepAbsorbs(store: Store, earlier: real, later: real)
    requires earlier <= later
    ensures Sweep(Sweep(store, earlier), later) == Sweep(store, later)
  {
    var a, b := Sweep(Sweep(store, earlier), later), Sweep(store, later);
    forall k ensures k in a <==> k in b {
      if k in b {
        assert !Expired(store[k], earlier);
      }
    }
  }

  /** A sweep neither sets nor clears a guard: a surviving key keeps its verdict. */
  lemma SweepKeepsGuards(store: Store, now: real, key: string)
    requires key in Sweep(store, now)
    ensures GuardHit(Sweep(store, now), key) == GuardHit(store, key)
  {
  }
}
