/**
 The structural validator: the last-anchor split of `_split_by_final_anchor`,
 the bracket-tolerant chain-of-thought tag detector, the keyword filter of
 `_finalize_reply_only`, and the three-way verdict of `_safe_process_response`
 (thought and reply, reply only, or the zero-trust rejection the code raises
 as `ValueError`).
 */
module Validator {
  import opened Wrappers
  import opened Text
  import opened Settings

  // ---------------------------------------------------------------- anchor

  /** The anchor phrase begins at `p` of the text, ignoring ASCII case. */
  ghost predicate AnchorAt(text: string, a: Anchor, p: nat) {
    OccursAt(Fold(text), Fold(a.phrase), p)
  }

  /** The anchor pattern matches somewhere in the text. */
  ghost predicate AnchorOccurs(text: string, a: Anchor) {
    exists p: nat :: AnchorAt(text, a, p)
  }

  /** End of the anchor match that starts at `p` of the folded text: the phrase, an optional mark, then greedy whitespace. */
  function AnchorEnd(fs: string, a: Anchor, p: nat): (e: nat)
    requires OccursAt(fs, Fold(a.phrase), p)
    ensures p + |a.phrase| <= e <= |fs|
    ensures forall k :: p + |a.phrase| < k < e ==> IsSpace(fs[k])
  {
    var q := p + |a.phrase|;
    var q' := if q < |fs| && fs[q] in a.marks then q + 1 else q;
    SkipSpace(fs, q')
  }

  /**
   Where `finditer` resumes after the match at `p`: at its end, or one further
   when the match was empty (possible only for an empty phrase).
   */
  function NextScan(fs: string, a: Anchor, p: nat): (n: nat)
    requires OccursAt(fs, Fold(a.phrase), p)
    ensures n > p && n >= AnchorEnd(fs, a, p)
    ensures |a.phrase| > 0 ==> n == AnchorEnd(fs, a, p)
  {
    var e := AnchorEnd(fs, a, p);
    if e == p then p + 1 else e
  }

  /** The left-to-right, non-overlapping scan of `finditer`, remembering the start of the latest match. */
  function LastAnchorFrom(fs: string, a: Anchor, from: nat, last: Option<nat>): (r: Option<nat>)
    requires from <= |fs| + 1
    requires last.Some? ==> OccursAt(fs, Fold(a.phrase), last.value) && from == NextScan(fs, a, last.value)
    decreases |fs| + 1 - from
    ensures r.None? ==> last.None? && forall q: nat :: from <= q ==> !OccursAt(fs, Fold(a.phrase), q)
    ensures r.Some? ==> OccursAt(fs, Fold(a.phrase), r.value)
    ensures r.Some? ==> forall q: nat :: NextScan(fs, a, r.value) <= q ==> !OccursAt(fs, Fold(a.phrase), q)
    ensures last.Some? ==> r.Some? && r.value >= last.value
  {
    match FindFrom(fs, Fold(a.phrase), from)
    case None => last
    case Some(p) => LastAnchorFrom(fs, a, NextScan(fs, a, p), Some(p))
  }

  /**
   Start of the last anchor match `finditer` reports: none exactly when the
   anchor never occurs; otherwise an occurrence after which (from where the
   scan resumes) the anchor never occurs again.
   */
  function LastAnchor(text: string, a: Anchor): (r: Option<nat>)
    ensures r.None? <==> !AnchorOccurs(text, a)
    ensures r.Some? ==> AnchorAt(text, a, r.value)
    ensures r.Some? ==> forall q: nat :: NextScan(Fold(text), a, r.value) <= q ==> !AnchorAt(text, a, q)
  {
    var r := LastAnchorFrom(Fold(text), a, 0, None);
    assert r.None? ==> forall p: nat :: !AnchorAt(text, a, p);
    assert r.Some? ==> AnchorAt(text, a, r.value);
    r
  }

  /**
   `ms` are the starts of the matches `finditer` reports from `from`, in order:
   each is the leftmost occurrence at or after the point where the scan
   resumed, and after the last one the anchor does not occur again.
   */
  ghost predicate IsScan(fs: string, a: Anchor, from: nat, ms: seq<nat>)
    decreases |ms|
  {
    var fp := Fold(a.phrase);
    if |ms| == 0 then forall q: nat :: from <= q ==> !OccursAt(fs, fp, q)
    else
      && from <= ms[0] && OccursAt(fs, fp, ms[0])
      && (forall q: nat :: from <= q < ms[0] ==> !OccursAt(fs, fp, q))
      && IsScan(fs, a, NextScan(fs, a, ms[0]), ms[1..])
  }

  /** The scan of `finditer` from `from`; every text has one, so `IsScan` is never vacuous. */
  ghost function ScanFrom(fs: string, a: Anchor, from: nat): (ms: seq<nat>)
    requires from <= |fs| + 1
    decreases |fs| + 1 - from
    ensures IsScan(fs, a, from, ms)
  {
    match FindFrom(fs, Fold(a.phrase), from)
    case None => []
    case Some(p) =>
      var rest := ScanFrom(fs, a, NextScan(fs, a, p));
      assert ([p] + rest)[1..] == rest;
      [p] + rest
  }

  /** The scan remembers the start of the latest match of a `finditer` scan. */
  lemma {:induction false} LastAnchorFromIsLastOfScan(fs: string, a: Anchor, from: nat, last: Option<nat>, ms: seq<nat>)
    requires from <= |fs| + 1
    requires last.Some? ==> OccursAt(fs, Fold(a.phrase), last.value) && from == NextScan(fs, a, last.value)
    requires IsScan(fs, a, from, ms)
    decreases |ms|
    ensures LastAnchorFrom(fs, a, from, last) == if |ms| == 0 then last else Some(ms[|ms| - 1])
  {
    ScanStartsAtSearch(fs, a, from, ms);
    if |ms| > 0 {
      var p := ms[0];
      LastAnchorFromIsLastOfScan(fs, a, NextScan(fs, a, p), Some(p), ms[1..]);
    }
  }

  /** The next match of a scan is where the leftmost search from the resume point lands. */
  lemma ScanStartsAtSearch(fs: string, a: Anchor, from: nat, ms: seq<nat>)
    requires IsScan(fs, a, from, ms)
    ensures FindFrom(fs, Fold(a.phrase), from) == if |ms| == 0 then None else Some(ms[0])
    ensures |ms| > 0 ==> IsScan(fs, a, NextScan(fs, a, ms[0]), ms[1..])
  {
    var fp := Fold(a.phrase);
    assert |ms| > 0 ==> from <= ms[0] && OccursAt(fs, fp, ms[0]);
    var f := FindFrom(fs, fp, from);
    if f.Some? {
      assert OccursAt(fs, fp, f.value);
      assert |ms| > 0;
      assert !(ms[0] < f.value) && !(f.value < ms[0]);
    }
  }

  /**
   `_split_by_final_anchor` takes `matches[-1]`: for the matches of any
   `finditer` scan of the text, the last anchor is none when there are no
   matches and the start of the last match otherwise.
   */
  lemma LastAnchorIsLastOfScan(text: string, a: Anchor, ms: seq<nat>)
    requires IsScan(Fold(text), a, 0, ms)
    ensures LastAnchor(text, a) == if |ms| == 0 then None else Some(ms[|ms| - 1])
  {
    LastAnchorFromIsLastOfScan(Fold(text), a, 0, None, ms);
  }

  /** A phrase none of whose proper suffixes is also a prefix, so two occurrences never overlap. */
  predicate NoSelfOverlap(phrase: string) {
    forall d :: 0 < d < |phrase| ==> phrase[d..] != phrase[..|phrase| - d]
  }

  /** Two overlapping occurrences of a phrase make a proper suffix of it equal to a prefix. */
  lemma OverlapIsBorder(fs: string, fp: string, p: nat, q: nat)
    requires OccursAt(fs, fp, p) && OccursAt(fs, fp, q)
    requires p < q < p + |fp|
    ensures fp[q - p..] == fp[..|fp| - (q - p)]
  {
    var n, d := |fp|, q - p;
    calc {
      fp[d..];
      fs[p..p + n][d..];
      fs[q..p + n];
      fs[q..q + n][..n - d];
      fp[..n - d];
    }
  }

  /** Two occurrences of a phrase that cannot overlap itself are at least a phrase apart. */
  lemma OccurrencesApart(fs: string, fp: string, p: nat, q: nat)
    requires NoSelfOverlap(fp) && OccursAt(fs, fp, p) && OccursAt(fs, fp, q) && p < q
    ensures p + |fp| <= q
  {
    if q < p + |fp| {
      OverlapIsBorder(fs, fp, p, q);
    }
  }

  /**
   A later occurrence of a phrase that begins with neither a mark nor
   whitespace lies at or beyond the end of the match before it.
   */
  lemma LaterOccurrenceAfterMatch(fs: string, a: Anchor, p: nat, q: nat)
    requires |a.phrase| > 0 && NoSelfOverlap(Fold(a.phrase))
    requires !IsSpace(Fold(a.phrase)[0]) && Fold(a.phrase)[0] !in a.marks
    requires OccursAt(fs, Fold(a.phrase), p) && OccursAt(fs, Fold(a.phrase), q) && p < q
    ensures NextScan(fs, a, p) <= q
  {
    var fp := Fold(a.phrase);
    OccurrencesApart(fs, fp, p, q);
    assert fs[q] == fp[0] by { assert fs[q..q + |fp|][0] == fp[0]; }
  }

  /**
   For a phrase that cannot overlap itself and does not begin with a mark or
   whitespace, the match `finditer` ends on is the last occurrence of all.
   */
  lemma LastAnchorIsLastOccurrence(text: string, a: Anchor)
    requires |a.phrase| > 0
    requires NoSelfOverlap(Fold(a.phrase))
    requires !IsSpace(Fold(a.phrase)[0]) && Fold(a.phrase)[0] !in a.marks
    requires AnchorOccurs(text, a)
    ensures forall q: nat :: AnchorAt(text, a, q) ==> q <= LastAnchor(text, a).value
  {
    var p := LastAnchor(text, a).value;
    forall q: nat | AnchorAt(text, a, q) && q > p ensures false {
      LaterOccurrenceAfterMatch(Fold(text), a, p, q);
    }
  }

  /**
   `_split_by_final_anchor`: at the last anchor match, the stripped text
   before the match and the stripped text after it; none when the anchor
   never occurs. A non-empty phrase never occurs in the reply.
   */
  function SplitByFinalAnchor(text: string, a: Anchor): (r: Option<(string, string)>)
    ensures r.None? <==> !AnchorOccurs(text, a)
    ensures r.Some? ==> LastAnchor(text, a).Some?
    ensures r.Some? ==>
      var p := LastAnchor(text, a).value;
      var e := AnchorEnd(Fold(text), a, p);
      && p <= e <= |text|
      && r.value.0 == Strip(text[..p])
      && r.value.1 == Strip(text[e..])
    ensures r.Some? && |a.phrase| > 0 ==> !Occurs(Fold(r.value.1), Fold(a.phrase))
  {
    match LastAnchor(text, a)
    case None => None
    case Some(p) =>
      var fs := Fold(text);
      var e := AnchorEnd(fs, a, p);
      var reply := Strip(text[e..]);
      assert |a.phrase| > 0 ==> !Occurs(Fold(reply), Fold(a.phrase)) by {
        if |a.phrase| > 0 {
          NoOccurrenceInSuffix(text, a, e, reply);
        }
      }
      Some((Strip(text[..p]), reply))
  }

  /** An infix of a text carries no anchor occurrence the text does not carry at the same place. */
  lemma NoOccurrenceInSuffix(text: string, a: Anchor, e: nat, reply: string)
    requires e <= |text|
    requires forall q: nat :: e <= q ==> !AnchorAt(text, a, q)
    requires reply == Strip(text[e..])
    ensures !Occurs(Fold(reply), Fold(a.phrase))
  {
    var suffix := text[e..];
    var i := LeadingWhere(suffix, IsSpace);
    StripIsInfix(suffix);
    SliceOfSuffix(text, e, i, i + |reply|);
    NoOccurrenceInInfix(text, a, e + i, e + i + |reply|, reply);
  }

  lemma NoOccurrenceInInfix(text: string, a: Anchor, lo: nat, hi: nat, part: string)
    requires lo <= hi <= |text| && part == text[lo..hi]
    requires forall q: nat :: lo <= q ==> !AnchorAt(text, a, q)
    ensures !Occurs(Fold(part), Fold(a.phrase))
  {
    var fs, fp := Fold(text), Fold(a.phrase);
    FoldSlice(text, lo, hi);
    var fr := fs[lo..hi];
    assert Fold(part) == fr;
    forall q: nat | OccursAt(fr, fp, q) ensures false {
      assert fr[q..q + |fp|] == fs[lo + q..lo + q + |fp|];
      assert AnchorAt(text, a, lo + q);
    }
  }

  // ---------------------------------------------------------------- tag detector

  const OpenBrackets: set<char> := {'<', '＜', '《', '(', '[', '（'}
  const CloseBrackets: set<char> := {'>', '＞', '》', ')', ']', '）'}

  /** The characters `__init__` strips from the configured tags to obtain their cores. */
  const TagStripChars: set<char> := {'<', '>', '＜', '＞', '《', '》', '(', ')', '（', '）'}

  function StartCore(cfg: Config): string {
    StripChars(cfg.cotStartTag, TagStripChars)
  }

  function EndCore(cfg: Config): string {
    StripChars(cfg.cotEndTag, TagStripChars + {'/'})
  }

  /** `core` followed by a closing bracket, at `j` of the folded text. */
  predicate CoreThenClose(fs: string, core: string, j: nat) {
    OccursAt(fs, core, j) && j + |core| < |fs| && fs[j + |core|] in CloseBrackets
  }

  /** A tag variant `[open]/?core[close]` begins at `i` of the folded text. */
  predicate TagAt(fs: string, core: string, i: nat) {
    && i < |fs|
    && fs[i] in OpenBrackets
    && (|| CoreThenClose(fs, core, i + 1)
        || (i + 1 < |fs| && fs[i + 1] == '/' && CoreThenClose(fs, core, i + 2)))
  }

  /** `COT_TAG_DETECTOR.search(text)`: some bracket variant of the start or end tag occurs. */
  predicate HasTagMarker(cfg: Config, text: string) {
    var fs := Fold(text);
    var sc, ec := Fold(StartCore(cfg)), Fold(EndCore(cfg));
    exists i | 0 <= i < |fs| :: TagAt(fs, sc, i) || TagAt(fs, ec, i)
  }

  /**
   Every bracket variant is detected: an opening bracket, an optional `/`, the
   start or end core in any ASCII case, and a closing bracket.
   */
  lemma TagVariantDetected(cfg: Config, text: string, core: string, i: nat, st: nat, slash: bool)
    requires core == StartCore(cfg) || core == EndCore(cfg)
    requires st == (if slash then i + 2 else i + 1) && st + |core| < |text|
    requires text[i] in OpenBrackets && (slash ==> text[i + 1] == '/')
    requires Fold(text[st..st + |core|]) == Fold(core) && text[st + |core|] in CloseBrackets
    ensures HasTagMarker(cfg, text)
  {
    FoldedTagAt(text, core, i, st, slash);
    assert TagAt(Fold(text), Fold(core), i);
  }

  lemma FoldedTagAt(text: string, core: string, i: nat, st: nat, slash: bool)
    requires st == (if slash then i + 2 else i + 1) && st + |core| < |text|
    requires text[i] in OpenBrackets && (slash ==> text[i + 1] == '/')
    requires Fold(text[st..st + |core|]) == Fold(core) && text[st + |core|] in CloseBrackets
    ensures TagAt(Fold(text), Fold(core), i)
  {
    var fs := Fold(text);
    var fc := Fold(core);
    FoldSlice(text, st, st + |core|);
    assert fs[i] == Lower(text[i]) == text[i];
    assert fs[st + |core|] == Lower(text[st + |core|]) == text[st + |core|];
    assert fs[st..st + |fc|] == fc;
    assert CoreThenClose(fs, fc, st);
    if slash {
      assert fs[i + 1] == Lower(text[i + 1]) == '/';
    }
  }

  /** Without an opening bracket of any kind nothing is detected. */
  lemma NoBracketNoTagMarker(cfg: Config, text: string)
    requires forall k :: 0 <= k < |text| ==> text[k] !in OpenBrackets
    ensures !HasTagMarker(cfg, text)
  {
    var fs := Fold(text);
    forall i | 0 <= i < |fs| ensures fs[i] !in OpenBrackets {
      assert fs[i] == Lower(text[i]);
    }
  }

  // ---------------------------------------------------------------- verdict

  /** The validator's verdict; `Rejected` is the `ValueError` of the zero-trust policy. */
  datatype Validation = ReplyOnly(reply: string) | ThoughtAndReply(thought: string, reply: string) | Rejected {
    function Reply(): string {
      match this
      case ReplyOnly(r) => r
      case ThoughtAndReply(_, r) => r
      case Rejected => ""
    }
  }

  /**
   `_finalize_reply_only`: the stripped text with every occurrence of each
   filtered keyword removed in turn. It only ever deletes characters.
   */
  function FinalizeReply(cfg: Config, text: string): (r: string)
    ensures |r| <= |Strip(text)|
    ensures multiset(r) <= multiset(Strip(text))
    ensures r == Strip(text) <==>
      forall k :: 0 <= k < |cfg.filteredKeywords| ==> |cfg.filteredKeywords[k]| == 0 || !Occurs(Strip(text), cfg.filteredKeywords[k])
  {
    RemoveEach(Strip(text), cfg.filteredKeywords)
  }

  /**
   `_safe_process_response`: empty text gives an empty reply; an anchor gives
   the last-anchor split with the reply filtered; no anchor but a tag variant
   is rejected; neither gives the filtered text.
   */
  function SafeProcess(cfg: Config, text: string): (r: Validation)
    ensures text == [] ==> r == ReplyOnly([])
    ensures text != [] && AnchorOccurs(text, cfg.anchor) ==>
      var split := SplitByFinalAnchor(text, cfg.anchor).value;
      r == ThoughtAndReply(split.0, FinalizeReply(cfg, split.1))
    ensures r.Rejected? <==> text != [] && !AnchorOccurs(text, cfg.anchor) && HasTagMarker(cfg, text)
    ensures text != [] && !AnchorOccurs(text, cfg.anchor) && !HasTagMarker(cfg, text) ==>
      r == ReplyOnly(FinalizeReply(cfg, text))
  {
    if text == [] then ReplyOnly([])
    else
      match SplitByFinalAnchor(text, cfg.anchor)
      case Some((thought, reply)) => ThoughtAndReply(thought, FinalizeReply(cfg, reply))
      case None =>
        if HasTagMarker(cfg, text) then Rejected
        else ReplyOnly(FinalizeReply(cfg, text))
  }
}
