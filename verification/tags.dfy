/**
 Secondary envelopes the validator checks for balance: incantation tags, which
 carry commands that `_extract_incantation_commands` lifts out of a reply, and
 `DOSSIER_UPDATE` tags. All patterns are case-insensitive and are matched here
 on the ASCII-folded text.
 */
module Tags {
  import opened Wrappers
  import opened Text
  import opened Settings

  const AngleOpen: set<char> := {'<', '＜'}
  const AngleClose: set<char> := {'>', '＞'}
  const Slashes: set<char> := {'\\', '/', '／'}

  /** The tag core the incantation patterns escape: angle brackets, then whitespace, stripped away. */
  function IncantationCore(tag: string): string {
    Strip(StripChars(tag, {'<', '>', '＜', '＞'}))
  }

  /**
   End of an incantation marker at `i` of the folded text: `[<＜]\s*core\s*[>＞]`
   when `closing` is false, `[<＜]\s*[\\/／]\s*core\s*[>＞]` when it is true.
   */
  function MarkerEnd(fs: string, core: string, i: nat, closing: bool): (r: Option<nat>)
    ensures r.Some? ==> i < r.value <= |fs|
    ensures r.Some? ==> fs[i] in AngleOpen && fs[r.value - 1] in AngleClose
  {
    if i < |fs| && fs[i] in AngleOpen then
      var j := SkipSpace(fs, i + 1);
      var start :=
        if !closing then Some(j)
        else if j < |fs| && fs[j] in Slashes then Some(SkipSpace(fs, j + 1))
        else None;
      if start.None? || !OccursAt(fs, core, start.value) then None
      else
        var k := SkipSpace(fs, start.value + |core|);
        if k < |fs| && fs[k] in AngleClose then Some(k + 1) else None
    else None
  }

  /**
   Whitespace may surround the core and the slash: an opening bracket at `i`,
   blanks, (for a closing marker a slash at `sl` and more blanks,) the core at
   `st`, blanks, and a closing bracket at `k` form a marker ending at `k + 1`.
   The core is the stripped tag, so it does not begin with whitespace.
   */
  lemma SpacedMarkerMatches(fs: string, core: string, i: nat, sl: nat, st: nat, k: nat, closing: bool)
    requires i < st && st + |core| <= k < |fs| && fs[i] in AngleOpen
    requires closing ==> i < sl < st && fs[sl] in Slashes && IsBlank(fs[i + 1..sl]) && IsBlank(fs[sl + 1..st])
    requires !closing ==> IsBlank(fs[i + 1..st])
    requires OccursAt(fs, core, st) && IsBlank(fs[st + |core|..k]) && fs[k] in AngleClose
    requires core == [] || !IsSpace(core[0])
    ensures MarkerEnd(fs, core, i, closing) == Some(k + 1)
  {
    var j := SkipSpace(fs, i + 1);
    if closing {
      SkipSpaceStopsAt(fs, i + 1, sl);
      assert j == sl;
    }
    var from := if closing then sl + 1 else i + 1;
    SkipToCore(fs, from, st, core, k);
    var start := SkipSpace(fs, from);
    assert OccursAt(fs, core, start);
    if core == [] {
      SkipSpaceStopsAt(fs, k, k);
    } else {
      SkipSpaceStopsAt(fs, st + |core|, k);
    }
    assert SkipSpace(fs, start + |core|) == k;
    MarkerEndIs(fs, core, i, closing, start, k);
  }

  lemma MarkerEndIs(fs: string, core: string, i: nat, closing: bool, start: nat, k: nat)
    requires i < |fs| && fs[i] in AngleOpen
    requires !closing ==> SkipSpace(fs, i + 1) == start
    requires closing ==> var j := SkipSpace(fs, i + 1); j < |fs| && fs[j] in Slashes && SkipSpace(fs, j + 1) == start
    requires OccursAt(fs, core, start) && SkipSpace(fs, start + |core|) == k && k < |fs| && fs[k] in AngleClose
    ensures MarkerEnd(fs, core, i, closing) == Some(k + 1)
  {
  }

  /** `\s*` before the core stops at the core, or, for an empty core, runs on to the closing bracket. */
  lemma SkipToCore(fs: string, from: nat, st: nat, core: string, k: nat)
    requires from <= st && st + |core| <= k < |fs| && !IsSpace(fs[k])
    requires IsBlank(fs[from..st]) && OccursAt(fs, core, st) && IsBlank(fs[st + |core|..k])
    requires core == [] || !IsSpace(core[0])
    ensures SkipSpace(fs, from) == (if core == [] then k else st)
  {
    if core == [] {
      assert IsBlank(fs[from..k]) by {
        forall j | from <= j < k ensures IsSpace(fs[j]) {
          if j < st { assert fs[from..st][j - from] == fs[j]; } else { assert fs[st..k][j - st] == fs[j]; }
        }
      }
      SkipSpaceStopsAt(fs, from, k);
    } else {
      assert fs[st] == fs[st..st + |core|][0];
      SkipSpaceStopsAt(fs, from, st);
    }
  }

  ghost predicate HasMarkerFrom(fs: string, core: string, closing: bool, from: nat) {
    exists i: nat :: from <= i && MarkerEnd(fs, core, i, closing).Some?
  }

  /** No marker starts at an index in `[from, to)`. */
  predicate NoMarkerIn(fs: string, core: string, closing: bool, from: nat, to: nat) {
    forall j: nat :: from <= j < to ==> MarkerEnd(fs, core, j, closing).None?
  }

  /** The leftmost marker at or after `from`: where the regex search finds its next match. */
  function NextMarker(fs: string, core: string, closing: bool, from: nat): (r: Option<nat>)
    decreases |fs| - from
    ensures r.Some? ==> from <= r.value && MarkerEnd(fs, core, r.value, closing).Some?
    ensures r.Some? ==> forall j: nat :: from <= j < r.value ==> MarkerEnd(fs, core, j, closing).None?
    ensures r.None? ==> forall j: nat :: from <= j ==> MarkerEnd(fs, core, j, closing).None?
  {
    if from >= |fs| then None
    else if MarkerEnd(fs, core, from, closing).Some? then Some(from)
    else NextMarker(fs, core, closing, from + 1)
  }

  /** `findall` of one marker pattern from `from`: the number of non-overlapping matches, leftmost first. */
  function CountMarkers(fs: string, core: string, closing: bool, from: nat): (n: nat)
    requires from <= |fs|
    decreases |fs| - from
    ensures n == 0 <==> !HasMarkerFrom(fs, core, closing, from)
    ensures n <= |fs| - from
  {
    match NextMarker(fs, core, closing, from)
    case None => 0
    case Some(m) =>
      assert HasMarkerFrom(fs, core, closing, from) by {
        assert from <= m && MarkerEnd(fs, core, m, closing).Some?;
      }
      1 + CountMarkers(fs, core, closing, MarkerEnd(fs, core, m, closing).value)
  }

  /**
   `findall` counts the leftmost marker and then goes on from its end: with the
   first marker from `from` at `m`, the count is one more than the count from
   the end of that marker.
   */
  lemma CountMarkersFromFirst(fs: string, core: string, closing: bool, from: nat, m: nat)
    requires from <= m && MarkerEnd(fs, core, m, closing).Some? && NoMarkerIn(fs, core, closing, from, m)
    ensures CountMarkers(fs, core, closing, from) == 1 + CountMarkers(fs, core, closing, MarkerEnd(fs, core, m, closing).value)
  {
    NextMarkerIsLeftmost(fs, core, closing, from, m);
  }

  /** The leftmost marker is unique: any marker with none before it from `from` is the one the search finds. */
  lemma NextMarkerIsLeftmost(fs: string, core: string, closing: bool, from: nat, m: nat)
    requires from <= m && MarkerEnd(fs, core, m, closing).Some? && NoMarkerIn(fs, core, closing, from, m)
    ensures NextMarker(fs, core, closing, from) == Some(m)
  {
    var r := NextMarker(fs, core, closing, from);
    assert r.Some?;
    assert !(r.value < m);
    assert !(m < r.value);
  }

  /** First closing marker at or after `from`: where the lazy `(?P<content>.*?)` stops. */
  function FirstClose(fs: string, core: string, from: nat): (r: Option<nat>)
    ensures r.Some? ==> from <= r.value && MarkerEnd(fs, core, r.value, true).Some?
    ensures r.Some? ==> forall c: nat :: from <= c < r.value ==> MarkerEnd(fs, core, c, true).None?
    ensures r.None? ==> forall c: nat :: from <= c ==> MarkerEnd(fs, core, c, true).None?
  {
    NextMarker(fs, core, true, from)
  }

  /** An opening marker at `o` and a closing marker at `c` after it: a match of `INCANTATION_PATTERN`. */
  predicate PairAt(fs: string, core: string, o: nat, c: nat) {
    var open := MarkerEnd(fs, core, o, false);
    open.Some? && open.value <= c && MarkerEnd(fs, core, c, true).Some?
  }

  ghost predicate HasPairFrom(fs: string, core: string, from: nat) {
    exists o: nat, c: nat :: from <= o && PairAt(fs, core, o, c)
  }

  /** `INCANTATION_PATTERN.search(text)` on the folded text. */
  predicate HasPair(fs: string, core: string) {
    exists o, c | 0 <= o < |fs| && 0 <= c < |fs| :: PairAt(fs, core, o, c)
  }

  lemma HasPairIsFromStart(fs: string, core: string)
    ensures HasPair(fs, core) <==> HasPairFrom(fs, core, 0)
  {
    if HasPairFrom(fs, core, 0) {
      var o: nat, c: nat :| PairAt(fs, core, o, c);
      assert 0 <= o < |fs| && 0 <= c < |fs|;
    }
  }

  /** A complete pair contains both an opening and a closing marker. */
  lemma PairHasMarkers(fs: string, core: string)
    requires HasPair(fs, core)
    ensures CountMarkers(fs, core, false, 0) > 0 && CountMarkers(fs, core, true, 0) > 0
  {
    var o, c :| 0 <= o < |fs| && 0 <= c < |fs| && PairAt(fs, core, o, c);
    assert HasMarkerFrom(fs, core, false, 0) && HasMarkerFrom(fs, core, true, 0);
  }

  /**
   `_has_incomplete_incantation_tag`: false for empty text or a disabled tag,
   and false when no marker occurs; true when markers occur but no complete
   pair does; otherwise true exactly when the opening and closing counts differ.
   */
  function HasIncompleteIncantation(cfg: Config, text: string): (r: bool)
    ensures text == [] || cfg.incantationTag == [] ==> !r
    ensures
      var fs, core := Fold(text), Fold(IncantationCore(cfg.incantationTag));
      && (!HasMarkerFrom(fs, core, false, 0) && !HasMarkerFrom(fs, core, true, 0) ==> !r)
      && (&& text != [] && cfg.incantationTag != [] && !HasPairFrom(fs, core, 0)
          && (HasMarkerFrom(fs, core, false, 0) || HasMarkerFrom(fs, core, true, 0))
          ==> r)
      && (text != [] && cfg.incantationTag != [] && HasPairFrom(fs, core, 0) ==>
            (r <==> CountMarkers(fs, core, false, 0) != CountMarkers(fs, core, true, 0)))
  {
    var fs, core := Fold(text), Fold(IncantationCore(cfg.incantationTag));
    HasPairIsFromStart(fs, core);
    if text == [] || cfg.incantationTag == [] then false
    else
      var opens := CountMarkers(fs, core, false, 0);
      var closes := CountMarkers(fs, core, true, 0);
      if opens == 0 && closes == 0 then false
      else if !HasPair(fs, core) then true
      else opens != closes
  }

  /**
   The match of `INCANTATION_PATTERN` that starts at `i`, if any: where its
   content starts and where the (first) closing marker after it starts.
   */
  function PairStartingAt(fs: string, core: string, i: nat): (r: Option<(nat, nat)>)
    requires i < |fs|
    ensures r.Some? ==> PairAt(fs, core, i, r.value.1) && i < r.value.0 <= r.value.1 < |fs|
    ensures r.Some? ==> MarkerEnd(fs, core, i, false) == Some(r.value.0)
    ensures r.Some? ==> FirstClose(fs, core, r.value.0) == Some(r.value.1)
    ensures r.Some? ==> forall c: nat :: PairAt(fs, core, i, c) ==> r.value.1 <= c
    ensures r.None? ==> forall c: nat :: !PairAt(fs, core, i, c)
    ensures r.None? ==> (HasPairFrom(fs, core, i) <==> HasPairFrom(fs, core, i + 1))
  {
    var open := MarkerEnd(fs, core, i, false);
    if open.None? then
      NoPairHere(fs, core, i);
      None
    else
      match FirstClose(fs, core, open.value)
      case None =>
        NoPairHere(fs, core, i);
        None
      case Some(c) => Some((open.value, c))
  }

  /** When no pair starts at `i`, a pair from `i` is a pair from `i + 1`. */
  lemma NoPairHere(fs: string, core: string, i: nat)
    requires i < |fs|
    requires
      var open := MarkerEnd(fs, core, i, false);
      open.None? || FirstClose(fs, core, open.value).None?
    ensures HasPairFrom(fs, core, i) <==> HasPairFrom(fs, core, i + 1)
  {
    if HasPairFrom(fs, core, i) {
      var o: nat, c: nat :| i <= o && PairAt(fs, core, o, c);
      assert o != i;
    }
  }

  /** Commands as `_extract_incantation_commands` collects them: each non-empty and single-spaced. */
  predicate IsCommandList(cmds: seq<string>) {
    forall k :: 0 <= k < |cmds| ==> cmds[k] != [] && IsNormalized(cmds[k])
  }

  lemma CommandListCons(cmd: string, rest: seq<string>)
    requires IsNormalized(cmd) && IsCommandList(rest)
    ensures IsCommandList(if cmd == [] then rest else [cmd] + rest)
  {
    if cmd != [] {
      var cmds := [cmd] + rest;
      forall k | 0 < k < |cmds| ensures cmds[k] == rest[k - 1] {}
    }
  }

  /**
   `re.sub` of `INCANTATION_PATTERN` from index `i`: each pair is removed and
   its content, whitespace-normalised, is collected when non-empty.
   */
  function ExtractFrom(text: string, fs: string, core: string, i: nat): (r: (seq<string>, string))
    requires |fs| == |text| && i <= |fs|
    decreases |fs| - i
    ensures IsCommandList(r.0)
    ensures |r.1| <= |text| - i
    ensures !HasPairFrom(fs, core, i) ==> r.0 == [] && r.1 == text[i..]
    ensures HasPairFrom(fs, core, i) ==> |r.1| < |text| - i
  {
    if i == |fs| then
      assert !HasPairFrom(fs, core, i) by {
        forall o: nat, c: nat | i <= o ensures !PairAt(fs, core, o, c) {}
      }
      ([], [])
    else
      match PairStartingAt(fs, core, i)
      case Some((e, c)) =>
        var ce := MarkerEnd(fs, core, c, true).value;
        assert HasPairFrom(fs, core, i) by { assert i <= i && PairAt(fs, core, i, c); }
        var cmd := NormalizeSpaces(text[e..c]);
        var rest := ExtractFrom(text, fs, core, ce);
        CommandListCons(cmd, rest.0);
        (if cmd == [] then rest.0 else [cmd] + rest.0, rest.1)
      case None =>
        var rest := ExtractFrom(text, fs, core, i + 1);
        SuffixCons(text, i);
        (rest.0, [text[i]] + rest.1)
  }

  /** No match of `INCANTATION_PATTERN` starts at an index in `[from, to)`. */
  ghost predicate NoPairIn(fs: string, core: string, from: nat, to: nat) {
    forall q: nat, c: nat :: from <= q < to ==> !PairAt(fs, core, q, c)
  }

  /** Where no pair starts, `re.sub` copies the text unchanged up to the next position. */
  lemma {:induction false} ExtractSkipsTo(text: string, fs: string, core: string, i: nat, o: nat)
    requires |fs| == |text| && i <= o <= |fs| && NoPairIn(fs, core, i, o)
    decreases o - i
    ensures
      var rest := ExtractFrom(text, fs, core, o);
      ExtractFrom(text, fs, core, i) == (rest.0, text[i..o] + rest.1)
  {
    if i == o {
      var rest := ExtractFrom(text, fs, core, o);
      assert text[i..o] + rest.1 == rest.1;
    } else {
      ExtractSkipOne(text, fs, core, i, o);
      ExtractSkipsTo(text, fs, core, i + 1, o);
      ExtractCopies(text, i, o, ExtractFrom(text, fs, core, i), ExtractFrom(text, fs, core, i + 1), ExtractFrom(text, fs, core, o));
    }
  }

  /** One position without a pair: its character is copied. */
  lemma ExtractSkipOne(text: string, fs: string, core: string, i: nat, o: nat)
    requires |fs| == |text| && i < o <= |fs| && NoPairIn(fs, core, i, o)
    ensures NoPairIn(fs, core, i + 1, o)
    ensures
      var rest := ExtractFrom(text, fs, core, i + 1);
      ExtractFrom(text, fs, core, i) == (rest.0, [text[i]] + rest.1)
  {
    assert PairStartingAt(fs, core, i).None?;
  }

  lemma ExtractCopies(text: string, i: nat, o: nat, x: (seq<string>, string), y: (seq<string>, string), z: (seq<string>, string))
    requires i < o <= |text|
    requires x == (y.0, [text[i]] + y.1) && y == (z.0, text[i + 1..o] + z.1)
    ensures x == (z.0, text[i..o] + z.1)
  {
    assert [text[i]] + (text[i + 1..o] + z.1) == text[i..o] + z.1;
  }

  /**
   `re.sub` with the leftmost match: when the first pair from `i` opens at `o`
   and the lazy content stops at the first closing marker `c` after it, the
   text before `o` is kept, the pair is dropped, its normalised content is the
   next command when non-empty, and the substitution goes on after the pair.
   */
  lemma ExtractRemovesLeftmostPair(text: string, fs: string, core: string, i: nat, o: nat, c: nat)
    requires |fs| == |text| && i <= o
    requires PairAt(fs, core, o, c) && NoPairIn(fs, core, i, o)
    requires forall c': nat :: PairAt(fs, core, o, c') ==> c <= c'
    ensures
      var e, ce := MarkerEnd(fs, core, o, false).value, MarkerEnd(fs, core, c, true).value;
      var cmd := NormalizeSpaces(text[e..c]);
      var rest := ExtractFrom(text, fs, core, ce);
      ExtractFrom(text, fs, core, i) == ((if cmd == [] then [] else [cmd]) + rest.0, text[i..o] + rest.1)
  {
    var e := MarkerEnd(fs, core, o, false).value;
    assert o < |fs|;
    ExtractSkipsTo(text, fs, core, i, o);
    LeftmostPairFound(fs, core, o, c);
    ExtractAtPair(text, fs, core, o, e, c);
  }

  /** The pair the lazy pattern matches at `o` closes at the first possible closing marker. */
  lemma LeftmostPairFound(fs: string, core: string, o: nat, c: nat)
    requires PairAt(fs, core, o, c)
    requires forall c': nat :: PairAt(fs, core, o, c') ==> c <= c'
    ensures o < |fs| && PairStartingAt(fs, core, o) == Some((MarkerEnd(fs, core, o, false).value, c))
  {
    var e := MarkerEnd(fs, core, o, false).value;
    var f := FirstClose(fs, core, e);
    assert f.Some? && f.value <= c;
    assert PairAt(fs, core, o, f.value);
    var p := PairStartingAt(fs, core, o);
    assert p.Some? && p.value.0 == e;
  }

  /** `re.sub` at a position where a pair starts. */
  lemma ExtractAtPair(text: string, fs: string, core: string, o: nat, e: nat, c: nat)
    requires |fs| == |text| && o < |fs|
    requires PairStartingAt(fs, core, o) == Some((e, c))
    ensures
      var cmd := NormalizeSpaces(text[e..c]);
      var rest := ExtractFrom(text, fs, core, MarkerEnd(fs, core, c, true).value);
      ExtractFrom(text, fs, core, o) == ((if cmd == [] then [] else [cmd]) + rest.0, rest.1)
  {
    var cmd := NormalizeSpaces(text[e..c]);
    var rest := ExtractFrom(text, fs, core, MarkerEnd(fs, core, c, true).value);
    if cmd == [] {
      assert [] + rest.0 == rest.0;
    }
  }

  /**
   `_extract_incantation_commands`: the non-empty, single-spaced commands of
   the complete pairs, and the text with those pairs removed. The text comes
   back unchanged exactly when it holds no complete pair (or is empty, or the
   tag is disabled), and then no command is reported.
   */
  function ExtractIncantationCommands(cfg: Config, text: string): (r: (seq<string>, string))
    ensures IsCommandList(r.0)
    ensures |r.1| <= |text|
    ensures r.1 == text <==>
      text == [] || cfg.incantationTag == [] || !HasPair(Fold(text), Fold(IncantationCore(cfg.incantationTag)))
    ensures r.1 == text ==> r.0 == []
  {
    if text == [] || cfg.incantationTag == [] then ([], text)
    else
      var fs, core := Fold(text), Fold(IncantationCore(cfg.incantationTag));
      HasPairIsFromStart(fs, core);
      ExtractFrom(text, fs, core, 0)
  }

  /**
   `INCANTATION_PATTERN.sub` on the whole text: the text before the leftmost
   pair is kept, the pair is dropped, its normalised content becomes the first
   command unless it is empty, and the substitution goes on after the pair.
   */
  lemma ExtractIncantationFirstPair(cfg: Config, text: string, o: nat, c: nat)
    requires text != [] && cfg.incantationTag != []
    requires var fs, core := Fold(text), Fold(IncantationCore(cfg.incantationTag));
      && PairAt(fs, core, o, c) && NoPairIn(fs, core, 0, o)
      && forall c': nat :: PairAt(fs, core, o, c') ==> c <= c'
    ensures var fs, core := Fold(text), Fold(IncantationCore(cfg.incantationTag));
      var e, ce := MarkerEnd(fs, core, o, false).value, MarkerEnd(fs, core, c, true).value;
      var cmd := NormalizeSpaces(text[e..c]);
      var rest := ExtractFrom(text, fs, core, ce);
      ExtractIncantationCommands(cfg, text) == ((if cmd == [] then [] else [cmd]) + rest.0, text[..o] + rest.1)
  {
    var fs, core := Fold(text), Fold(IncantationCore(cfg.incantationTag));
    ExtractRemovesLeftmostPair(text, fs, core, 0, o, c);
    assert text[0..o] == text[..o];
  }

  // ---------------------------------------------------------------- dossier tags

  /** The folded `DOSSIER_UPDATE` keyword. */
  const DossierWord: string := "dossier_update"

  /** Python's `\w` as the model reads it: ASCII letters, digits, underscore and CJK ideographs. */
  predicate IsWordChar(c: char) {
    || ('a' <= c <= 'z') || ('A' <= c <= 'Z') || ('0' <= c <= '9') || c == '_'
    || ('\U{4E00}' <= c <= '\U{9FFF}')
  }

  /** Index of the keyword in a dossier tag at `i`: after `[<＜]\s*`, or after `[<＜]/\s*` when `closing`. */
  function DossierWordStart(fs: string, i: nat, closing: bool): (j: Option<nat>)
    ensures j.Some? ==> j.value <= |fs|
  {
    if i < |fs| && fs[i] in AngleOpen then
      if !closing then Some(SkipSpace(fs, i + 1))
      else if i + 1 < |fs| && fs[i + 1] == '/' then Some(SkipSpace(fs, i + 2))
      else None
    else None
  }

  /** `DOSSIER_OPEN_PATTERN` (or `DOSSIER_CLOSE_PATTERN`) at `i`: the keyword followed by a word boundary. */
  predicate DossierMarkerAt(fs: string, i: nat, closing: bool) {
    var j := DossierWordStart(fs, i, closing);
    && j.Some?
    && OccursAt(fs, DossierWord, j.value)
    && (j.value + |DossierWord| == |fs| || !IsWordChar(fs[j.value + |DossierWord|]))
  }

  /** End of the bracketed form `…DOSSIER_UPDATE\s*[>＞]` of a dossier tag at `i`, as `DOSSIER_TAG_PATTERN` requires. */
  function DossierTagEnd(fs: string, i: nat, closing: bool): (r: Option<nat>)
    ensures r.Some? ==> i < r.value <= |fs|
  {
    var j := DossierWordStart(fs, i, closing);
    if j.Some? && OccursAt(fs, DossierWord, j.value) then
      var k := SkipSpace(fs, j.value + |DossierWord|);
      if k < |fs| && fs[k] in AngleClose then Some(k + 1) else None
    else None
  }

  predicate DossierPairAt(fs: string, o: nat, c: nat) {
    var open := DossierTagEnd(fs, o, false);
    open.Some? && open.value <= c && DossierTagEnd(fs, c, true).Some?
  }

  /** `DOSSIER_TAG_PATTERN.search(text)` on the folded text. */
  predicate HasDossierPair(fs: string) {
    exists o, c | 0 <= o < |fs| && 0 <= c < |fs| :: DossierPairAt(fs, o, c)
  }

  predicate HasDossierMarker(fs: string) {
    exists i | 0 <= i < |fs| :: DossierMarkerAt(fs, i, false) || DossierMarkerAt(fs, i, true)
  }

  /**
   `_has_incomplete_dossier_tag`: false whenever a complete pair exists;
   otherwise true exactly when an opening or closing marker appears.
   */
  function HasIncompleteDossier(text: string): (r: bool)
    ensures HasDossierPair(Fold(text)) ==> !r
    ensures !HasDossierPair(Fold(text)) ==> (r <==> HasDossierMarker(Fold(text)))
    ensures r ==> text != []
  {
    if text == [] then false
    else
      var fs := Fold(text);
      if HasDossierPair(fs) then false else HasDossierMarker(fs)
  }

  /**
   The `\b` after the keyword: with the bracket (and for a closing marker the
   slash) at `i` and the keyword at `w` after blanks, a marker is there exactly
   when the keyword ends the text or is followed by a non-word character.
   */
  lemma DossierMarkerBoundary(fs: string, i: nat, w: nat, closing: bool)
    requires i < w && OccursAt(fs, DossierWord, w) && fs[i] in AngleOpen
    requires closing ==> i + 1 < w && fs[i + 1] == '/' && IsBlank(fs[i + 2..w])
    requires !closing ==> IsBlank(fs[i + 1..w])
    ensures DossierMarkerAt(fs, i, closing) <==>
      (w + |DossierWord| == |fs| || !IsWordChar(fs[w + |DossierWord|]))
  {
    assert fs[w] == 'd' by { assert fs[w] == fs[w..w + |DossierWord|][0]; }
    SkipSpaceStopsAt(fs, if closing then i + 2 else i + 1, w);
    assert DossierWordStart(fs, i, closing) == Some(w);
  }

  /** The bracketed form of a dossier tag is also a marker: the keyword is followed by a non-word character. */
  lemma DossierTagIsMarker(fs: string, i: nat, closing: bool)
    requires DossierTagEnd(fs, i, closing).Some?
    ensures DossierMarkerAt(fs, i, closing)
  {
    var j := DossierWordStart(fs, i, closing).value;
    var w := j + |DossierWord|;
    var k := SkipSpace(fs, w);
    assert k < |fs| && fs[k] in AngleClose;
    if w < |fs| {
      assert IsSpace(fs[w]) || w == k;
    }
  }

  /** A complete dossier pair carries an opening and a closing marker, so a reply flagged incomplete has no pair but some marker. */
  lemma DossierPairHasMarkers(fs: string)
    requires HasDossierPair(fs)
    ensures exists i | 0 <= i < |fs| :: DossierMarkerAt(fs, i, false)
    ensures exists i | 0 <= i < |fs| :: DossierMarkerAt(fs, i, true)
  {
    var o, c :| 0 <= o < |fs| && 0 <= c < |fs| && DossierPairAt(fs, o, c);
    DossierTagIsMarker(fs, o, false);
    DossierTagIsMarker(fs, c, true);
  }
}
