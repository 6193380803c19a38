/** Small option type shared by every module of the model. */
module Wrappers {
  datatype Option<+T> = None | Some(value: T)
}

/**
 Character and string primitives with the meaning Python gives them: `str.isspace`
 and the regex class `\s`, `str.strip`, `str.lower` (ASCII letters only),
 `in` on strings, `str.replace(kw, "")`, `str.split("\n")` and `int(...)` on
 ASCII digit strings.
 */
module Text {
  import opened Wrappers

  /** Python's whitespace: `str.isspace()`, `str.strip()` and `\s` on `str` patterns. */
  predicate IsSpace(c: char) {
    || c == ' '
    || ('\t' <= c <= '\r')
    || ('\U{1C}' <= c <= '\U{1F}')
    || c == '\U{85}' || c == '\U{A0}' || c == '\U{1680}'
    || ('\U{2000}' <= c <= '\U{200A}')
    || c == '\U{2028}' || c == '\U{2029}' || c == '\U{202F}' || c == '\U{205F}' || c == '\U{3000}'
  }

  predicate IsBlank(s: string) {
    forall k :: 0 <= k < |s| ==> IsSpace(s[k])
  }

  predicate IsAsciiDigit(c: char) {
    '0' <= c <= '9'
  }

  /** Case folding as used by `re.IGNORECASE` and `str.lower()`, restricted to ASCII letters. */
  function Lower(c: char): (d: char)
    ensures 'A' <= c <= 'Z' ==> d as int == c as int + 32
    ensures !('A' <= c <= 'Z') ==> d == c
    ensures !('A' <= d <= 'Z')
  {
    if 'A' <= c <= 'Z' then (c as int + 32) as char else c
  }

  function Fold(s: string): (r: string)
    ensures |r| == |s|
    ensures forall k :: 0 <= k < |s| ==> r[k] == Lower(s[k])
  {
    seq(|s|, k requires 0 <= k < |s| => Lower(s[k]))
  }

  /** Text without upper-case ASCII letters is its own folding. */
  lemma FoldUnchanged(s: string)
    requires forall k :: 0 <= k < |s| ==> !('A' <= s[k] <= 'Z')
    ensures Fold(s) == s
  {
  }

  lemma FoldAppend(a: string, b: string)
    ensures Fold(a + b) == Fold(a) + Fold(b)
  {
  }

  lemma FoldSlice(s: string, i: nat, j: nat)
    requires i <= j <= |s|
    ensures Fold(s[i..j]) == Fold(s)[i..j]
  {
  }

  lemma FoldIdempotent(s: string)
    ensures Fold(Fold(s)) == Fold(s)
  {
  }

  lemma FoldKeepsSpaces(s: string)
    ensures forall k :: 0 <= k < |s| ==> (IsSpace(Fold(s)[k]) <==> IsSpace(s[k]))
  {
  }

  // ---------------------------------------------------------------- occurrences

  /** `pat` occurs in `s` starting at index `i`. */
  predicate OccursAt(s: string, pat: string, i: nat) {
    i + |pat| <= |s| && s[i..i + |pat|] == pat
  }

  /** `pat` does not occur in `s` at any index before `i`. */
  predicate NoneBefore(s: string, pat: string, i: nat) {
    forall j: nat :: j < i ==> !OccursAt(s, pat, j)
  }

  /** Python's `pat in s`, stated as a specification. */
  ghost predicate Occurs(s: string, pat: string) {
    exists i: nat :: OccursAt(s, pat, i)
  }

  /** Leftmost occurrence of `pat` at or after `from`, the search underlying `in`, `finditer` and `replace`. */
  function FindFrom(s: string, pat: string, from: nat): (r: Option<nat>)
    decreases |s| - from
    ensures r.Some? ==> from <= r.value && OccursAt(s, pat, r.value)
    ensures r.Some? ==> forall j: nat :: from <= j < r.value ==> !OccursAt(s, pat, j)
    ensures r.None? ==> forall j: nat :: from <= j ==> !OccursAt(s, pat, j)
  {
    if from + |pat| > |s| then None
    else if s[from..from + |pat|] == pat then Some(from)
    else FindFrom(s, pat, from + 1)
  }

  /** Python's `pat in s`. */
  function Contains(s: string, pat: string): (b: bool)
    ensures b <==> Occurs(s, pat)
  {
    var r := FindFrom(s, pat, 0);
    if r.Some? then true else (assert !Occurs(s, pat); false)
  }

  /** Every character occurs where it stands. */
  lemma CharOccursAt(s: string, i: nat)
    requires i < |s|
    ensures OccursAt(s, [s[i]], i)
  {
    assert s[i..i + 1] == [s[i]];
  }

  /** A suffix of a sequence is its first element followed by the rest. */
  lemma SuffixCons<T>(s: seq<T>, i: nat)
    requires i < |s|
    ensures s[i..] == [s[i]] + s[i + 1..]
  {
  }

  /** An infix of a suffix is an infix of the whole. */
  lemma SliceOfSuffix<T>(s: seq<T>, e: nat, i: nat, j: nat)
    requires e <= |s| && i <= j <= |s| - e
    ensures s[e..][i..j] == s[e + i..e + j]
  {
  }

  lemma OccursAtShift(a: string, s: string, b: string, pat: string, i: nat)
    requires OccursAt(s, pat, i)
    ensures OccursAt(a + s + b, pat, |a| + i)
  {
    assert (a + s + b)[|a| + i..|a| + i + |pat|] == s[i..i + |pat|];
  }

  lemma OccursInContext(a: string, s: string, b: string, pat: string)
    requires Occurs(s, pat)
    ensures Occurs(a + s + b, pat)
  {
    var i: nat :| OccursAt(s, pat, i);
    OccursAtShift(a, s, b, pat, i);
  }

  predicate StartsWith(s: string, prefix: string) {
    OccursAt(s, prefix, 0)
  }

  // ---------------------------------------------------------------- stripping

  /** Number of leading characters of `s` satisfying `drop`. */
  function LeadingWhere(s: string, drop: char -> bool): (n: nat)
    ensures n <= |s|
    ensures forall k :: 0 <= k < n ==> drop(s[k])
    ensures n < |s| ==> !drop(s[n])
  {
    if |s| == 0 || !drop(s[0]) then 0 else 1 + LeadingWhere(s[1..], drop)
  }

  /** Number of trailing characters of `s` satisfying `drop`. */
  function TrailingWhere(s: string, drop: char -> bool): (n: nat)
    ensures n <= |s|
    ensures forall k :: |s| - n <= k < |s| ==> drop(s[k])
    ensures n < |s| ==> !drop(s[|s| - 1 - n])
  {
    if |s| == 0 || !drop(s[|s| - 1]) then 0 else 1 + TrailingWhere(s[..|s| - 1], drop)
  }

  /**
   Python's `s.strip(chars)` with `drop` the membership test of `chars`: the
   longest infix of `s` that neither starts nor ends with a dropped character,
   everything around it being dropped characters.
   */
  function StripWhere(s: string, drop: char -> bool): (r: string)
    ensures |r| <= |s|
    ensures LeadingWhere(s, drop) + |r| <= |s|
    ensures r == s[LeadingWhere(s, drop)..LeadingWhere(s, drop) + |r|]
    ensures forall k :: LeadingWhere(s, drop) + |r| <= k < |s| ==> drop(s[k])
    ensures |r| > 0 ==> !drop(r[0]) && !drop(r[|r| - 1])
    ensures r == [] <==> forall k :: 0 <= k < |s| ==> drop(s[k])
  {
    var i := LeadingWhere(s, drop);
    if i == |s| then []
    else
      var t := TrailingWhere(s, drop);
      assert !drop(s[i]);
      assert t < |s| - i;
      s[i..|s| - t]
  }

  /** Python's `s.strip()`. */
  function Strip(s: string): (r: string)
    ensures |r| <= |s|
    ensures r == [] <==> IsBlank(s)
    ensures |r| > 0 ==> !IsSpace(r[0]) && !IsSpace(r[|r| - 1])
  {
    StripWhere(s, IsSpace)
  }

  /** The stripped text is the infix between the leading and the trailing whitespace. */
  lemma StripIsInfix(s: string)
    ensures LeadingWhere(s, IsSpace) + |Strip(s)| <= |s|
    ensures Strip(s) == s[LeadingWhere(s, IsSpace)..LeadingWhere(s, IsSpace) + |Strip(s)|]
    ensures IsBlank(s[..LeadingWhere(s, IsSpace)])
    ensures IsBlank(s[LeadingWhere(s, IsSpace) + |Strip(s)|..])
  {
    var i, r := LeadingWhere(s, IsSpace), Strip(s);
    assert r == StripWhere(s, IsSpace);
  }

  lemma StripUnchanged(s: string)
    requires |s| > 0 && !IsSpace(s[0]) && !IsSpace(s[|s| - 1])
    ensures Strip(s) == s
  {
    assert LeadingWhere(s, IsSpace) == 0;
    assert TrailingWhere(s, IsSpace) == 0;
  }

  /** Stripping text that starts, after blanks, with a word bounded by non-spaces keeps that word at its front. */
  lemma StripKeepsFront(ws: string, word: string, rest: string)
    requires IsBlank(ws) && |word| > 0 && !IsSpace(word[0]) && !IsSpace(word[|word| - 1])
    ensures |word| <= |Strip(ws + word + rest)|
    ensures Strip(ws + word + rest)[..|word|] == word
  {
    var s := ws + word + rest;
    var r := StripWhere(s, IsSpace);
    var n := LeadingWhere(s, IsSpace);
    assert s[|ws|] == word[0];
    assert n == |ws|;
    var last := |ws| + |word| - 1;
    assert s[last] == word[|word| - 1];
    assert |word| <= |r|;
    assert r[..|word|] == s[n..n + |word|];
  }

  /** Python's `s.strip(chars)` for an explicit character set. */
  function StripChars(s: string, chars: set<char>): (r: string)
    ensures |r| <= |s|
    ensures |r| > 0 ==> r[0] !in chars && r[|r| - 1] !in chars
    ensures r == [] <==> forall k :: 0 <= k < |s| ==> s[k] in chars
  {
    StripWhere(s, c => c in chars)
  }

  /** First index at or after `i` that is not whitespace (or `|s|`): a greedy `\s*` starting at `i`. */
  function SkipSpace(s: string, i: nat): (j: nat)
    requires i <= |s|
    decreases |s| - i
    ensures i <= j <= |s|
    ensures forall k :: i <= k < j ==> IsSpace(s[k])
    ensures j < |s| ==> !IsSpace(s[j])
  {
    if i == |s| || !IsSpace(s[i]) then i else SkipSpace(s, i + 1)
  }

  /** Skipping whitespace stops at the first non-space character: the greedy `\s*` ends exactly there. */
  lemma {:induction false} SkipSpaceStopsAt(s: string, i: nat, j: nat)
    requires i <= j < |s| && IsBlank(s[i..j]) && !IsSpace(s[j])
    decreases j - i
    ensures SkipSpace(s, i) == j
  {
    if i < j {
      assert s[i..j][0] == s[i];
      assert s[i + 1..j] == s[i..j][1..];
      SkipSpaceStopsAt(s, i + 1, j);
    }
  }

  // ---------------------------------------------------------------- replacing

  /**
   Python's `s.replace(kw, "")`: removes the non-overlapping occurrences of `kw`
   found scanning left to right; an empty `kw` leaves `s` unchanged.
   */
  function RemoveAll(s: string, kw: string): (r: string)
    decreases |s|
    ensures |r| <= |s|
    ensures |kw| > 0 && Occurs(s, kw) ==> |r| <= |s| - |kw|
  {
    if |kw| == 0 then s
    else if |s| == 0 then
      (assert !Occurs(s, kw) by {
        forall i: nat ensures !OccursAt(s, kw, i) {}
      }
      s)
    else if OccursAt(s, kw, 0) then
      RemoveAll(s[|kw|..], kw)
    else
      var rest := RemoveAll(s[1..], kw);
      OccursPastFirst(s, kw);
      [s[0]] + rest
  }

  /** `replace` changes the text exactly when the keyword is non-empty and occurs in it. */
  lemma {:induction false} RemoveAllChanges(s: string, kw: string)
    decreases |s|
    ensures RemoveAll(s, kw) == s <==> |kw| == 0 || !Occurs(s, kw)
  {
    if |kw| > 0 && |s| > 0 && !Occurs(s, kw) {
      assert !OccursAt(s, kw, 0);
      RemoveAllStep(s, kw);
      OccursPastFirst(s, kw);
      RemoveAllChanges(s[1..], kw);
      SuffixCons(s, 0);
    }
  }

  /**
   `replace` removes the leftmost occurrence first: when `kw` first occurs at
   `i`, the text before it is kept, the occurrence is dropped and the scan goes
   on behind it.
   */
  lemma {:induction false} RemoveAllAtFirst(s: string, kw: string, i: nat)
    requires |kw| > 0 && OccursAt(s, kw, i) && NoneBefore(s, kw, i)
    decreases i
    ensures RemoveAll(s, kw) == s[..i] + RemoveAll(s[i + |kw|..], kw)
  {
    if i == 0 {
      RemoveAllAtStart(s, kw);
    } else {
      var t := s[1..];
      NoEarlierInTail(s, kw, i);
      RemoveAllAtFirst(t, kw, i - 1);
      RemoveAllAtFirstStep(s, kw, t, i);
    }
  }

  /** One step of `RemoveAllAtFirst`: the kept first character goes back in front. */
  lemma RemoveAllAtFirstStep(s: string, kw: string, t: string, i: nat)
    requires |kw| > 0 && 1 <= i && OccursAt(s, kw, i) && NoneBefore(s, kw, i) && t == s[1..]
    requires RemoveAll(t, kw) == t[..i - 1] + RemoveAll(t[i - 1 + |kw|..], kw)
    ensures RemoveAll(s, kw) == s[..i] + RemoveAll(s[i + |kw|..], kw)
  {
    assert !OccursAt(s, kw, 0);
    var rest := RemoveAll(s[i + |kw|..], kw);
    ConsSlices(s, i, |kw|, rest);
    RemoveAllStep(s, kw);
    ConsPrefix(s, i, RemoveAll(s, kw), RemoveAll(t, kw), rest);
  }

  lemma RemoveAllAtStart(s: string, kw: string)
    requires |kw| > 0 && OccursAt(s, kw, 0)
    ensures RemoveAll(s, kw) == s[..0] + RemoveAll(s[0 + |kw|..], kw)
  {
    RemoveAllHere(s, kw);
    assert s[..0] + RemoveAll(s[|kw|..], kw) == RemoveAll(s[|kw|..], kw);
  }

  /** Where `kw` starts the text, `replace` drops it. */
  lemma RemoveAllHere(s: string, kw: string)
    requires |kw| > 0 && OccursAt(s, kw, 0)
    ensures RemoveAll(s, kw) == RemoveAll(s[|kw|..], kw)
  {
  }

  /** The first occurrence in a text, less one character, is the first in its tail. */
  lemma NoEarlierInTail(s: string, kw: string, i: nat)
    requires 1 <= i && OccursAt(s, kw, i) && NoneBefore(s, kw, i)
    ensures OccursAt(s[1..], kw, i - 1) && NoneBefore(s[1..], kw, i - 1)
  {
    forall j: nat | j < i - 1 ensures !OccursAt(s[1..], kw, j) {
      OccursInTail(s, kw, j);
    }
    OccursInTail(s, kw, i - 1);
  }

  /** Putting the first character back in front of a kept prefix. */
  lemma ConsPrefix(s: string, i: nat, x: string, a: string, b: string)
    requires 1 <= i <= |s|
    requires x == [s[0]] + a && a == s[1..][..i - 1] + b
    ensures x == s[..i] + b
  {
    assert [s[0]] + s[1..][..i - 1] == s[..i];
  }

  /** Putting the first character back in front of a split tail. */
  lemma ConsSlices(s: string, i: nat, n: nat, rest: string)
    requires 1 <= i && i + n <= |s|
    ensures s[1..][i - 1 + n..] == s[i + n..]
    ensures [s[0]] + (s[1..][..i - 1] + rest) == s[..i] + rest
  {
    assert [s[0]] + s[1..][..i - 1] == s[..i];
  }

  lemma OccursInTail(s: string, kw: string, j: nat)
    requires |s| > 0
    ensures OccursAt(s[1..], kw, j) <==> OccursAt(s, kw, j + 1)
  {
    if j + 1 + |kw| <= |s| {
      assert s[1..][j..j + |kw|] == s[j + 1..j + 1 + |kw|];
    }
  }

  /** `replace` only deletes characters: it never adds one nor repeats one. */
  lemma {:induction false} RemoveAllKeepsChars(s: string, kw: string)
    decreases |s|
    ensures multiset(RemoveAll(s, kw)) <= multiset(s)
  {
    if |kw| > 0 && |s| > 0 {
      if OccursAt(s, kw, 0) {
        RemoveAllHere(s, kw);
        RemoveAllKeepsChars(s[|kw|..], kw);
        assert s == s[..|kw|] + s[|kw|..];
      } else {
        RemoveAllStep(s, kw);
        RemoveAllKeepsChars(s[1..], kw);
        assert s == [s[0]] + s[1..];
      }
    }
  }

  /** Where `kw` does not start the text, `replace` keeps the first character. */
  lemma RemoveAllStep(s: string, kw: string)
    requires |s| > 0 && |kw| > 0 && !OccursAt(s, kw, 0)
    ensures RemoveAll(s, kw) == [s[0]] + RemoveAll(s[1..], kw)
  {
  }

  /** A pattern that does not start a text occurs in it exactly when it occurs past the first character. */
  lemma OccursPastFirst(s: string, kw: string)
    requires |s| > 0 && !OccursAt(s, kw, 0)
    ensures Occurs(s, kw) <==> Occurs(s[1..], kw)
  {
    if Occurs(s, kw) {
      var i: nat :| OccursAt(s, kw, i);
      assert s[1..][i - 1..i - 1 + |kw|] == s[i..i + |kw|];
      assert OccursAt(s[1..], kw, i - 1);
    }
    if Occurs(s[1..], kw) {
      var i: nat :| OccursAt(s[1..], kw, i);
      OccursAtShift([s[0]], s[1..], [], kw, i);
      assert [s[0]] + s[1..] + [] == s;
    }
  }

  /** `RemoveAll` for each keyword in order, as a loop of `str.replace` calls. */
  function RemoveEach(s: string, kws: seq<string>): (r: string)
    decreases |kws|
    ensures |r| <= |s|
    ensures multiset(r) <= multiset(s)
    ensures r == s <==> forall k :: 0 <= k < |kws| ==> |kws[k]| == 0 || !Occurs(s, kws[k])
  {
    if |kws| == 0 then s
    else
      var t := RemoveAll(s, kws[0]);
      var r := RemoveEach(t, kws[1..]);
      RemoveAllKeepsChars(s, kws[0]);
      RemoveAllChanges(s, kws[0]);
      assert r == s <==> forall k :: 0 <= k < |kws| ==> |kws[k]| == 0 || !Occurs(s, kws[k]) by {
        if t == s {
          forall k | 0 < k < |kws| ensures kws[k] == kws[1..][k - 1] {}
        } else {
          assert |r| < |s|;
        }
      }
      r
  }

  // ---------------------------------------------------------------- whitespace normalisation

  /** `re.sub(r"\s+", " ", s)`: every maximal whitespace run becomes one space. */
  function CollapseSpaces(s: string): (r: string)
    decreases |s|
    ensures forall k :: 0 <= k < |r| && IsSpace(r[k]) ==> r[k] == ' '
    ensures forall k :: 0 <= k < |r| - 1 ==> !(r[k] == ' ' && r[k + 1] == ' ')
    ensures |r| > 0 && |s| > 0 ==> (r[0] == ' ' <==> IsSpace(s[0]))
    ensures |r| == 0 <==> |s| == 0
    ensures IsBlank(r) <==> IsBlank(s)
  {
    if |s| == 0 then []
    else if IsSpace(s[0]) then
      var j := SkipSpace(s, 0);
      var rest := CollapseSpaces(s[j..]);
      assert IsBlank(s) <==> j == |s| by {
        if j < |s| { assert !IsSpace(s[j]); }
      }
      assert IsBlank(s[j..]) <==> j == |s| by {
        if j < |s| { assert !IsSpace(s[j..][0]); }
      }
      assert |rest| > 0 ==> !IsSpace(rest[0]) && rest[0] != ' ';
      var r := [' '] + rest;
      assert IsBlank(r) <==> |rest| == 0 by {
        if |rest| > 0 { assert r[1] == rest[0]; }
      }
      r
    else
      var rest := CollapseSpaces(s[1..]);
      var r := [s[0]] + rest;
      assert r[0] == s[0] && !IsSpace(s[0]);
      assert !IsBlank(s) && !IsBlank(r);
      r
  }

  /** Single-spaced text: no whitespace but the plain space, never two spaces together, none at the ends. */
  predicate IsNormalized(s: string) {
    && LoneSpaces(s)
    && (|s| > 0 ==> !IsSpace(s[0]) && !IsSpace(s[|s| - 1]))
  }

  /** The only whitespace is plain spaces, never two in a row. */
  predicate LoneSpaces(s: string) {
    && (forall k :: 0 <= k < |s| && IsSpace(s[k]) ==> s[k] == ' ')
    && (forall k :: 0 <= k < |s| - 1 ==> !(s[k] == ' ' && s[k + 1] == ' '))
  }

  lemma LoneSpacesTail(s: string, d: nat)
    requires LoneSpaces(s) && d <= |s|
    ensures LoneSpaces(s[d..])
  {
    assert forall k :: 0 <= k < |s| - d ==> s[d..][k] == s[k + d];
  }

  /**
   The non-space characters of `s` in order, each paired with whether
   whitespace separates it from the non-space character before it. `seen`
   says that a non-space character came before `s`, `gap` that whitespace has
   followed it since.
   */
  function GlyphsFrom(s: string, seen: bool, gap: bool): seq<(bool, char)>
    decreases |s|
  {
    if |s| == 0 then []
    else if IsSpace(s[0]) then GlyphsFrom(s[1..], seen, seen)
    else [(gap, s[0])] + GlyphsFrom(s[1..], true, false)
  }

  function Glyphs(s: string): seq<(bool, char)> {
    GlyphsFrom(s, false, false)
  }

  /**
   Python's `" ".join(words)` over glyphs: each character, preceded by one
   plain space when whitespace separated it from the previous one. On
   `Glyphs(s)` this is `" ".join(s.split())`.
   */
  function Render(gs: seq<(bool, char)>): string
    decreases |gs|
  {
    if |gs| == 0 then [] else (if gs[0].0 then " " else "") + [gs[0].1] + Render(gs[1..])
  }

  /**
   `re.sub(r"\s+", " ", s).strip()`: the text's non-space characters in
   order, with one plain space wherever whitespace separated two of them and
   nothing else, that is `" ".join(s.split())`.
   */
  function NormalizeSpaces(s: string): (r: string)
    ensures IsNormalized(r)
    ensures r == [] <==> IsBlank(s)
    ensures Glyphs(r) == Glyphs(s)
    ensures r == Render(Glyphs(s))
  {
    var c := CollapseSpaces(s);
    StripSingleSpaced(c);
    CollapseKeepsGlyphs(s, false, false);
    StripKeepsGlyphs(c);
    RenderGlyphsFrom(Strip(c), false);
    Strip(c)
  }

  /** A blank prefix of at least one character only records that whitespace was crossed. */
  lemma {:induction false} GlyphsSkipBlank(s: string, j: nat, seen: bool, gap: bool)
    requires 1 <= j <= |s| && forall k :: 0 <= k < j ==> IsSpace(s[k])
    decreases j
    ensures GlyphsFrom(s, seen, gap) == GlyphsFrom(s[j..], seen, seen)
  {
    if j > 1 {
      GlyphsSkipBlank(s[1..], j - 1, seen, seen);
      assert s[1..][j - 1..] == s[j..];
    }
  }

  lemma {:induction false} GlyphsOfBlank(ws: string, seen: bool, gap: bool)
    requires IsBlank(ws)
    decreases |ws|
    ensures GlyphsFrom(ws, seen, gap) == []
  {
    if |ws| > 0 {
      assert IsBlank(ws[1..]) by {
        forall k | 0 <= k < |ws| - 1 ensures IsSpace(ws[1..][k]) {
          assert ws[1..][k] == ws[k + 1];
        }
      }
      GlyphsOfBlank(ws[1..], seen, seen);
    }
  }

  lemma {:induction false} GlyphsBlankSuffix(t: string, ws: string, seen: bool, gap: bool)
    requires IsBlank(ws)
    decreases |t|
    ensures GlyphsFrom(t + ws, seen, gap) == GlyphsFrom(t, seen, gap)
  {
    if |t| == 0 {
      assert t + ws == ws;
      GlyphsOfBlank(ws, seen, gap);
    } else {
      assert (t + ws)[0] == t[0] && (t + ws)[1..] == t[1..] + ws;
      if IsSpace(t[0]) {
        GlyphsBlankSuffix(t[1..], ws, seen, seen);
      } else {
        GlyphsBlankSuffix(t[1..], ws, true, false);
      }
    }
  }

  lemma {:induction false} GlyphsBlankPrefix(ws: string, t: string)
    requires IsBlank(ws)
    decreases |ws|
    ensures GlyphsFrom(ws + t, false, false) == GlyphsFrom(t, false, false)
  {
    if |ws| == 0 {
      assert ws + t == t;
    } else {
      assert (ws + t)[0] == ws[0] && IsSpace(ws[0]);
      assert (ws + t)[1..] == ws[1..] + t;
      assert IsBlank(ws[1..]) by {
        forall k | 0 <= k < |ws| - 1 ensures IsSpace(ws[1..][k]) {
          assert ws[1..][k] == ws[k + 1];
        }
      }
      assert GlyphsFrom(ws + t, false, false) == GlyphsFrom(ws[1..] + t, false, false);
      GlyphsBlankPrefix(ws[1..], t);
    }
  }

  /** Collapsing whitespace runs keeps the glyphs. */
  lemma {:induction false} CollapseKeepsGlyphs(s: string, seen: bool, gap: bool)
    decreases |s|
    ensures GlyphsFrom(CollapseSpaces(s), seen, gap) == GlyphsFrom(s, seen, gap)
  {
    if |s| > 0 {
      var c := CollapseSpaces(s);
      if IsSpace(s[0]) {
        var j := SkipSpace(s, 0);
        assert j >= 1;
        assert c == [' '] + CollapseSpaces(s[j..]);
        assert c[1..] == CollapseSpaces(s[j..]);
        CollapseKeepsGlyphs(s[j..], seen, seen);
        GlyphsSkipBlank(s, j, seen, gap);
      } else {
        assert c == [s[0]] + CollapseSpaces(s[1..]);
        assert c[1..] == CollapseSpaces(s[1..]);
        CollapseKeepsGlyphs(s[1..], true, false);
      }
    }
  }

  /** Stripping keeps the glyphs: leading whitespace separates nothing, trailing whitespace precedes nothing. */
  lemma StripKeepsGlyphs(s: string)
    ensures Glyphs(Strip(s)) == Glyphs(s)
  {
    StripIsInfix(s);
    var i := LeadingWhere(s, IsSpace);
    GlyphsOfMiddle(s, i, i + |Strip(s)|);
  }

  /** Blank text on either side of a slice adds no glyph. */
  lemma GlyphsOfMiddle(s: string, i: nat, j: nat)
    requires i <= j <= |s| && IsBlank(s[..i]) && IsBlank(s[j..])
    ensures Glyphs(s) == Glyphs(s[i..j])
  {
    SplitThree(s, i, j);
    GlyphsBlankPrefix(s[..i], s[i..j] + s[j..]);
    GlyphsBlankSuffix(s[i..j], s[j..], false, false);
  }

  lemma SplitThree<T>(s: seq<T>, i: nat, j: nat)
    requires i <= j <= |s|
    ensures s == s[..i] + (s[i..j] + s[j..])
  {
  }

  /**
   Single-spaced text is rendered back from its own glyphs. For a suffix,
   a leading space is allowed once a character has been seen before it.
   */
  lemma {:induction false} RenderGlyphsFrom(x: string, seen: bool)
    requires LoneSpaces(x)
    requires |x| > 0 ==> !IsSpace(x[|x| - 1]) && (seen || !IsSpace(x[0]))
    decreases |x|
    ensures Render(GlyphsFrom(x, seen, false)) == x
  {
    if |x| > 0 {
      if !IsSpace(x[0]) {
        LoneSpacesTail(x, 1);
        RenderGlyphsFrom(x[1..], true);
        RenderGlyph(x, seen);
      } else {
        assert x[0] == ' ' && |x| >= 2;
        assert !IsSpace(x[1]);
        LoneSpacesTail(x, 2);
        RenderGlyphsFrom(x[2..], true);
        RenderSpacedGlyph(x, seen);
      }
    }
  }

  lemma RenderGlyph(x: string, seen: bool)
    requires |x| > 0 && !IsSpace(x[0]) && Render(GlyphsFrom(x[1..], true, false)) == x[1..]
    ensures Render(GlyphsFrom(x, seen, false)) == x
  {
    assert x == [x[0]] + x[1..];
  }

  lemma RenderSpacedGlyph(x: string, seen: bool)
    requires |x| >= 2 && x[0] == ' ' && !IsSpace(x[1]) && seen
    requires Render(GlyphsFrom(x[2..], true, false)) == x[2..]
    ensures Render(GlyphsFrom(x, seen, false)) == x
  {
    assert x[1..][0] == x[1] && x[1..][1..] == x[2..];
    assert GlyphsFrom(x, seen, false) == GlyphsFrom(x[1..], true, true);
    assert GlyphsFrom(x[1..], true, true) == [(true, x[1])] + GlyphsFrom(x[2..], true, false);
    assert x == " " + [x[1]] + x[2..];
  }

  /** Stripping text whose only whitespace is lone plain spaces leaves it single-spaced. */
  lemma StripSingleSpaced(c: string)
    requires forall k :: 0 <= k < |c| && IsSpace(c[k]) ==> c[k] == ' '
    requires forall k :: 0 <= k < |c| - 1 ==> !(c[k] == ' ' && c[k + 1] == ' ')
    ensures IsNormalized(Strip(c))
  {
    var r, i := Strip(c), LeadingWhere(c, IsSpace);
    StripIsInfix(c);
    assert forall k :: 0 <= k < |r| ==> r[k] == c[i + k];
  }

  // ---------------------------------------------------------------- lines

  /** Python's `s.split("\n")`: never empty; the pieces hold no newline. */
  function SplitLines(s: string): (r: seq<string>)
    decreases |s|
    ensures |r| >= 1
    ensures forall k :: 0 <= k < |r| ==> '\n' !in r[k]
  {
    match FindFrom(s, "\n", 0)
    case None =>
      forall k | 0 <= k < |s| ensures s[k] != '\n' {
        CharOccursAt(s, k);
      }
      [s]
    case Some(i) =>
      forall k | 0 <= k < i ensures s[..i][k] != '\n' {
        CharOccursAt(s, k);
      }
      [s[..i]] + SplitLines(s[i + 1..])
  }

  /** Python's `"\n".join(lines)`. */
  function JoinLines(lines: seq<string>): string
    decreases |lines|
  {
    if |lines| == 0 then []
    else if |lines| == 1 then lines[0]
    else lines[0] + "\n" + JoinLines(lines[1..])
  }

  /** Splitting and joining on newlines are inverse: joining the pieces rebuilds the text. */
  lemma {:induction false} JoinSplitLines(s: string)
    decreases |s|
    ensures JoinLines(SplitLines(s)) == s
  {
    match FindFrom(s, "\n", 0)
    case None =>
    case Some(i) =>
      var rest := SplitLines(s[i + 1..]);
      var lines := [s[..i]] + rest;
      assert SplitLines(s) == lines;
      assert lines[0] == s[..i] && lines[1..] == rest;
      assert JoinLines(lines) == s[..i] + "\n" + JoinLines(rest);
      JoinSplitLines(s[i + 1..]);
      assert s[i] == s[i..i + 1][0] == '\n';
      assert s == s[..i] + "\n" + s[i + 1..];
  }

  /** The empty text splits into one empty line. */
  lemma SplitEmpty()
    ensures SplitLines("") == [""]
  {
    assert FindFrom("", "\n", 0).None?;
  }

  /** Splitting the join of newline-free pieces gives the pieces back. */
  lemma {:induction false} SplitJoinLines(lines: seq<string>)
    requires |lines| >= 1
    requires forall k :: 0 <= k < |lines| ==> '\n' !in lines[k]
    decreases |lines|
    ensures SplitLines(JoinLines(lines)) == lines
  {
    var s := JoinLines(lines);
    if |lines| == 1 {
      forall j: nat ensures !OccursAt(s, "\n", j) {
        if j + 1 <= |s| {
          assert s[j..j + 1] == [s[j]];
        }
      }
    } else {
      var head := lines[0];
      var tail := JoinLines(lines[1..]);
      assert s == head + "\n" + tail;
      assert OccursAt(s, "\n", |head|);
      forall j: nat | j < |head| ensures !OccursAt(s, "\n", j) {
        assert s[j] == head[j];
      }
      assert FindFrom(s, "\n", 0) == Some(|head|);
      assert s[..|head|] == head;
      assert s[|head| + 1..] == tail;
      SplitJoinLines(lines[1..]);
    }
  }

  // ---------------------------------------------------------------- decimal numbers

  /** Python's `s.isdigit()` restricted to ASCII digits: non-empty and all digits. */
  predicate IsDigits(s: string) {
    |s| > 0 && forall k :: 0 <= k < |s| ==> IsAsciiDigit(s[k])
  }

  /** Python's `int(s)` on an ASCII digit string (leading zeros allowed). */
  function ParseNat(s: string): nat
    requires forall k :: 0 <= k < |s| ==> IsAsciiDigit(s[k])
    decreases |s|
  {
    if |s| == 0 then 0
    else
      assert IsAsciiDigit(s[|s| - 1]);
      ParseNat(s[..|s| - 1]) * 10 + (s[|s| - 1] as int - '0' as int)
  }

  /** Python's `str(n)` for a natural number. */
  function ShowNat(n: nat): (s: string)
    ensures IsDigits(s)
  {
    var d := ['0' + (n % 10) as char];
    if n < 10 then d else ShowNat(n / 10) + d
  }

  /** Reading back a printed number gives the number. */
  lemma {:induction false} ParseShowNat(n: nat)
    ensures ParseNat(ShowNat(n)) == n
  {
    var s := ShowNat(n);
    if n >= 10 {
      ParseShowNat(n / 10);
      assert s[..|s| - 1] == ShowNat(n / 10);
    }
  }
}
