/**
 The plugin's configuration after `__init__` and `_parse_config` have read it:
 the options the reliability layer consults, and the shipped defaults.
 */
module Settings {
  import opened Text

  /**
   The final-reply anchor: a literal phrase, then at most one of `marks`
   (the default pattern's `[:：]?`), then any whitespace (`\s*`). Matching is
   case-insensitive, so `marks` are compared with the folded text.
   */
  datatype Anchor = Anchor(phrase: string, marks: set<char>)

  datatype Config = Config(
    maxAttempts: int,
    /** A number of seconds, integral or not, as the option may hold either. */
    retryDelay: real,
    errorKeywords: seq<string>,
    fallbackReply: string,
    enableTruncationRetry: bool,
    cotStartTag: string,
    cotEndTag: string,
    anchor: Anchor,
    /** Already stripped, as `__init__` stores it; empty disables the incantation patterns. */
    incantationTag: string,
    displayCotText: bool,
    filteredKeywords: seq<string>,
    historyLimit: int,
    excludeRetryCommands: seq<string>)

  /** A configured list entry: non-empty, stripped, lower-case. */
  predicate IsListEntry(s: string) {
    && |s| > 0
    && !IsSpace(s[0]) && !IsSpace(s[|s| - 1])
    && forall k :: 0 <= k < |s| ==> !('A' <= s[k] <= 'Z')
  }

  /** Lower-casing a stripped, non-empty line gives a list entry. */
  lemma FoldedEntry(e: string)
    requires |e| > 0 && !IsSpace(e[0]) && !IsSpace(e[|e| - 1])
    ensures IsListEntry(Fold(e))
  {
    FoldKeepsSpaces(e);
  }

  /** Stripped, lower-cased, non-empty lines, in order (the list comprehension of `_parse_config`). */
  function NormalizeEntries(lines: seq<string>): (r: seq<string>)
    decreases |lines|
    ensures |r| <= |lines|
    ensures forall k :: 0 <= k < |r| ==> IsListEntry(r[k])
  {
    if |lines| == 0 then []
    else
      var e := Strip(lines[0]);
      var rest := NormalizeEntries(lines[1..]);
      if e == [] then rest
      else
        FoldedEntry(e);
        [Fold(e)] + rest
  }

  /** How `_parse_config` turns a newline-separated option into a keyword or command list. */
  function ParseLineList(s: string): (r: seq<string>)
    ensures forall k :: 0 <= k < |r| ==> IsListEntry(r[k])
  {
    NormalizeEntries(SplitLines(s))
  }

  /** Indices, in increasing order, of the lines from `from` on that are not blank. */
  function NonBlankLines(lines: seq<string>, from: nat): (ix: seq<nat>)
    requires from <= |lines|
    decreases |lines| - from
    ensures forall k :: 0 <= k < |ix| ==> from <= ix[k] < |lines|
  {
    if from == |lines| then []
    else
      var rest := NonBlankLines(lines, from + 1);
      if Strip(lines[from]) != [] then [from] + rest else rest
  }

  predicate Increasing(ix: seq<nat>) {
    forall k, l :: 0 <= k < l < |ix| ==> ix[k] < ix[l]
  }

  /** The selected indices are in increasing order. */
  lemma {:induction false} NonBlankLinesIncrease(lines: seq<string>, from: nat)
    requires from <= |lines|
    decreases |lines| - from
    ensures Increasing(NonBlankLines(lines, from))
  {
    if from < |lines| {
      NonBlankLinesIncrease(lines, from + 1);
      if Strip(lines[from]) != [] {
        IncreasingCons(from, NonBlankLines(lines, from + 1));
      }
    }
  }

  lemma IncreasingCons(i: nat, ix: seq<nat>)
    requires Increasing(ix) && forall k :: 0 <= k < |ix| ==> i < ix[k]
    ensures Increasing([i] + ix)
  {
    var r := [i] + ix;
    assert forall k :: 1 <= k < |r| ==> r[k] == ix[k - 1];
  }

  /** The selected indices are exactly the lines, from `from` on, that are not blank. */
  lemma {:induction false} NonBlankLinesExact(lines: seq<string>, from: nat)
    requires from <= |lines|
    decreases |lines| - from
    ensures SelectsNonBlank(lines, from, NonBlankLines(lines, from))
  {
    if from < |lines| {
      NonBlankLinesExact(lines, from + 1);
      var rest := NonBlankLines(lines, from + 1);
      ExactStep(lines, from, NonBlankLines(lines, from), rest);
    }
  }

  predicate SelectsNonBlank(lines: seq<string>, from: nat, ix: seq<nat>) {
    forall j :: from <= j < |lines| ==> (j in ix <==> Strip(lines[j]) != [])
  }

  lemma ExactStep(lines: seq<string>, from: nat, ix: seq<nat>, rest: seq<nat>)
    requires from < |lines|
    requires forall k :: 0 <= k < |rest| ==> from < rest[k]
    requires ix == if Strip(lines[from]) != [] then [from] + rest else rest
    requires SelectsNonBlank(lines, from + 1, rest)
    ensures SelectsNonBlank(lines, from, ix)
  {
    assert from !in rest;
  }

  /** The stripped, lower-cased text of the lines at the indices `ix`. */
  function EntriesAt(lines: seq<string>, ix: seq<nat>): (r: seq<string>)
    requires forall k :: 0 <= k < |ix| ==> ix[k] < |lines|
    ensures |r| == |ix|
    ensures forall k :: 0 <= k < |ix| ==> r[k] == Fold(Strip(lines[ix[k]]))
  {
    seq(|ix|, k requires 0 <= k < |ix| => Fold(Strip(lines[ix[k]])))
  }

  /**
   The option list is, in order, the stripped and lower-cased text of exactly
   the lines that are not blank.
   */
  lemma {:induction false} NormalizeEntriesSelects(lines: seq<string>, from: nat)
    requires from <= |lines|
    decreases |lines| - from
    ensures NormalizeEntries(lines[from..]) == EntriesAt(lines, NonBlankLines(lines, from))
  {
    if from < |lines| {
      NormalizeEntriesSelects(lines, from + 1);
      NormalizeEntriesSelectsStep(lines, from);
    }
  }

  lemma NormalizeEntriesSelectsStep(lines: seq<string>, from: nat)
    requires from < |lines|
    requires NormalizeEntries(lines[from + 1..]) == EntriesAt(lines, NonBlankLines(lines, from + 1))
    ensures NormalizeEntries(lines[from..]) == EntriesAt(lines, NonBlankLines(lines, from))
  {
    NormalizeEntriesStep(lines, from);
    var rest := NonBlankLines(lines, from + 1);
    if Strip(lines[from]) != [] {
      EntriesAtCons(lines, from, rest);
    } else {
      assert NonBlankLines(lines, from) == rest;
    }
  }

  lemma EntriesAtCons(lines: seq<string>, i: nat, ix: seq<nat>)
    requires i < |lines| && forall k :: 0 <= k < |ix| ==> ix[k] < |lines|
    ensures EntriesAt(lines, [i] + ix) == [Fold(Strip(lines[i]))] + EntriesAt(lines, ix)
  {
  }

  lemma NormalizeEntriesStep(lines: seq<string>, from: nat)
    requires from < |lines|
    ensures NormalizeEntries(lines[from..]) ==
      (if Strip(lines[from]) != [] then [Fold(Strip(lines[from]))] else []) + NormalizeEntries(lines[from + 1..])
  {
    assert lines[from..][1..] == lines[from + 1..];
    assert lines[from..][0] == lines[from];
    if Strip(lines[from]) == [] {
      assert [] + NormalizeEntries(lines[from + 1..]) == NormalizeEntries(lines[from + 1..]);
    }
  }

  /** `_parse_config`'s list comprehension: the entries are the stripped, lower-cased non-blank lines, in order. */
  lemma ParseLineListSelects(s: string)
    ensures ParseLineList(s) == EntriesAt(SplitLines(s), NonBlankLines(SplitLines(s), 0))
  {
    var lines := SplitLines(s);
    NormalizeEntriesSelects(lines, 0);
    assert lines[0..] == lines;
  }

  lemma {:induction false} NormalizeEntriesKeepsEntries(lines: seq<string>)
    requires forall k :: 0 <= k < |lines| ==> IsListEntry(lines[k])
    decreases |lines|
    ensures NormalizeEntries(lines) == lines
  {
    if |lines| > 0 {
      StripUnchanged(lines[0]);
      assert Fold(lines[0]) == lines[0];
      NormalizeEntriesKeepsEntries(lines[1..]);
    }
  }

  /** A list written one entry per line parses back to the same list. */
  lemma ParseLineListRoundTrip(entries: seq<string>)
    requires forall k :: 0 <= k < |entries| ==> IsListEntry(entries[k]) && '\n' !in entries[k]
    ensures ParseLineList(JoinLines(entries)) == entries
  {
    if |entries| == 0 {
      SplitEmpty();
      assert NormalizeEntries([""]) == [];
    } else {
      SplitJoinLines(entries);
      NormalizeEntriesKeepsEntries(entries);
    }
  }

  const DefaultErrorKeywords: string := "达到最大长度限制而被截断\nexception\nerror\ntimeout"
  const DefaultExcludeCommands: string := "/cogito\n/rosaos\nreset\nnew"

  /** The option defaults of `__init__` and `_parse_config`. */
  function DefaultConfig(): Config {
    Config(
      maxAttempts := 3,
      retryDelay := 2.0,
      errorKeywords := ParseLineList(DefaultErrorKeywords),
      fallbackReply := "抱歉，服务波动，罗莎暂时无法回应。",
      enableTruncationRetry := false,
      cotStartTag := "<ROSAOS>",
      cotEndTag := "</ROSAOS>",
      anchor := Anchor("最终的罗莎回复", {':', '：'}),
      incantationTag := "Incantatio",
      displayCotText := false,
      filteredKeywords := ["呵呵，", "（……）"],
      historyLimit := 100,
      excludeRetryCommands := ParseLineList(DefaultExcludeCommands))
  }
}
