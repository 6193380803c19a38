/**
 Error signatures and the content checks that decide whether a completion is a
 failure in disguise: `_has_api_error_pattern`, `_should_retry_response`,
 `_is_truncated`, `_parse_status_codes` and the excluded-command prefix test
 of `store_llm_request`.
 */
module ErrorSignals {
  import opened Wrappers
  import opened Text
  import opened Settings

  // ---------------------------------------------------------------- signatures

  /** One element of an error signature: a literal, a run of whitespace (`\s*`), or one digit (`\d`). */
  datatype Piece = Lit(word: string) | Gap | Digit

  type Signature = seq<Piece>

  /** The ten alternatives of the combined error regex, lower-cased because the search ignores case. */
  const ApiErrorSignatures: seq<Signature> := [
    [Lit("error"), Gap, Lit("code:"), Gap, Lit("5"), Digit, Digit],
    [Lit("apitimeouterror")],
    [Lit("request"), Gap, Lit("timed"), Gap, Lit("out")],
    [Lit("internalservererror")],
    [Lit("count_token_failed")],
    [Lit("bad_response_status_code")],
    [Lit("connection"), Gap, Lit("error")],
    [Lit("remote"), Gap, Lit("disconnected")],
    [Lit("read"), Gap, Lit("timeout")],
    [Lit("connect"), Gap, Lit("timeout")]
  ]

  /**
   The regex meaning of a signature: it matches `fs[i..e]` when the pieces can
   be laid end to end over it, each `\s*` taking any run of whitespace.
   */
  ghost predicate Derives(fs: string, sig: Signature, i: nat, e: nat)
    decreases |sig|
  {
    if sig == [] then e == i
    else
      match sig[0]
      case Lit(w) => OccursAt(fs, w, i) && Derives(fs, sig[1..], i + |w|, e)
      case Gap => exists j: nat :: i <= j <= |fs| && IsBlank(fs[i..j]) && Derives(fs, sig[1..], j, e)
      case Digit => i < |fs| && IsAsciiDigit(fs[i]) && Derives(fs, sig[1..], i + 1, e)
  }

  /**
   A signature a greedy matcher decides exactly: literals are non-empty and do
   not begin with whitespace, and every `\s*` is followed by a non-gap piece.
   */
  predicate WellFormed(sig: Signature) {
    forall k :: 0 <= k < |sig| ==>
      && (sig[k].Lit? ==> |sig[k].word| > 0 && !IsSpace(sig[k].word[0]))
      && (sig[k].Gap? ==> k + 1 < |sig| && !sig[k + 1].Gap?)
  }

  lemma WellFormedTail(sig: Signature)
    requires sig != [] && WellFormed(sig)
    ensures WellFormed(sig[1..])
  {
    var t := sig[1..];
    forall k | 0 <= k < |t|
      ensures t[k].Lit? ==> |t[k].word| > 0 && !IsSpace(t[k].word[0])
      ensures t[k].Gap? ==> k + 1 < |t| && !t[k + 1].Gap?
    {
      assert t[k] == sig[k + 1];
      assert sig[k + 1].Gap? ==> k + 2 < |sig| && !sig[k + 2].Gap?;
      if k + 1 < |t| {
        assert t[k + 1] == sig[k + 2];
      }
    }
  }

  /** The match of a signature at `i`, taking every `\s*` greedily; where it ends. */
  function MatchFrom(fs: string, sig: Signature, i: nat): (r: Option<nat>)
    requires i <= |fs|
    decreases |sig|
    ensures r.Some? ==> i <= r.value <= |fs|
  {
    if sig == [] then Some(i)
    else
      match sig[0]
      case Lit(w) => if OccursAt(fs, w, i) then MatchFrom(fs, sig[1..], i + |w|) else None
      case Gap => MatchFrom(fs, sig[1..], SkipSpace(fs, i))
      case Digit => if i < |fs| && IsAsciiDigit(fs[i]) then MatchFrom(fs, sig[1..], i + 1) else None
  }

  /** What the greedy matcher finds is a regex match. */
  lemma {:induction false} MatchFromSound(fs: string, sig: Signature, i: nat)
    requires i <= |fs| && MatchFrom(fs, sig, i).Some?
    decreases |sig|
    ensures Derives(fs, sig, i, MatchFrom(fs, sig, i).value)
  {
    if sig != [] {
      match sig[0]
      case Lit(w) => MatchFromSound(fs, sig[1..], i + |w|);
      case Gap =>
        var j := SkipSpace(fs, i);
        MatchFromSound(fs, sig[1..], j);
        assert IsBlank(fs[i..j]);
      case Digit => MatchFromSound(fs, sig[1..], i + 1);
    }
  }

  /** A piece that is not a gap cannot start on whitespace. */
  lemma NoMatchOnSpace(fs: string, sig: Signature, j: nat, e: nat)
    requires WellFormed(sig) && |sig| > 0 && !sig[0].Gap?
    requires Derives(fs, sig, j, e)
    ensures j < |fs| && !IsSpace(fs[j])
  {
    match sig[0]
    case Lit(w) =>
      assert |w| > 0 && !IsSpace(w[0]);
      assert fs[j..j + |w|][0] == w[0];
    case Digit =>
  }

  /** For a well-formed signature every regex match is the greedy one. */
  lemma {:induction false} MatchFromComplete(fs: string, sig: Signature, i: nat, e: nat)
    requires i <= |fs| && WellFormed(sig) && Derives(fs, sig, i, e)
    decreases |sig|
    ensures MatchFrom(fs, sig, i) == Some(e)
  {
    if sig != [] {
      WellFormedTail(sig);
      match sig[0]
      case Lit(w) =>
        MatchFromComplete(fs, sig[1..], i + |w|, e);
      case Gap =>
        var j: nat :| i <= j <= |fs| && IsBlank(fs[i..j]) && Derives(fs, sig[1..], j, e);
        assert 1 < |sig| && !sig[1].Gap?;
        assert sig[1..][0] == sig[1];
        NoMatchOnSpace(fs, sig[1..], j, e);
        SkipSpaceStopsAt(fs, i, j);
        MatchFromComplete(fs, sig[1..], j, e);
      case Digit =>
        MatchFromComplete(fs, sig[1..], i + 1, e);
    }
  }

  /** A literal that starts with a lower-case letter is a well-formed piece. */
  lemma LetterNotSpace(w: string)
    requires |w| > 0 && 'a' <= w[0] <= 'z'
    ensures !IsSpace(w[0])
  {
  }

  lemma OneLitWellFormed(w: string)
    requires |w| > 0 && 'a' <= w[0] <= 'z'
    ensures WellFormed([Lit(w)])
  {
    LetterNotSpace(w);
  }

  lemma TwoLitsWellFormed(a: string, b: string)
    requires |a| > 0 && 'a' <= a[0] <= 'z' && |b| > 0 && 'a' <= b[0] <= 'z'
    ensures WellFormed([Lit(a), Gap, Lit(b)])
  {
    LetterNotSpace(a);
    LetterNotSpace(b);
  }

  lemma ThreeLitsWellFormed(a: string, b: string, c: string)
    requires |a| > 0 && 'a' <= a[0] <= 'z' && |b| > 0 && 'a' <= b[0] <= 'z' && |c| > 0 && 'a' <= c[0] <= 'z'
    ensures WellFormed([Lit(a), Gap, Lit(b), Gap, Lit(c)])
  {
    LetterNotSpace(a);
    LetterNotSpace(b);
    LetterNotSpace(c);
  }

  lemma ServerCodeWellFormed()
    ensures WellFormed(ApiErrorSignatures[0])
  {
    var sig := ApiErrorSignatures[0];
    assert sig == [Lit("error"), Gap, Lit("code:"), Gap, Lit("5"), Digit, Digit];
    LetterNotSpace("error");
    LetterNotSpace("code:");
    assert !IsSpace("5"[0]);
  }

  lemma SignatureWellFormed(k: nat)
    requires k < |ApiErrorSignatures|
    ensures |ApiErrorSignatures[k]| > 0 && WellFormed(ApiErrorSignatures[k])
  {
    if k == 0 { ServerCodeWellFormed(); }
    else if k == 1 { OneLitWellFormed("apitimeouterror"); }
    else if k == 2 { ThreeLitsWellFormed("request", "timed", "out"); }
    else if k == 3 { OneLitWellFormed("internalservererror"); }
    else if k == 4 { OneLitWellFormed("count_token_failed"); }
    else if k == 5 { OneLitWellFormed("bad_response_status_code"); }
    else if k == 6 { TwoLitsWellFormed("connection", "error"); }
    else if k == 7 { TwoLitsWellFormed("remote", "disconnected"); }
    else if k == 8 { TwoLitsWellFormed("read", "timeout"); }
    else { TwoLitsWellFormed("connect", "timeout"); }
  }

  lemma ApiErrorSignaturesWellFormed()
    ensures forall k :: 0 <= k < |ApiErrorSignatures| ==> WellFormed(ApiErrorSignatures[k])
  {
    forall k | 0 <= k < |ApiErrorSignatures| ensures WellFormed(ApiErrorSignatures[k]) {
      SignatureWellFormed(k);
    }
  }

  /** A regex match survives any text around it. */
  lemma {:induction false} DerivesInContext(a: string, fs: string, b: string, sig: Signature, i: nat, e: nat)
    requires Derives(fs, sig, i, e)
    decreases |sig|
    ensures Derives(a + fs + b, sig, |a| + i, |a| + e)
  {
    var t := a + fs + b;
    if sig != [] {
      match sig[0]
      case Lit(w) =>
        OccursAtShift(a, fs, b, w, i);
        DerivesInContext(a, fs, b, sig[1..], i + |w|, e);
      case Gap =>
        var j: nat :| i <= j <= |fs| && IsBlank(fs[i..j]) && Derives(fs, sig[1..], j, e);
        DerivesInContext(a, fs, b, sig[1..], j, e);
        assert t[|a| + i..|a| + j] == fs[i..j];
        assert |a| + j <= |t|;
      case Digit =>
        assert t[|a| + i] == fs[i];
        DerivesInContext(a, fs, b, sig[1..], i + 1, e);
    }
  }

  /** Some error signature matches somewhere in the folded text. */
  ghost predicate SignatureOccurs(fs: string) {
    exists k: nat, i: nat, e: nat :: k < |ApiErrorSignatures| && Derives(fs, ApiErrorSignatures[k], i, e)
  }

  /** The greedy search over every start and every signature. */
  predicate SignatureSearch(fs: string) {
    exists i, k | 0 <= i <= |fs| && 0 <= k < |ApiErrorSignatures| :: MatchFrom(fs, ApiErrorSignatures[k], i).Some?
  }

  lemma SignatureSearchIsRegexSearch(fs: string)
    ensures SignatureSearch(fs) <==> SignatureOccurs(fs)
  {
    if SignatureSearch(fs) {
      SearchFindsOccurrence(fs);
    }
    if SignatureOccurs(fs) {
      OccurrenceIsFound(fs);
    }
  }

  lemma SearchFindsOccurrence(fs: string)
    requires SignatureSearch(fs)
    ensures SignatureOccurs(fs)
  {
    var i, k :| 0 <= i <= |fs| && 0 <= k < |ApiErrorSignatures| && MatchFrom(fs, ApiErrorSignatures[k], i).Some?;
    MatchFromSound(fs, ApiErrorSignatures[k], i);
  }

  lemma OccurrenceIsFound(fs: string)
    requires SignatureOccurs(fs)
    ensures SignatureSearch(fs)
  {
    var k: nat, i: nat, e: nat :| k < |ApiErrorSignatures| && Derives(fs, ApiErrorSignatures[k], i, e);
    var sig := ApiErrorSignatures[k];
    SignatureWellFormed(k);
    DerivesStartsInside(fs, sig, i, e);
    MatchFromComplete(fs, sig, i, e);
    assert MatchFrom(fs, ApiErrorSignatures[k], i).Some?;
  }

  /** A match of a non-empty signature starts inside the text. */
  lemma DerivesStartsInside(fs: string, sig: Signature, i: nat, e: nat)
    requires |sig| > 0 && Derives(fs, sig, i, e)
    ensures i <= |fs|
  {
  }

  /**
   `_has_api_error_pattern`: false on empty text; true when the text carries
   both `AstrBot` and `请求失败` (compared with case), or when any error
   signature matches somewhere, ignoring case.
   */
  function HasApiErrorPattern(text: string): (r: bool)
    ensures r <==> text != [] && ((Occurs(text, "AstrBot") && Occurs(text, "请求失败")) || SignatureOccurs(Fold(text)))
  {
    if text == [] then false
    else if Contains(text, "AstrBot") && Contains(text, "请求失败") then true
    else
      SignatureSearchIsRegexSearch(Fold(text));
      SignatureSearch(Fold(text))
  }

  lemma SignatureOccursInContext(a: string, fs: string, b: string)
    requires SignatureOccurs(fs)
    ensures SignatureOccurs(a + fs + b)
  {
    var k: nat, i: nat, e: nat :| k < |ApiErrorSignatures| && Derives(fs, ApiErrorSignatures[k], i, e);
    DerivesInContext(a, fs, b, ApiErrorSignatures[k], i, e);
  }

  /** An error signature is still detected wherever the erroneous text is embedded. */
  lemma ApiErrorInContext(a: string, t: string, b: string)
    requires HasApiErrorPattern(t)
    ensures HasApiErrorPattern(a + t + b)
  {
    if Occurs(t, "AstrBot") && Occurs(t, "请求失败") {
      OccursInContext(a, t, b, "AstrBot");
      OccursInContext(a, t, b, "请求失败");
    } else {
      SignatureOccursInContext(Fold(a), Fold(t), Fold(b));
      FoldAppend(a, t);
      FoldAppend(a + t, b);
    }
  }

  /** `\s*5\d{2}` matches the end of `error code: 502`. */
  lemma ServerCodeMatches()
    ensures MatchFrom("error code: 502", ApiErrorSignatures[0][3..], 11) == Some(15)
  {
    var t := "error code: 502";
    var sig := ApiErrorSignatures[0];
    assert MatchFrom(t, sig[6..], 14) == Some(15);
    assert MatchFrom(t, sig[5..], 13) == Some(15) by { assert sig[5..][1..] == sig[6..]; }
    assert MatchFrom(t, sig[4..], 12) == Some(15) by {
      assert sig[4..][1..] == sig[5..];
      assert t[12..13] == "5";
    }
    assert sig[3..][1..] == sig[4..];
    assert SkipSpace(t, 12) == 12;
    assert SkipSpace(t, 11) == 12;
  }

  /** `\s*code:\s*5\d{2}` matches the rest of `error code: 502` after `error`. */
  lemma ServerCodeClauseMatches()
    ensures MatchFrom("error code: 502", ApiErrorSignatures[0][1..], 5) == Some(15)
  {
    var t := "error code: 502";
    var sig := ApiErrorSignatures[0];
    ServerCodeMatches();
    assert MatchFrom(t, sig[2..], 6) == Some(15) by {
      assert sig[2..][1..] == sig[3..];
      assert t[6..11] == "code:";
    }
    assert sig[1..][1..] == sig[2..];
    assert SkipSpace(t, 6) == 6;
    assert SkipSpace(t, 5) == 6;
  }

  /** The server-error example of the source's comment: `error code: 502`. */
  lemma ServerErrorDetected()
    ensures HasApiErrorPattern("error code: 502")
  {
    var t := "error code: 502";
    var sig := ApiErrorSignatures[0];
    ServerCodeClauseMatches();
    assert MatchFrom(t, sig, 0) == Some(15) by { assert t[0..5] == "error"; }
    assert SignatureSearch(t);
    SignatureSearchIsRegexSearch(t);
    ServerExampleFolded();
  }

  /** The example is already lower case, so folding leaves it as it is. */
  lemma ServerExampleFolded()
    ensures Fold("error code: 502") == "error code: 502"
  {
    FoldUnchanged("error");
    FoldUnchanged(" code: ");
    FoldUnchanged("502");
    FoldAppend("error", " code: ");
    FoldAppend("error" + " code: ", "502");
    assert "error" + " code: " + "502" == "error code: 502";
  }

  // ---------------------------------------------------------------- retry checks

  /**
   `_should_retry_response`: a missing response, a blank completion, a
   configured keyword anywhere in the lower-cased completion, or an error
   signature all call for a retry.
   */
  function ShouldRetryResponse(resp: Option<string>, keywords: seq<string>): (r: bool)
    ensures resp.None? ==> r
    ensures resp.Some? ==>
      (r <==> || IsBlank(resp.value)
              || (exists k :: 0 <= k < |keywords| && Occurs(Fold(resp.value), keywords[k]))
              || HasApiErrorPattern(resp.value))
  {
    match resp
    case None => true
    case Some(text) =>
      || Strip(text) == []
      || (exists k | 0 <= k < |keywords| :: Contains(Fold(text), keywords[k]))
      || HasApiErrorPattern(text)
  }

  /** A completion that is not blank and calls for a retry still does when more text surrounds it. */
  lemma ShouldRetryInContext(a: string, t: string, b: string, keywords: seq<string>)
    requires !IsBlank(t) && ShouldRetryResponse(Some(t), keywords)
    ensures ShouldRetryResponse(Some(a + t + b), keywords)
  {
    if HasApiErrorPattern(t) {
      ApiErrorInContext(a, t, b);
    } else {
      var k :| 0 <= k < |keywords| && Occurs(Fold(t), keywords[k]);
      OccursInContext(Fold(a), Fold(t), Fold(b), keywords[k]);
      FoldAppend(a, t);
      FoldAppend(a + t, b);
    }
  }

  /** The marker `_is_truncated` looks for, compared with case. */
  const TruncationMarker: string := "[TRUNCATED_BY_LENGTH]"

  /**
   `_is_truncated` applied to a response: the completion carries the literal
   marker. Applied to a bare string the source always answers false, and it
   is never called that way.
   */
  function IsTruncated(completion: string): (r: bool)
    ensures r <==> Occurs(completion, TruncationMarker)
  {
    Contains(completion, TruncationMarker)
  }

  // ---------------------------------------------------------------- status codes

  /** `_parse_status_codes`: the numbers on the lines that, stripped, are all digits; other lines are ignored. */
  function ParseStatusCodes(s: string): (r: set<nat>)
    ensures forall l :: l in SplitLines(s) && IsDigits(Strip(l)) ==> ParseNat(Strip(l)) in r
    ensures forall c :: c in r ==> exists l :: l in SplitLines(s) && IsDigits(Strip(l)) && ParseNat(Strip(l)) == c
  {
    set l | l in SplitLines(s) && IsDigits(Strip(l)) :: ParseNat(Strip(l))
  }

  /** The codes printed one per line. */
  function ShowCodes(codes: seq<nat>): (lines: seq<string>)
    ensures |lines| == |codes|
    ensures forall k :: 0 <= k < |codes| ==> lines[k] == ShowNat(codes[k])
  {
    seq(|codes|, k requires 0 <= k < |codes| => ShowNat(codes[k]))
  }

  /** A printed code is a line of its own that strips to itself and parses back to the code. */
  lemma ShowNatIsCodeLine(c: nat)
    ensures '\n' !in ShowNat(c) && IsDigits(ShowNat(c))
    ensures Strip(ShowNat(c)) == ShowNat(c) && ParseNat(ShowNat(c)) == c
  {
    var l := ShowNat(c);
    assert !IsSpace(l[0]) && !IsSpace(l[|l| - 1]);
    StripUnchanged(l);
    ParseShowNat(c);
  }

  /** Every printed code is parsed back. */
  lemma PrintedCodesParsed(codes: seq<nat>, c: nat)
    requires c in codes && SplitLines(JoinLines(ShowCodes(codes))) == ShowCodes(codes)
    ensures c in ParseStatusCodes(JoinLines(ShowCodes(codes)))
  {
    var lines := ShowCodes(codes);
    var k :| 0 <= k < |codes| && codes[k] == c;
    ShowNatIsCodeLine(c);
    assert lines[k] in SplitLines(JoinLines(lines));
  }

  /** Every parsed code was printed. */
  lemma ParsedCodesPrinted(codes: seq<nat>, c: nat)
    requires SplitLines(JoinLines(ShowCodes(codes))) == ShowCodes(codes)
    requires c in ParseStatusCodes(JoinLines(ShowCodes(codes)))
    ensures c in codes
  {
    var lines := ShowCodes(codes);
    var l :| l in lines && IsDigits(Strip(l)) && ParseNat(Strip(l)) == c;
    var k :| 0 <= k < |lines| && lines[k] == l;
    ShowNatIsCodeLine(codes[k]);
  }

  /** Codes written one per line parse back to the set of those codes. */
  lemma StatusCodesRoundTrip(codes: seq<nat>)
    ensures ParseStatusCodes(JoinLines(ShowCodes(codes))) == set c | c in codes
  {
    var lines := ShowCodes(codes);
    if |codes| == 0 {
      SplitEmpty();
      assert !IsDigits(Strip(""));
      assert ParseStatusCodes("") == {};
      return;
    }
    forall k | 0 <= k < |lines| ensures '\n' !in lines[k] {
      ShowNatIsCodeLine(codes[k]);
    }
    SplitJoinLines(lines);
    forall c | c in codes ensures c in ParseStatusCodes(JoinLines(lines)) {
      PrintedCodesParsed(codes, c);
    }
    forall c | c in ParseStatusCodes(JoinLines(lines)) ensures c in codes {
      ParsedCodesPrinted(codes, c);
    }
  }

  // ---------------------------------------------------------------- excluded commands

  /** The prefix test of `store_llm_request`: the stripped, lower-cased message starts with an excluded command. */
  function IsExcludedCommand(message: string, commands: seq<string>): (r: bool)
    ensures r <==> exists k :: 0 <= k < |commands| && StartsWith(Fold(Strip(message)), commands[k])
  {
    exists k | 0 <= k < |commands| :: StartsWith(Fold(Strip(message)), commands[k])
  }

  /**
   A configured command typed with any leading whitespace, in any case and
   followed by anything is excluded.
   */
  lemma TypedCommandIsExcluded(ws: string, typed: string, rest: string, commands: seq<string>, k: nat)
    requires k < |commands| && IsListEntry(commands[k])
    requires IsBlank(ws) && Fold(typed) == commands[k]
    ensures IsExcludedCommand(ws + typed + rest, commands)
  {
    var cmd := commands[k];
    FoldKeepsSpaces(typed);
    assert !IsSpace(typed[0]) && !IsSpace(typed[|typed| - 1]);
    StripKeepsFront(ws, typed, rest);
    var r := Strip(ws + typed + rest);
    FoldSlice(r, 0, |typed|);
    assert StartsWith(Fold(r), cmd);
  }
}
