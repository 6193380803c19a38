/**
 The two-tier thought log of `_async_save_thought` and `_async_read_thought`:
 a per-day cold archive that only grows, and a per-session hot list, newest
 first and trimmed to `history_limit`, read back by 1-based index. Files are
 maps from file name to content; clocks are parameters.
 */
module ThoughtLog {
  import opened Wrappers
  import opened Text

  /** The characters `sanitize_filename` replaces by `_`. */
  const UnsafeChars: set<char> := {':', '\\', '/', '*', '?', '"', '<', '>', '|'}

  /** `sanitize_filename`: every unsafe character becomes `_`, every other is kept. */
  function SanitizeFilename(session: string): (r: string)
    ensures |r| == |session|
    ensures forall k :: 0 <= k < |r| ==> r[k] !in UnsafeChars
    ensures forall k :: 0 <= k < |session| && session[k] !in UnsafeChars ==> r[k] == session[k]
    ensures forall k :: 0 <= k < |session| && session[k] in UnsafeChars ==> r[k] == '_'
  {
    seq(|session|, k requires 0 <= k < |session| => if session[k] in UnsafeChars then '_' else session[k])
  }

  /** A name that is already safe is its own file name, so sanitising twice changes nothing. */
  lemma SanitizeFixesSafeNames(session: string)
    ensures (forall k :: 0 <= k < |session| ==> session[k] !in UnsafeChars) ==> SanitizeFilename(session) == session
    ensures SanitizeFilename(SanitizeFilename(session)) == SanitizeFilename(session)
  {
  }

  /** Distinct sessions can share a hot file: `a:b` and `a_b` both map to `a_b`. */
  lemma SanitizeCollides()
    ensures "a:b" != "a_b" && SanitizeFilename("a:b") == SanitizeFilename("a_b")
  {
    assert SanitizeFilename("a:b") == "a_b";
    assert SanitizeFilename("a_b") == "a_b";
  }

  /** The sentinel stored when a committed reply carried no thought. */
  const NoThoughtFlag: string := "[NO_THOUGHT_FLAG]"

  /** What a read shows in place of the sentinel. */
  const NoThoughtMessage: string := "罗莎似乎并没有思考喵"

  datatype ThoughtRecord = ThoughtRecord(time: string, content: string)

  /** A hot file as the reader finds it: a parsed list, or content that does not parse. */
  datatype HotFile = Parsed(records: seq<ThoughtRecord>) | Corrupt

  /** Hot files by sanitised session name; cold archives by day. */
  datatype Archive = Archive(hot: map<string, HotFile>, cold: map<string, string>)

  /** Python's `t[:n]` for any integer `n`: a negative `n` drops that many elements from the end. */
  function PyPrefix<T>(t: seq<T>, n: int): (r: seq<T>)
    ensures |r| <= |t| && r == t[..|r|]
    ensures n >= 0 ==> |r| == (if n < |t| then n else |t|)
    ensures n < 0 ==> |r| == (if |t| + n > 0 then |t| + n else 0)
  {
    if n >= 0 then (if n < |t| then t[..n] else t)
    else if |t| + n > 0 then t[..|t| + n]
    else []
  }

  /**
   The hot-tier update: the new record goes in front and the list is cut to
   `history_limit` entries when longer. The result is always a prefix of the
   extended list; for a positive limit it holds the newest record first and
   `min(old length + 1, limit)` records in all.
   */
  function HotInsert(records: seq<ThoughtRecord>, rec: ThoughtRecord, limit: int): (r: seq<ThoughtRecord>)
    ensures |r| <= |records| + 1 && r == ([rec] + records)[..|r|]
    ensures limit >= 0 ==> |r| == (if |records| + 1 < limit then |records| + 1 else limit)
    ensures limit < 0 ==> |r| == (if |records| + 1 + limit > 0 then |records| + 1 + limit else 0)
    ensures limit >= 1 ==> r[0] == rec && r[1..] == records[..|r| - 1]
  {
    var t := [rec] + records;
    if |t| > limit then PyPrefix(t, limit) else t
  }

  /** The block appended to the day's cold archive. */
  function ColdBlock(time: string, session: string, content: string): string {
    "[" + time + "] [Session: " + session + "]\n" + content + "\n" + seq(40, _ => '-') + "\n"
  }

  /** The records a save starts from: the parsed list, or nothing when the file is missing or corrupt. */
  function StoredRecords(arch: Archive, name: string): seq<ThoughtRecord> {
    if name in arch.hot && arch.hot[name].Parsed? then arch.hot[name].records else []
  }

  /**
   `_async_save_thought`: nothing happens for an empty session or content;
   otherwise a block is appended to the day's cold archive and the record is
   inserted in front of the session's hot list. Nothing else changes.
   */
  function Save(arch: Archive, session: string, content: string, limit: int,
                day: string, time: string, stamp: string): (r: Archive)
    ensures session == [] || content == [] ==> r == arch
    ensures session != [] && content != [] ==>
      var name, file := SanitizeFilename(session), day + "_thought.log";
      && r.hot == arch.hot[name := Parsed(HotInsert(StoredRecords(arch, name), ThoughtRecord(stamp, content), limit))]
      && file in r.cold
      && r.cold[file] == (if file in arch.cold then arch.cold[file] else []) + ColdBlock(time, session, content)
      && forall f :: f != file ==> (f in r.cold <==> f in arch.cold) && (f in r.cold ==> r.cold[f] == arch.cold[f])
  {
    if session == [] || content == [] then arch
    else
      var name, file := SanitizeFilename(session), day + "_thought.log";
      var before := if file in arch.cold then arch.cold[file] else [];
      var hot := HotInsert(StoredRecords(arch, name), ThoughtRecord(stamp, content), limit);
      Archive(arch.hot[name := Parsed(hot)], arch.cold[file := before + ColdBlock(time, session, content)])
  }

  /** What a read shows for stored content: the fixed message in place of the sentinel. */
  function Shown(content: string): string {
    if content == NoThoughtFlag then NoThoughtMessage else content
  }

  /**
   `_async_read_thought`: the `index`-th newest record (1-based) of the
   session's hot list, shown; nothing for a missing or corrupt file or an
   index outside `1..length`.
   */
  function Read(arch: Archive, session: string, index: int): (r: Option<string>)
    ensures
      var name := SanitizeFilename(session);
      r.Some? <==> name in arch.hot && arch.hot[name].Parsed? && 1 <= index <= |arch.hot[name].records|
    ensures r.Some? ==> r.value == Shown(arch.hot[SanitizeFilename(session)].records[index - 1].content)
  {
    var name := SanitizeFilename(session);
    if name !in arch.hot then None
    else
      match arch.hot[name]
      case Corrupt => None
      case Parsed(records) =>
        var i := index - 1;
        if i < 0 || i >= |records| then None
        else
          var content := records[i].content;
          if content == NoThoughtFlag then Some(NoThoughtMessage) else Some(content)
  }

  /** The thought just saved is the one read back first. */
  lemma SaveThenRead(arch: Archive, session: string, content: string, limit: int, day: string, time: string, stamp: string)
    requires session != [] && content != [] && limit >= 1
    ensures Read(Save(arch, session, content, limit, day, time, stamp), session, 1) == Some(Shown(content))
  {
  }

  /** A save shifts the session's earlier thoughts one place back, as far as the limit keeps them. */
  lemma SaveShiftsReads(arch: Archive, session: string, content: string, limit: int, day: string, time: string, stamp: string, i: int)
    requires session != [] && content != [] && 1 <= i && i + 1 <= limit
    requires var name := SanitizeFilename(session); name in arch.hot ==> arch.hot[name].Parsed?
    ensures Read(Save(arch, session, content, limit, day, time, stamp), session, i + 1) == Read(arch, session, i)
  {
    var name := SanitizeFilename(session);
    var before := StoredRecords(arch, name);
    var after := HotInsert(before, ThoughtRecord(stamp, content), limit);
    if i <= |before| {
      assert after[i] == after[1..][i - 1] == before[i - 1];
    }
  }

  /** A save leaves the reads of every session with another file name as they were. */
  lemma SaveKeepsOtherSessions(arch: Archive, session: string, content: string, limit: int, day: string, time: string, stamp: string, other: string, i: int)
    requires SanitizeFilename(other) != SanitizeFilename(session)
    ensures Read(Save(arch, session, content, limit, day, time, stamp), other, i) == Read(arch, other, i)
  {
  }

  /** Every hot list is within the limit. */
  predicate WithinLimit(arch: Archive, limit: nat) {
    forall name :: name in arch.hot && arch.hot[name].Parsed? ==> |arch.hot[name].records| <= limit
  }

  /** Saves keep every hot list within a non-negative limit. */
  lemma SaveKeepsLimit(arch: Archive, session: string, content: string, limit: nat, day: string, time: string, stamp: string)
    requires WithinLimit(arch, limit)
    ensures WithinLimit(Save(arch, session, content, limit, day, time, stamp), limit)
  {
  }
}
