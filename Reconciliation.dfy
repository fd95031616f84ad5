/** The reconciliation engine of src/parser.ts (`parseSessionsFromProjects`)
    with the caches it owns: the metadata index (path to mtime and session
    id), the aggregate cache (session id to rows) and the result cache of
    the last full query. One pass runs against a filesystem snapshot. */
module Reconciliation {
  import opened Types
  import opened Parser
  import opened Watcher

  /** `limit` when the query gives none. */
  const DefaultLimit: int := 100

  /** SessionParseOptions: `limit`, `since` and `sessionId` may be absent. */
  datatype Query = Query(limit: Option<int>, since: Option<int>, sessionId: Option<string>)

  /** An entry of `sessionMetadataIndex`. */
  datatype Meta = Meta(mtimeMs: int, sessionId: string)

  /** An element of `sessionFiles` (ParsedSessionFile). */
  datatype SessionFile = SessionFile(sessionId: string, filePath: Path, mtimeMs: int)

  /** An entry of `sessionAggregateCache`. */
  datatype AggregateEntry = AggregateEntry(updatedAt: int, usageRows: seq<UsageRow>, lastAccessed: int)

  /** `!since || mtimeMs >= since`: an absent or zero `since` filters nothing. */
  predicate PassesSince(since: Option<int>, mtimeMs: int) {
    since.None? || since.value == 0 || mtimeMs >= since.value
  }

  /** `options.sessionId && sid !== options.sessionId`: a session filter is
      given and `sid` is another session. */
  predicate Mismatch(q: Query, sid: string) {
    Truthy(q.sessionId) && sid != q.sessionId.value
  }

  /** Every index entry names a session (a parsed record's truthy id). */
  predicate IndexValid(index: map<Path, Meta>) {
    forall p :: p in index ==> index[p].sessionId != ""
  }

  /** Every cached row carries its entry's `updatedAt` as `sessionUpdatedAt`. */
  predicate Coherent(aggregate: map<string, AggregateEntry>) {
    forall s :: s in aggregate ==>
      forall k :: 0 <= k < |aggregate[s].usageRows| ==>
        aggregate[s].usageRows[k].sessionUpdatedAt == aggregate[s].updatedAt
  }

  /** Most recently updated first. */
  predicate NonIncreasing(rows: seq<UsageRow>) {
    forall i, j :: 0 <= i < j < |rows| ==> rows[i].sessionUpdatedAt >= rows[j].sessionUpdatedAt
  }

  // ---------------------------------------------------------------------
  // Enumeration of candidate files (src/parser.ts:126-142)
  // ---------------------------------------------------------------------

  /** The session files among the entries of one chats directory, in
      listing order. */
  function DirCandidates(dir: ChatsDir, entries: seq<DirEntry>): (ps: seq<Path>)
    ensures |ps| <= |entries|
    ensures forall k :: 0 <= k < |ps| ==> ps[k].dir == dir && IsSessionFileName(ps[k].name)
    decreases |entries|
  {
    if entries == [] then []
    else
      var e := entries[|entries| - 1];
      DirCandidates(dir, entries[..|entries| - 1]) + (if IsSessionEntry(e) then [Join(dir, e.name)] else [])
  }

  lemma DirCandidatesStep(dir: ChatsDir, entries: seq<DirEntry>, j: nat)
    requires j < |entries|
    ensures DirCandidates(dir, entries[..j + 1]) == DirCandidates(dir, entries[..j])
      + (if IsSessionEntry(entries[j]) then [Join(dir, entries[j].name)] else [])
    ensures !IsSessionEntry(entries[j]) ==> DirCandidates(dir, entries[..j + 1]) == DirCandidates(dir, entries[..j])
  {
    assert entries[..j + 1][..j] == entries[..j];
    assert DirCandidates(dir, entries[..j]) + [] == DirCandidates(dir, entries[..j]);
  }

  /** The paths of `ps` as a set (`seenFilePaths`). */
  function PathSet(ps: seq<Path>): set<Path>
    decreases |ps|
  {
    if ps == [] then {} else PathSet(ps[..|ps| - 1]) + {ps[|ps| - 1]}
  }

  lemma {:induction false} PathSetMembers(ps: seq<Path>)
    ensures forall p :: p in PathSet(ps) <==> p in ps
    decreases |ps|
  {
    if ps != [] {
      var prefix := ps[..|ps| - 1];
      PathSetMembers(prefix);
      assert ps == prefix + [ps[|ps| - 1]];
    }
  }

  lemma {:induction false} PathSetConcat(a: seq<Path>, b: seq<Path>)
    ensures PathSet(a + b) == PathSet(a) + PathSet(b)
    decreases |b|
  {
    if b == [] {
      assert a + b == a;
    } else {
      var b' := b[..|b| - 1];
      assert a + b == (a + b') + [b[|b| - 1]];
      assert (a + b)[..|a + b| - 1] == a + b';
      PathSetConcat(a, b');
    }
  }

  lemma PathSetAppend(ps: seq<Path>, x: Path)
    ensures PathSet(ps + [x]) == PathSet(ps) + {x}
  {
    assert (ps + [x])[..|ps|] == ps;
  }

  /** The candidates of a directory are exactly its session entries. */
  lemma {:induction false} DirCandidatesMembers(dir: ChatsDir, entries: seq<DirEntry>)
    ensures forall p :: p in DirCandidates(dir, entries) <==>
      exists e :: e in entries && IsSessionEntry(e) && p == Join(dir, e.name)
    decreases |entries|
  {
    if entries != [] {
      var prefix := entries[..|entries| - 1];
      DirCandidatesMembers(dir, prefix);
      assert entries == prefix + [entries[|entries| - 1]];
    }
  }

  /** The candidates of every listable chats directory, directory by
      directory; a directory whose listing fails contributes none. */
  function AllCandidates(dirs: seq<ChatsDir>, fs: FileSystem): (ps: seq<Path>)
    ensures forall k :: 0 <= k < |ps| ==>
      ps[k].dir in dirs && ps[k].dir in fs.listings && IsSessionFileName(ps[k].name)
    decreases |dirs|
  {
    if dirs == [] then []
    else
      var d := dirs[|dirs| - 1];
      AllCandidates(dirs[..|dirs| - 1], fs)
        + (if d in fs.listings then DirCandidates(d, fs.listings[d]) else [])
  }

  /** `getChatsDirs` names each chats directory once, and `readdir` names
      each entry of a directory once. */
  predicate ListingsDistinct(fs: FileSystem) {
    && (forall i, j :: 0 <= i < j < |fs.chatsDirs| ==> fs.chatsDirs[i] != fs.chatsDirs[j])
    && (forall d :: d in fs.listings ==>
          forall i, j :: 0 <= i < j < |fs.listings[d]| ==> fs.listings[d][i].name != fs.listings[d][j].name)
  }

  /** Every session entry of a listable directory among `dirs` is a
      candidate. */
  lemma {:induction false} AllCandidatesComplete(dirs: seq<ChatsDir>, fs: FileSystem)
    ensures forall d, e :: d in dirs && d in fs.listings && e in fs.listings[d] && IsSessionEntry(e) ==>
      Join(d, e.name) in AllCandidates(dirs, fs)
    decreases |dirs|
  {
    if dirs != [] {
      var prefix := dirs[..|dirs| - 1];
      var last := dirs[|dirs| - 1];
      AllCandidatesComplete(prefix, fs);
      if last in fs.listings {
        DirCandidatesMembers(last, fs.listings[last]);
      }
      forall d, e | d in dirs && d in fs.listings && e in fs.listings[d] && IsSessionEntry(e)
        ensures Join(d, e.name) in AllCandidates(dirs, fs)
      {
        if d != last {
          assert d in prefix by {
            var k :| 0 <= k < |dirs| && dirs[k] == d;
            assert k < |dirs| - 1 && prefix[k] == d;
          }
        }
      }
    }
  }

  /** Two repeat-free sequences with no path in common concatenate to a
      repeat-free sequence. */
  lemma NoRepeatedPathsConcat(a: seq<Path>, b: seq<Path>)
    requires NoRepeatedPaths(a) && NoRepeatedPaths(b)
    requires forall i, j :: 0 <= i < |a| && 0 <= j < |b| ==> a[i] != b[j]
    ensures NoRepeatedPaths(a + b)
  {
    forall i, j | 0 <= i < j < |a + b| ensures (a + b)[i] != (a + b)[j] {
      if j < |a| {
        assert (a + b)[i] == a[i] && (a + b)[j] == a[j];
      } else if i < |a| {
        assert (a + b)[i] == a[i] && (a + b)[j] == b[j - |a|];
      } else {
        assert (a + b)[i] == b[i - |a|] && (a + b)[j] == b[j - |a|];
      }
    }
  }

  /** Entries with distinct names give distinct candidates. */
  lemma {:induction false} DirCandidatesDistinct(dir: ChatsDir, entries: seq<DirEntry>)
    requires forall i, j :: 0 <= i < j < |entries| ==> entries[i].name != entries[j].name
    ensures NoRepeatedPaths(DirCandidates(dir, entries))
    decreases |entries|
  {
    if entries != [] {
      var prefix := entries[..|entries| - 1];
      var e := entries[|entries| - 1];
      assert forall i, j :: 0 <= i < j < |prefix| ==> prefix[i].name != prefix[j].name by {
        assert forall i :: 0 <= i < |prefix| ==> prefix[i] == entries[i];
      }
      DirCandidatesDistinct(dir, prefix);
      var before := DirCandidates(dir, prefix);
      var added := if IsSessionEntry(e) then [Join(dir, e.name)] else [];
      if IsSessionEntry(e) {
        DirCandidatesMembers(dir, prefix);
        forall i | 0 <= i < |before| ensures before[i].name != e.name {
          assert before[i] in before;
          var e' :| e' in prefix && IsSessionEntry(e') && before[i] == Join(dir, e'.name);
          var k :| 0 <= k < |prefix| && prefix[k] == e';
          assert entries[k] == e';
        }
      }
      NoRepeatedPathsConcat(before, added);
    }
  }

  /** With distinct directories and distinct entry names, no path is a
      candidate twice. */
  lemma {:induction false} AllCandidatesDistinct(dirs: seq<ChatsDir>, fs: FileSystem)
    requires forall i, j :: 0 <= i < j < |dirs| ==> dirs[i] != dirs[j]
    requires forall d :: d in fs.listings ==>
      forall i, j :: 0 <= i < j < |fs.listings[d]| ==> fs.listings[d][i].name != fs.listings[d][j].name
    ensures NoRepeatedPaths(AllCandidates(dirs, fs))
    decreases |dirs|
  {
    if dirs != [] {
      var prefix := dirs[..|dirs| - 1];
      var d := dirs[|dirs| - 1];
      assert forall i, j :: 0 <= i < j < |prefix| ==> prefix[i] != prefix[j] by {
        assert forall i :: 0 <= i < |prefix| ==> prefix[i] == dirs[i];
      }
      AllCandidatesDistinct(prefix, fs);
      if d in fs.listings {
        var before := AllCandidates(prefix, fs);
        var added := DirCandidates(d, fs.listings[d]);
        DirCandidatesDistinct(d, fs.listings[d]);
        forall i, j | 0 <= i < |before| && 0 <= j < |added| ensures before[i] != added[j] {
          assert before[i].dir in prefix;
          assert d !in prefix by {
            forall k | 0 <= k < |prefix| ensures prefix[k] != d {
              assert prefix[k] == dirs[k];
            }
          }
        }
        NoRepeatedPathsConcat(before, added);
      } else {
        assert AllCandidates(dirs, fs) == AllCandidates(prefix, fs) + [];
      }
    }
  }

  // ---------------------------------------------------------------------
  // One candidate file (src/parser.ts:141-199)
  // ---------------------------------------------------------------------

  /** What examining one candidate leaves: the new index and, when the file
      is selected, its `sessionFiles` element. */
  datatype Outcome = Outcome(index: map<Path, Meta>, picked: Option<SessionFile>)

  /** The selected element for a file of session `sid` and time `mtimeMs`,
      when it passes both filters. */
  function Select(q: Query, sid: string, p: Path, mtimeMs: int): (r: Option<SessionFile>)
    ensures r.Some? <==> !Mismatch(q, sid) && PassesSince(q.since, mtimeMs)
    ensures r.Some? ==> r.value == SessionFile(sid, p, mtimeMs)
  {
    if Mismatch(q, sid) then None
    else if PassesSince(q.since, mtimeMs) then Some(SessionFile(sid, p, mtimeMs))
    else None
  }

  /** The examination of one candidate `p`, with the session filter of the
      index entry applied only where the stat is skipped (see Findings in
      README.md; `ExamineAsWritten` is the source's order).
      - not dirty, no forced sweep and indexed: the entry is trusted, no
        stat is made;
      - otherwise a failed stat drops the entry; a stat matching the
        indexed mtime reuses the indexed session id; otherwise the record is
        read, and a failed read or a falsy session id drops the entry, while
        a successful one writes a fresh entry. */
  function Examine(index: map<Path, Meta>, p: Path, dirty: set<Path>, full: bool,
                   q: Query, fs: FileSystem): (o: Outcome)
    // other paths are untouched
    ensures forall p' :: p' != p ==> (p' in o.index <==> p' in index)
    ensures forall p' :: p' != p && p' in index ==> o.index[p'] == index[p']
    // a selected file is what the index now says about it, and passes the filters
    ensures o.picked.Some? ==>
      p in o.index && o.picked.value == SessionFile(o.index[p].sessionId, p, o.index[p].mtimeMs)
    ensures o.picked.Some? ==> !Mismatch(q, o.picked.value.sessionId) && PassesSince(q.since, o.picked.value.mtimeMs)
    // the stat is skipped exactly for a clean, indexed path outside a forced sweep
    ensures p !in dirty && !full && p in index ==>
      o.index == index && (o.picked.Some? <==> !Mismatch(q, index[p].sessionId) && PassesSince(q.since, index[p].mtimeMs))
    // a stated path keeps an entry exactly when its file exists and either
    // has the indexed mtime or holds a record with a truthy session id, and
    // that entry has the file's current mtime
    ensures p in dirty || full || p !in index ==>
      (p in o.index <==>
         (p in fs.files
          && ((p in index && index[p].mtimeMs == fs.files[p].mtimeMs)
              || (fs.files[p].content.Some? && Truthy(fs.files[p].content.value.sessionId)))))
    ensures (p in dirty || full || p !in index) && p in o.index ==>
      p in fs.files && o.index[p].mtimeMs == fs.files[p].mtimeMs
    // a stated file with the indexed mtime keeps its entry as it was
    ensures (p in dirty || full || p !in index) && p in fs.files && p in index
            && index[p].mtimeMs == fs.files[p].mtimeMs ==>
      o.index == index
    // a stated file read afresh is indexed under its record's own session id
    ensures (p in dirty || full || p !in index) && p in fs.files
            && !(p in index && index[p].mtimeMs == fs.files[p].mtimeMs)
            && fs.files[p].content.Some? && Truthy(fs.files[p].content.value.sessionId) ==>
      o.index == index[p := Meta(fs.files[p].mtimeMs, fs.files[p].content.value.sessionId.value)]
    // a file is selected exactly when it keeps an entry that passes both filters
    ensures p in o.index ==>
      (o.picked.Some? <==> !Mismatch(q, o.index[p].sessionId) && PassesSince(q.since, o.index[p].mtimeMs))
    ensures p !in o.index ==> o.picked.None?
    // a new entry always names a session
    ensures p in o.index && (p !in index || o.index[p] != index[p]) ==> o.index[p].sessionId != ""
  {
    if p !in dirty && !full && p in index then
      Outcome(index, Select(q, index[p].sessionId, p, index[p].mtimeMs))
    else if p !in fs.files then
      Outcome(index - {p}, None)
    else
      var mtimeMs := fs.files[p].mtimeMs;
      if p in index && index[p].mtimeMs == mtimeMs then
        Outcome(index, Select(q, index[p].sessionId, p, mtimeMs))
      else
        var content := fs.files[p].content;
        if content.None? || !Truthy(content.value.sessionId) then
          Outcome(index - {p}, None)
        else
          var sid := content.value.sessionId.value;
          Outcome(index[p := Meta(mtimeMs, sid)], Select(q, sid, p, mtimeMs))
  }

  /** src/parser.ts:149 as written: an indexed path of another session is
      skipped before the dirty and forced checks, so it is never stated. */
  function ExamineAsWritten(index: map<Path, Meta>, p: Path, dirty: set<Path>, full: bool,
                            q: Query, fs: FileSystem): (o: Outcome)
    ensures p in index && Mismatch(q, index[p].sessionId) ==> o == Outcome(index, None)
    ensures !(p in index && Mismatch(q, index[p].sessionId)) ==> o == Examine(index, p, dirty, full, q, fs)
  {
    if p in index && Mismatch(q, index[p].sessionId) then Outcome(index, None)
    else Examine(index, p, dirty, full, q, fs)
  }

  /** The as-written order leaves a dirty path with a stale entry: the file
      changed (mtime 2), the watcher marked it dirty, a query for another
      session drains the dirty set, and the entry still says mtime 1. With
      the check moved after the dirty test, the same pass refreshes it. */
  lemma DirtyPathLeftStale()
    ensures var p := Join(ChatsDir("h"), "session-a.json");
      var index := map[p := Meta(1, "A")];
      var rec := ConversationRecord(Some("A"), None, None, None, []);
      var fs := FileSystem(true, [ChatsDir("h")], map[ChatsDir("h") := [DirEntry("session-a.json", true)]],
                           map[p := FileState(2, Some(rec))], {}, false);
      var q := Query(None, None, Some("B"));
      var stale := ExamineAsWritten(index, p, {p}, false, q, fs);
      var redone := Examine(index, p, {p}, false, q, fs);
      && p in stale.index && stale.index[p].mtimeMs == 1 && fs.files[p].mtimeMs == 2
      && p in redone.index && redone.index[p].mtimeMs == 2
      // the next unfiltered pass, with a drained dirty set, trusts the stale time
      && Examine(stale.index, p, {}, false, Query(None, None, None), fs).picked
         == Some(SessionFile("A", p, 1))
  {
  }

  // ---------------------------------------------------------------------
  // The sweep (src/parser.ts:128-201)
  // ---------------------------------------------------------------------

  /** The index and the selected files after examining `ps` in order. */
  datatype SweepState = SweepState(index: map<Path, Meta>, files: seq<SessionFile>)

  /** One examined candidate: the index it leaves, and the file appended
      when it is selected. */
  function Advance(st: SweepState, p: Path, dirty: set<Path>, full: bool, q: Query, fs: FileSystem): SweepState {
    var o := Examine(st.index, p, dirty, full, q, fs);
    SweepState(o.index, st.files + (if o.picked.Some? then [o.picked.value] else []))
  }

  /** src/parser.ts:128-201: the candidates `ps` examined in order. */
  function Sweep(index: map<Path, Meta>, ps: seq<Path>, dirty: set<Path>, full: bool,
                 q: Query, fs: FileSystem): (r: SweepState)
    // each candidate adds at most one file
    ensures |r.files| <= |ps|
    decreases |ps|
  {
    if ps == [] then SweepState(index, [])
    else Advance(Sweep(index, ps[..|ps| - 1], dirty, full, q, fs), ps[|ps| - 1], dirty, full, q, fs)
  }

  lemma SweepStep(index: map<Path, Meta>, ps: seq<Path>, p: Path, dirty: set<Path>, full: bool,
                  q: Query, fs: FileSystem)
    ensures Sweep(index, ps + [p], dirty, full, q, fs) == Advance(Sweep(index, ps, dirty, full, q, fs), p, dirty, full, q, fs)
  {
    assert (ps + [p])[..|ps|] == ps;
  }

  /** Files gathered earlier stay in front. */
  lemma AdvanceShift(i: map<Path, Meta>, before: seq<SessionFile>, files: seq<SessionFile>, p: Path,
                     dirty: set<Path>, full: bool, q: Query, fs: FileSystem)
    ensures Advance(SweepState(i, before + files), p, dirty, full, q, fs)
      == SweepState(Advance(SweepState(i, files), p, dirty, full, q, fs).index,
                    before + Advance(SweepState(i, files), p, dirty, full, q, fs).files)
  {
    var o := Examine(i, p, dirty, full, q, fs);
    ConcatAssoc(before, files, if o.picked.Some? then [o.picked.value] else []);
  }

  /** Each of `files` is one of `ps` and passes both filters of `q`. */
  predicate AllSelected(files: seq<SessionFile>, ps: seq<Path>, q: Query) {
    forall k :: 0 <= k < |files| ==>
      files[k].filePath in ps && !Mismatch(q, files[k].sessionId) && PassesSince(q.since, files[k].mtimeMs)
  }

  /** A sweep over `a + b` is the sweep over `b` from where the sweep over
      `a` left the index, its files appended. */
  lemma {:induction false} SweepConcat(index: map<Path, Meta>, a: seq<Path>, b: seq<Path>, dirty: set<Path>,
                                       full: bool, q: Query, fs: FileSystem)
    ensures var sa := Sweep(index, a, dirty, full, q, fs);
      var sb := Sweep(sa.index, b, dirty, full, q, fs);
      Sweep(index, a + b, dirty, full, q, fs) == SweepState(sb.index, sa.files + sb.files)
    decreases |b|
  {
    if b == [] {
      assert a + b == a;
    } else {
      var b' := b[..|b| - 1];
      var p := b[|b| - 1];
      assert a + b == (a + b') + [p];
      assert b' + [p] == b;
      SweepConcat(index, a, b', dirty, full, q, fs);
      SweepStep(index, a + b', p, dirty, full, q, fs);
      var sa := Sweep(index, a, dirty, full, q, fs);
      var sb' := Sweep(sa.index, b', dirty, full, q, fs);
      SweepStep(sa.index, b', p, dirty, full, q, fs);
      AdvanceShift(sb'.index, sa.files, sb'.files, p, dirty, full, q, fs);

    }
  }

  /** Every selected file is a candidate and passes both filters. */
  lemma {:induction false} SweepSelected(index: map<Path, Meta>, ps: seq<Path>, dirty: set<Path>, full: bool,
                                         q: Query, fs: FileSystem)
    ensures AllSelected(Sweep(index, ps, dirty, full, q, fs).files, ps, q)
    decreases |ps|
  {
    if ps != [] {
      var prefix := ps[..|ps| - 1];
      SweepSelected(index, prefix, dirty, full, q, fs);
      var st := Sweep(index, prefix, dirty, full, q, fs);
      var o := Examine(st.index, ps[|ps| - 1], dirty, full, q, fs);
      var files := Sweep(index, ps, dirty, full, q, fs).files;
      assert files == st.files + (if o.picked.Some? then [o.picked.value] else []);
      forall k | 0 <= k < |files|
        ensures files[k].filePath in ps && !Mismatch(q, files[k].sessionId) && PassesSince(q.since, files[k].mtimeMs)
      {
        if k < |st.files| {
          assert files[k] == st.files[k];
          assert st.files[k].filePath in prefix;
        } else {
          assert files[k] == o.picked.value;
        }
      }
    }
  }

  /** Paths that are not candidates keep their index entries. */
  lemma {:induction false} SweepUntouched(index: map<Path, Meta>, ps: seq<Path>, dirty: set<Path>, full: bool,
                                          q: Query, fs: FileSystem)
    ensures var r := Sweep(index, ps, dirty, full, q, fs).index;
      && (forall p :: p !in ps ==> (p in r <==> p in index))
      && (forall p :: p !in ps && p in index ==> r[p] == index[p])
    decreases |ps|
  {
    if ps != [] {
      var prefix := ps[..|ps| - 1];
      SweepUntouched(index, prefix, dirty, full, q, fs);
      assert forall p :: p in prefix ==> p in ps;
    }
  }

  /** Entries written by a sweep name sessions. */
  lemma {:induction false} SweepIndexValid(index: map<Path, Meta>, ps: seq<Path>, dirty: set<Path>, full: bool,
                                           q: Query, fs: FileSystem)
    requires IndexValid(index)
    ensures IndexValid(Sweep(index, ps, dirty, full, q, fs).index)
    decreases |ps|
  {
    if ps != [] {
      SweepIndexValid(index, ps[..|ps| - 1], dirty, full, q, fs);
    }
  }

  /** After the sweep, the entry of every dirty candidate (of every
      candidate, in a forced sweep) carries the file's current mtime. */
  lemma {:induction false} SweepRefreshes(index: map<Path, Meta>, ps: seq<Path>, dirty: set<Path>, full: bool,
                                          q: Query, fs: FileSystem)
    ensures var r := Sweep(index, ps, dirty, full, q, fs).index;
      forall p :: p in ps && (p in dirty || full) && p in r ==>
        p in fs.files && r[p].mtimeMs == fs.files[p].mtimeMs
    decreases |ps|
  {
    if ps != [] {
      var prefix := ps[..|ps| - 1];
      SweepRefreshes(index, prefix, dirty, full, q, fs);
      assert forall p :: p in ps ==> p in prefix || p == ps[|ps| - 1];
    }
  }

  predicate NoRepeatedPaths(ps: seq<Path>) {
    forall i, j :: 0 <= i < j < |ps| ==> ps[i] != ps[j]
  }

  /** The files a sweep selects when nothing is indexed yet: every candidate
      holding a record with a truthy session id that passes the filters,
      once, in candidate order. */
  function Discovered(ps: seq<Path>, q: Query, fs: FileSystem): seq<SessionFile>
    decreases |ps|
  {
    if ps == [] then []
    else
      var p := ps[|ps| - 1];
      Discovered(ps[..|ps| - 1], q, fs)
        + (if p in fs.files && fs.files[p].content.Some? && Truthy(fs.files[p].content.value.sessionId)
           && Select(q, fs.files[p].content.value.sessionId.value, p, fs.files[p].mtimeMs).Some?
           then [Select(q, fs.files[p].content.value.sessionId.value, p, fs.files[p].mtimeMs).value]
           else [])
  }

  /** With no prior entries for the candidates and no candidate twice, the
      sweep discovers every session file exactly once, whatever the dirty
      set and the force flag say. */
  lemma {:induction false} SweepDiscovers(index: map<Path, Meta>, ps: seq<Path>, dirty: set<Path>, full: bool,
                                          q: Query, fs: FileSystem)
    requires NoRepeatedPaths(ps)
    requires forall p :: p in ps ==> p !in index
    ensures Sweep(index, ps, dirty, full, q, fs).files == Discovered(ps, q, fs)
    decreases |ps|
  {
    if ps != [] {
      var prefix := ps[..|ps| - 1];
      var p := ps[|ps| - 1];
      assert forall x :: x in prefix ==> x in ps;
      assert p !in prefix by {
        forall j | 0 <= j < |prefix| ensures prefix[j] != p {
          assert prefix[j] == ps[j];
        }
      }
      assert NoRepeatedPaths(prefix) by {
        forall i, j | 0 <= i < j < |prefix| ensures prefix[i] != prefix[j] {
          assert prefix[i] == ps[i] && prefix[j] == ps[j];
        }
      }
      SweepDiscovers(index, prefix, dirty, full, q, fs);
      SweepUntouched(index, prefix, dirty, full, q, fs);
    }
  }

  /** The file at `p` holds a record with a truthy session id that passes
      the filters of `q`. */
  predicate Discoverable(p: Path, q: Query, fs: FileSystem) {
    && p in fs.files && fs.files[p].content.Some? && Truthy(fs.files[p].content.value.sessionId)
    && Select(q, fs.files[p].content.value.sessionId.value, p, fs.files[p].mtimeMs).Some?
  }

  /** The selected element for a discoverable file. */
  function DiscoveredFile(p: Path, fs: FileSystem): SessionFile
    requires p in fs.files && fs.files[p].content.Some? && Truthy(fs.files[p].content.value.sessionId)
  {
    SessionFile(fs.files[p].content.value.sessionId.value, p, fs.files[p].mtimeMs)
  }

  /** Every discoverable candidate is among the discovered files. */
  lemma {:induction false} DiscoveredComplete(ps: seq<Path>, q: Query, fs: FileSystem, p: Path)
    requires p in ps && Discoverable(p, q, fs)
    ensures DiscoveredFile(p, fs) in Discovered(ps, q, fs)
    decreases |ps|
  {
    var prefix := ps[..|ps| - 1];
    if p != ps[|ps| - 1] {
      assert p in prefix by {
        var k :| 0 <= k < |ps| && ps[k] == p;
        assert k < |ps| - 1 && prefix[k] == p;
      }
      DiscoveredComplete(prefix, q, fs, p);
    }
  }

  /** A pass over every chats directory with nothing indexed for the
      candidates selects each session file of a listed directory that
      holds a record with a truthy session id and passes the filters,
      exactly once, in listing order. */
  lemma PassDiscovers(index: map<Path, Meta>, dirty: set<Path>, full: bool, q: Query, fs: FileSystem)
    requires ListingsDistinct(fs)
    requires forall p :: p in AllCandidates(fs.chatsDirs, fs) ==> p !in index
    ensures var ps := AllCandidates(fs.chatsDirs, fs);
      Sweep(index, ps, dirty, full, q, fs).files == Discovered(ps, q, fs)
    ensures forall d, e | d in fs.chatsDirs && d in fs.listings && e in fs.listings[d] && IsSessionEntry(e)
                          && Discoverable(Join(d, e.name), q, fs) ::
      DiscoveredFile(Join(d, e.name), fs) in Sweep(index, AllCandidates(fs.chatsDirs, fs), dirty, full, q, fs).files
  {
    var ps := AllCandidates(fs.chatsDirs, fs);
    AllCandidatesDistinct(fs.chatsDirs, fs);
    SweepDiscovers(index, ps, dirty, full, q, fs);
    AllCandidatesComplete(fs.chatsDirs, fs);
    forall d, e | d in fs.chatsDirs && d in fs.listings && e in fs.listings[d] && IsSessionEntry(e)
                  && Discoverable(Join(d, e.name), q, fs)
      ensures DiscoveredFile(Join(d, e.name), fs) in Discovered(ps, q, fs)
    {
      DiscoveredComplete(ps, q, fs, Join(d, e.name));
    }
  }

  /** `m` restricted to the paths in `seen` (src/parser.ts:203-207). */
  function Retain(m: map<Path, Meta>, seen: set<Path>): (r: map<Path, Meta>)
    ensures r.Keys == m.Keys * seen
    ensures forall p :: p in r ==> r[p] == m[p]
  {
    map p | p in m.Keys && p in seen :: m[p]
  }

  // ---------------------------------------------------------------------
  // Ordering (src/parser.ts:209)
  // ---------------------------------------------------------------------

  predicate SortedDesc(s: seq<SessionFile>) {
    forall i, j :: 0 <= i < j < |s| ==> s[i].mtimeMs >= s[j].mtimeMs
  }

  /** Places `f` after every element of `s` at least as recent as it. */
  function Insert(s: seq<SessionFile>, f: SessionFile): (r: seq<SessionFile>)
    ensures multiset(r) == multiset(s) + multiset{f}
    decreases |s|
  {
    if s == [] then [f]
    else if s[0].mtimeMs >= f.mtimeMs then
      assert s == [s[0]] + s[1..];
      [s[0]] + Insert(s[1..], f)
    else
      [f] + s
  }

  lemma SortedTail(s: seq<SessionFile>)
    requires SortedDesc(s) && s != []
    ensures SortedDesc(s[1..])
    ensures forall i :: 0 <= i < |s| ==> s[i].mtimeMs <= s[0].mtimeMs
  {
    forall i, j | 0 <= i < j < |s[1..]| ensures s[1..][i].mtimeMs >= s[1..][j].mtimeMs {
      assert s[1..][i] == s[i + 1] && s[1..][j] == s[j + 1];
    }
  }

  /** Every element of `Insert(s, f)` is `f` or an element of `s`. */
  lemma InsertFrom(s: seq<SessionFile>, f: SessionFile, x: SessionFile)
    requires x in Insert(s, f)
    ensures x == f || x in s
  {
    assert x in multiset(Insert(s, f));
  }

  lemma {:induction false} InsertSorted(s: seq<SessionFile>, f: SessionFile)
    requires SortedDesc(s)
    ensures SortedDesc(Insert(s, f))
    decreases |s|
  {
    if s != [] && s[0].mtimeMs >= f.mtimeMs {
      SortedTail(s);
      var t := Insert(s[1..], f);
      InsertSorted(s[1..], f);
      forall j | 0 <= j < |t| ensures s[0].mtimeMs >= t[j].mtimeMs {
        InsertFrom(s[1..], f, t[j]);
      }
      var r := [s[0]] + t;
      assert r == Insert(s, f);
      forall i, j | 0 <= i < j < |r| ensures r[i].mtimeMs >= r[j].mtimeMs {
        assert r[j] == t[j - 1];
        if i > 0 {
          assert r[i] == t[i - 1];
        }
      }
    }
  }

  /** `Array.prototype.sort` with comparator `b.mtimeMs - a.mtimeMs`: a
      stable sort, most recent first; modelled as insertion sort. */
  function SortByMtime(s: seq<SessionFile>): (r: seq<SessionFile>)
    ensures multiset(r) == multiset(s)
    ensures SortedDesc(r)
    decreases |s|
  {
    if s == [] then []
    else
      var prefix := s[..|s| - 1];
      assert s == prefix + [s[|s| - 1]];
      InsertSorted(SortByMtime(prefix), s[|s| - 1]);
      Insert(SortByMtime(prefix), s[|s| - 1])
  }

  /** The elements of `s` with mtime `t`, in order. */
  function WithMtime(s: seq<SessionFile>, t: int): seq<SessionFile>
    decreases |s|
  {
    if s == [] then []
    else (if s[0].mtimeMs == t then [s[0]] else []) + WithMtime(s[1..], t)
  }

  lemma {:induction false} WithMtimeConcat(a: seq<SessionFile>, b: seq<SessionFile>, t: int)
    ensures WithMtime(a + b, t) == WithMtime(a, t) + WithMtime(b, t)
    decreases |a|
  {
    if a != [] {
      assert (a + b)[0] == a[0];
      assert (a + b)[1..] == a[1..] + b;
      WithMtimeConcat(a[1..], b, t);
    } else {
      assert a + b == b;
    }
  }

  lemma {:induction false} WithMtimeNone(s: seq<SessionFile>, t: int)
    requires forall i :: 0 <= i < |s| ==> s[i].mtimeMs < t
    ensures WithMtime(s, t) == []
    decreases |s|
  {
    if s != [] {
      WithMtimeNone(s[1..], t);
    }
  }

  lemma ConcatAssoc(a: seq<SessionFile>, b: seq<SessionFile>, c: seq<SessionFile>)
    ensures a + (b + c) == (a + b) + c
  {
  }

  lemma WithMtimeCons(x: SessionFile, s: seq<SessionFile>, t: int)
    ensures WithMtime([x] + s, t) == (if x.mtimeMs == t then [x] else []) + WithMtime(s, t)
  {
    assert ([x] + s)[0] == x && ([x] + s)[1..] == s;
  }

  lemma {:induction false} InsertStable(s: seq<SessionFile>, f: SessionFile, t: int)
    requires SortedDesc(s)
    ensures WithMtime(Insert(s, f), t) == WithMtime(s, t) + (if f.mtimeMs == t then [f] else [])
    decreases |s|
  {
    var fm := if f.mtimeMs == t then [f] else [];
    if s == [] {
      assert Insert(s, f) == [f] + [];
      WithMtimeCons(f, [], t);
    } else {
      SortedTail(s);
      assert s == [s[0]] + s[1..];
      WithMtimeCons(s[0], s[1..], t);
      if s[0].mtimeMs >= f.mtimeMs {
        var rest := Insert(s[1..], f);
        InsertStable(s[1..], f, t);
        assert Insert(s, f) == [s[0]] + rest;
        WithMtimeCons(s[0], rest, t);
        ConcatAssoc(if s[0].mtimeMs == t then [s[0]] else [], WithMtime(s[1..], t), fm);
      } else {
        InsertStableFront(s, f, t);
      }
    }
  }

  /** `f` newer than every element of `s` goes first. */
  lemma InsertStableFront(s: seq<SessionFile>, f: SessionFile, t: int)
    requires s != [] && f.mtimeMs > s[0].mtimeMs
    requires forall i :: 0 <= i < |s| ==> s[i].mtimeMs <= s[0].mtimeMs
    ensures WithMtime(Insert(s, f), t) == WithMtime(s, t) + (if f.mtimeMs == t then [f] else [])
  {
    assert Insert(s, f) == [f] + s;
    WithMtimeCons(f, s, t);
    if f.mtimeMs == t {
      WithMtimeNone(s, t);
    }
  }

  /** The sort is stable: files with the same mtime keep their order. */
  lemma {:induction false} SortStable(s: seq<SessionFile>, t: int)
    ensures WithMtime(SortByMtime(s), t) == WithMtime(s, t)
    decreases |s|
  {
    if s != [] {
      var prefix := s[..|s| - 1];
      var x := s[|s| - 1];
      var xm := if x.mtimeMs == t then [x] else [];
      assert s == prefix + [x];
      assert [x][1..] == [];
      assert WithMtime([x], t) == xm + WithMtime([], t) == xm;
      WithMtimeConcat(prefix, [x], t);
      assert WithMtime(s, t) == WithMtime(prefix, t) + xm;
      var sorted := SortByMtime(prefix);
      assert SortByMtime(s) == Insert(sorted, x);
      SortStable(prefix, t);
      InsertStable(sorted, x, t);
    }
  }

  // ---------------------------------------------------------------------
  // Assembly of the output (src/parser.ts:211-238)
  // ---------------------------------------------------------------------

  /** The aggregate cache and the rows gathered so far. */
  datatype Assembly = Assembly(aggregate: map<string, AggregateEntry>, rows: seq<UsageRow>)

  /** One selected file: its session's cached rows when they were computed
      for exactly this mtime (and the entry's access time becomes `now`);
      otherwise the rows of its record, written back to the cache; nothing
      when the record cannot be read. */
  function AssembleStep(a: Assembly, f: SessionFile, now: int, fs: FileSystem, parse: DateParser): (r: Assembly)
    // rows are only appended, and every appended row carries the file's mtime
    ensures |a.rows| <= |r.rows| && r.rows[..|a.rows|] == a.rows
    ensures Coherent(a.aggregate) ==>
      Coherent(r.aggregate)
      && forall k :: |a.rows| <= k < |r.rows| ==> r.rows[k].sessionUpdatedAt == f.mtimeMs
    // cached rows are reused exactly on an mtime match
    ensures f.sessionId in a.aggregate && a.aggregate[f.sessionId].updatedAt == f.mtimeMs ==>
      r.rows == a.rows + a.aggregate[f.sessionId].usageRows
    ensures !(f.sessionId in a.aggregate && a.aggregate[f.sessionId].updatedAt == f.mtimeMs) && Readable(fs, f.filePath) ==>
      r.rows == a.rows + SessionRows(RecordAt(fs, f.filePath), f.mtimeMs, parse)
    ensures !(f.sessionId in a.aggregate && a.aggregate[f.sessionId].updatedAt == f.mtimeMs) && !Readable(fs, f.filePath) ==>
      r == a
    // a hit only bumps the entry's access time
    ensures f.sessionId in a.aggregate && a.aggregate[f.sessionId].updatedAt == f.mtimeMs ==>
      r.aggregate == a.aggregate[f.sessionId := a.aggregate[f.sessionId].(lastAccessed := now)]
    // a readable miss writes the record's rows back under this mtime
    ensures !(f.sessionId in a.aggregate && a.aggregate[f.sessionId].updatedAt == f.mtimeMs) && Readable(fs, f.filePath) ==>
      r.aggregate == a.aggregate[f.sessionId := AggregateEntry(f.mtimeMs, SessionRows(RecordAt(fs, f.filePath), f.mtimeMs, parse), now)]
    // afterwards the session's entry, if touched, is for this mtime and was accessed now
    ensures r != a ==>
      f.sessionId in r.aggregate && r.aggregate[f.sessionId].updatedAt == f.mtimeMs
      && r.aggregate[f.sessionId].lastAccessed == now
    // other sessions' entries are untouched
    ensures r.aggregate.Keys <= a.aggregate.Keys + {f.sessionId}
    ensures forall s :: s != f.sessionId && s in a.aggregate ==> s in r.aggregate && r.aggregate[s] == a.aggregate[s]
  {
    var sid := f.sessionId;
    if sid in a.aggregate && a.aggregate[sid].updatedAt == f.mtimeMs then
      var e := a.aggregate[sid];
      Assembly(a.aggregate[sid := e.(lastAccessed := now)], a.rows + e.usageRows)
    else if !Readable(fs, f.filePath) then
      a
    else
      var rows := SessionRows(RecordAt(fs, f.filePath), f.mtimeMs, parse);
      Assembly(a.aggregate[sid := AggregateEntry(f.mtimeMs, rows, now)], a.rows + rows)
  }

  /** src/parser.ts:211-238: `AssembleStep` over the sorted files in order.
      No cache entry is ever dropped. */
  function Assemble(aggregate: map<string, AggregateEntry>, files: seq<SessionFile>,
                    now: int, fs: FileSystem, parse: DateParser): (r: Assembly)
    ensures aggregate.Keys <= r.aggregate.Keys
    decreases |files|
  {
    if files == [] then Assembly(aggregate, [])
    else AssembleStep(Assemble(aggregate, files[..|files| - 1], now, fs, parse), files[|files| - 1], now, fs, parse)
  }

  /** Assembly only adds or rewrites the entries of the selected files'
      sessions; every other session's entry is left as it was. */
  lemma {:induction false} AssembleTouches(aggregate: map<string, AggregateEntry>, files: seq<SessionFile>,
                                           now: int, fs: FileSystem, parse: DateParser)
    ensures var r := Assemble(aggregate, files, now, fs, parse);
      forall s :: s in r.aggregate ==> s in aggregate || exists k :: 0 <= k < |files| && files[k].sessionId == s
    ensures var r := Assemble(aggregate, files, now, fs, parse);
      forall s :: s in aggregate && (forall k :: 0 <= k < |files| ==> files[k].sessionId != s) ==>
        s in r.aggregate && r.aggregate[s] == aggregate[s]
    decreases |files|
  {
    if files != [] {
      var prefix := files[..|files| - 1];
      var f := files[|files| - 1];
      AssembleTouches(aggregate, prefix, now, fs, parse);
      var a := Assemble(aggregate, prefix, now, fs, parse);
      var r := AssembleStep(a, f, now, fs, parse);
      assert Assemble(aggregate, files, now, fs, parse) == r;
      forall s | s in r.aggregate
        ensures s in aggregate || exists k :: 0 <= k < |files| && files[k].sessionId == s
      {
        if s !in a.aggregate {
          assert files[|files| - 1].sessionId == s;
        } else if s !in aggregate {
          var k :| 0 <= k < |prefix| && prefix[k].sessionId == s;
          assert files[k] == prefix[k];
        }
      }
      forall s | s in aggregate && (forall k :: 0 <= k < |files| ==> files[k].sessionId != s)
        ensures s in r.aggregate && r.aggregate[s] == aggregate[s]
      {
        assert forall k :: 0 <= k < |prefix| ==> prefix[k] == files[k];
        assert f.sessionId != s;
      }
    }
  }

  lemma AssembleExtend(aggregate: map<string, AggregateEntry>, files: seq<SessionFile>, f: SessionFile,
                       now: int, fs: FileSystem, parse: DateParser)
    ensures Assemble(aggregate, files + [f], now, fs, parse)
      == AssembleStep(Assemble(aggregate, files, now, fs, parse), f, now, fs, parse)
  {
    assert (files + [f])[..|files|] == files;
  }

  /** Rows of files sorted most recent first come out most recently updated
      first, each between the oldest and the newest file's mtime, and the
      aggregate cache stays coherent. */
  lemma {:induction false} AssembleOrdered(aggregate: map<string, AggregateEntry>, files: seq<SessionFile>,
                                           now: int, fs: FileSystem, parse: DateParser)
    requires Coherent(aggregate)
    requires SortedDesc(files)
    ensures var a := Assemble(aggregate, files, now, fs, parse);
      && Coherent(a.aggregate)
      && NonIncreasing(a.rows)
      && forall k :: 0 <= k < |a.rows| ==>
           files[|files| - 1].mtimeMs <= a.rows[k].sessionUpdatedAt <= files[0].mtimeMs
    decreases |files|
  {
    if files != [] {
      var prefix := files[..|files| - 1];
      var f := files[|files| - 1];
      assert SortedDesc(prefix);
      AssembleOrdered(aggregate, prefix, now, fs, parse);
      var a0 := Assemble(aggregate, prefix, now, fs, parse);
      var a := AssembleStep(a0, f, now, fs, parse);
      assert forall k :: 0 <= k < |a0.rows| ==> a.rows[k] == a0.rows[k];
      if prefix != [] {
        assert prefix[0] == files[0] && prefix[|prefix| - 1].mtimeMs >= f.mtimeMs;
      }
      assert f.mtimeMs <= files[0].mtimeMs;
    }
  }

  // The two-file scenario: `session-a.json` (mtime 1, message `m1` with no
  // cached tokens) and `session-b.json` (mtime 2, message `m2` with two
  // cached tokens) in one chats directory, nothing indexed or cached.
  const ScenarioDir := ChatsDir("h")
  const ScenarioA := Join(ScenarioDir, "session-a.json")
  const ScenarioB := Join(ScenarioDir, "session-b.json")
  const ScenarioRecA := ConversationRecord(Some("A"), None, None, None, [Qualifying("m1", 10, 5, 0)])
  const ScenarioRecB := ConversationRecord(Some("B"), None, None, None, [Qualifying("m2", 3, 1, 2)])
  const ScenarioFs := FileSystem(
    true, [ScenarioDir],
    map[ScenarioDir := [DirEntry("session-a.json", true), DirEntry("session-b.json", true)]],
    map[ScenarioA := FileState(1, Some(ScenarioRecA)), ScenarioB := FileState(2, Some(ScenarioRecB))],
    {ScenarioDir}, true)

  lemma ScenarioCandidates()
    ensures AllCandidates(ScenarioFs.chatsDirs, ScenarioFs) == [ScenarioA, ScenarioB]
  {
    var entries := ScenarioFs.listings[ScenarioDir];
    assert "session-" <= "session-a.json" && "session-" <= "session-b.json";
    assert entries[..1] == [entries[0]] && [entries[0]][..0] == [];
    assert DirCandidates(ScenarioDir, entries) == [ScenarioA, ScenarioB];
    assert [ScenarioDir][..0] == [];
  }

  /** Two unindexed files with readable records are both selected by an
      unfiltered sweep, in candidate order. */
  lemma SweepTwoFresh(a: Path, b: Path, recA: ConversationRecord, recB: ConversationRecord,
                      q: Query, fs: FileSystem)
    requires a != b && q == Query(None, None, None)
    requires a in fs.files && fs.files[a].content == Some(recA) && Truthy(recA.sessionId)
    requires b in fs.files && fs.files[b].content == Some(recB) && Truthy(recB.sessionId)
    ensures Sweep(map[], [a, b], {}, false, q, fs).files
      == [SessionFile(recA.sessionId.value, a, fs.files[a].mtimeMs),
          SessionFile(recB.sessionId.value, b, fs.files[b].mtimeMs)]
  {
    SweepStep(map[], [], a, {}, false, q, fs);
    assert [] + [a] == [a];
    var s1 := Sweep(map[], [a], {}, false, q, fs);
    assert s1.index.Keys == {a};
    SweepStep(map[], [a], b, {}, false, q, fs);
    assert [a] + [b] == [a, b];
  }

  lemma ScenarioSort(fa: SessionFile, fb: SessionFile)
    requires fa.mtimeMs == 1 && fb.mtimeMs == 2
    ensures SortByMtime([fa, fb]) == [fb, fa]
  {
    assert [fa, fb][..1] == [fa] && [fa][..0] == [];
  }

  /** Two files of different sessions, nothing cached: the rows of the
      first file's record, then those of the second's. */
  lemma AssembleTwoFresh(f1: SessionFile, f2: SessionFile, rec1: ConversationRecord, rec2: ConversationRecord,
                         now: int, fs: FileSystem, parse: DateParser)
    requires f1.sessionId != f2.sessionId
    requires Readable(fs, f1.filePath) && RecordAt(fs, f1.filePath) == rec1
    requires Readable(fs, f2.filePath) && RecordAt(fs, f2.filePath) == rec2
    ensures Assemble(map[], [f1, f2], now, fs, parse).rows
      == SessionRows(rec1, f1.mtimeMs, parse) + SessionRows(rec2, f2.mtimeMs, parse)
  {
    AssembleExtend(map[], [], f1, now, fs, parse);
    assert [] + [f1] == [f1];
    var a1 := Assemble(map[], [f1], now, fs, parse);
    assert a1.aggregate.Keys <= {f1.sessionId};
    AssembleExtend(map[], [f1], f2, now, fs, parse);
    assert [f1] + [f2] == [f1, f2];
  }

  /** The rows of a record whose only message qualifies. */
  lemma ScenarioRows(rec: ConversationRecord, mtimeMs: int, parse: DateParser)
    requires |rec.messages| == 1 && IsTokenBearing(rec.messages[0])
    ensures var rows := SessionRows(rec, mtimeMs, parse);
      && |rows| == 1 && rows[0].sessionId == rec.sessionId
      && (rows[0].tokens.cacheRead.Some? <==> rec.messages[0].tokens.value.cached.value > 0)
      && (rows[0].tokens.cacheRead.Some? ==> rows[0].tokens.cacheRead.value == rec.messages[0].tokens.value.cached.value)
  {
    OneMessageRows(rec, mtimeMs, parse);
  }

  lemma ScenarioPassRows(fs: FileSystem, q: Query, now: int, parse: DateParser)
    requires fs == ScenarioFs && q == Query(None, None, None)
    ensures var sweep := Sweep(map[], AllCandidates(fs.chatsDirs, fs), {}, false, q, fs);
      Assemble(map[], SortByMtime(sweep.files), now, fs, parse).rows
        == SessionRows(ScenarioRecB, 2, parse) + SessionRows(ScenarioRecA, 1, parse)
  {
    var fa := SessionFile("A", ScenarioA, 1);
    var fb := SessionFile("B", ScenarioB, 2);
    var ps := AllCandidates(fs.chatsDirs, fs);
    assert ps == [ScenarioA, ScenarioB] by { ScenarioCandidates(); }
    assert ScenarioA != ScenarioB;
    var files := Sweep(map[], ps, {}, false, q, fs).files;
    assert files == [fa, fb] by { SweepTwoFresh(ScenarioA, ScenarioB, ScenarioRecA, ScenarioRecB, q, fs); }
    assert SortByMtime(files) == [fb, fa] by { ScenarioSort(fa, fb); }
    AssembleTwoFresh(fb, fa, ScenarioRecB, ScenarioRecA, now, fs, parse);
  }

  /** The first two rows of a pass that yields the rows of `recB` then
      those of `recA`, each holding one qualifying message. */
  lemma PairOfRows(rows: seq<UsageRow>, recB: ConversationRecord, mB: int, recA: ConversationRecord, mA: int,
                   parse: DateParser)
    requires rows == SessionRows(recB, mB, parse) + SessionRows(recA, mA, parse)
    requires |recB.messages| == 1 && IsTokenBearing(recB.messages[0])
    requires |recA.messages| == 1 && IsTokenBearing(recA.messages[0])
    ensures |rows| == 2 && rows[0].sessionId == recB.sessionId && rows[1].sessionId == recA.sessionId
    ensures rows[0].tokens.cacheRead.Some? <==> recB.messages[0].tokens.value.cached.value > 0
    ensures rows[0].tokens.cacheRead.Some? ==> rows[0].tokens.cacheRead.value == recB.messages[0].tokens.value.cached.value
    ensures rows[1].tokens.cacheRead.Some? <==> recA.messages[0].tokens.value.cached.value > 0
  {
    ScenarioRows(recB, mB, parse);
    ScenarioRows(recA, mA, parse);
    assert rows[0] == SessionRows(recB, mB, parse)[0];
    assert rows[1] == SessionRows(recA, mA, parse)[0];
  }

  /** The pass over the two-file scenario (`ScenarioFs`) with an unfiltered
      query yields two rows, `session-b`'s first, and only it carries a
      cache-read count. */
  lemma TwoFileScenario(fs: FileSystem, q: Query, now: int, parse: DateParser)
    requires fs == ScenarioFs && q == Query(None, None, None)
    ensures var sweep := Sweep(map[], AllCandidates(fs.chatsDirs, fs), {}, false, q, fs);
      var rows := Assemble(map[], SortByMtime(sweep.files), now, fs, parse).rows;
      && |rows| == 2
      && rows[0].sessionId == Some("B") && rows[0].tokens.cacheRead == Some(2)
      && rows[1].sessionId == Some("A") && rows[1].tokens.cacheRead.None?
  {
    ScenarioPassRows(fs, q, now, parse);
    var sweep := Sweep(map[], AllCandidates(fs.chatsDirs, fs), {}, false, q, fs);
    PairOfRows(Assemble(map[], SortByMtime(sweep.files), now, fs, parse).rows, ScenarioRecB, 2, ScenarioRecA, 1, parse);
  }

  /** A record whose only message qualifies yields that message's row. */
  lemma OneMessageRows(rec: ConversationRecord, mtimeMs: int, parse: DateParser)
    requires |rec.messages| == 1 && IsTokenBearing(rec.messages[0])
    ensures SessionRows(rec, mtimeMs, parse) == [MakeRow(rec, mtimeMs, parse, rec.messages[0])]
  {
    var msgs := rec.messages;
    var x := msgs[0].id.value;
    assert msgs[..0] == [];
    assert QualifyingIds(msgs) == [x];
    assert [x][..0] == [];
    assert Distinct(QualifyingIds(msgs)) == [x];
    assert LastIndex(msgs, x) == 0;
    var rows := SessionRows(rec, mtimeMs, parse);
    assert |rows| == 1 && rows[0] == MakeRow(rec, mtimeMs, parse, msgs[0]);
  }

  /** What a pass leaves (`index`, `aggregate`, `rows`), relative to the
      state it started from: the index, the aggregate cache, the dirty set
      and the force flag. */
  ghost predicate PassOutcome(q: Query, fs: FileSystem, now: int, evict: set<string>, parse: DateParser,
                              index0: map<Path, Meta>, aggregate0: map<string, AggregateEntry>,
                              dirty0: set<Path>, full0: bool,
                              index: map<Path, Meta>, aggregate: map<string, AggregateEntry>, rows: seq<UsageRow>)
  {
    var ps := AllCandidates(fs.chatsDirs, fs);
    var sweep := Sweep(index0, ps, dirty0, full0, q, fs);
    var assembly := Assemble(aggregate0, SortByMtime(sweep.files), now, fs, parse);
    && index == Retain(sweep.index, PathSet(ps))
    && rows == assembly.rows
    && aggregate == assembly.aggregate - evict
  }

  /** The guarantees of a pass: rows most recently updated first, index
      entries only for candidates, and fresh entries for every path the
      pass had to re-examine. */
  ghost predicate PassGuarantees(fs: FileSystem, dirty0: set<Path>, full0: bool,
                                 index: map<Path, Meta>, rows: seq<UsageRow>)
  {
    && NonIncreasing(rows)
    && (forall p :: p in index ==> p in AllCandidates(fs.chatsDirs, fs))
    && (forall p :: p in index && (p in dirty0 || full0) ==>
          p in fs.files && index[p].mtimeMs == fs.files[p].mtimeMs)
  }

  // ---------------------------------------------------------------------
  // The engine (src/parser.ts:83-262 and the caches of src/cache.ts)
  // ---------------------------------------------------------------------

  /** `sessionMetadataIndex`, `sessionAggregateCache` and `sessionCache`,
      together with the session watcher whose dirty set and force flag a
      pass drains. */
  class Engine {
    var index: map<Path, Meta>
    var aggregate: map<string, AggregateEntry>
    var lastCheck: int
    var lastResult: seq<UsageRow>
    var lastLimit: int
    var lastSince: Option<int>
    /** CACHE_TTL_MS. */
    const ttl: int
    const watcher: SessionWatcher

    /** The index only names sessions, cached rows carry their entry's
        mtime, and the remembered result is most recently updated first. */
    ghost predicate Valid()
      reads this, watcher
    {
      watcher.Valid() && IndexValid(index) && Coherent(aggregate) && NonIncreasing(lastResult)
    }

    /** Empty caches; the remembered result is empty, so the first query
        never hits the result cache. */
    constructor (ttl: int, watcher: SessionWatcher)
      requires watcher.Valid()
      ensures Valid()
      ensures index == map[] && aggregate == map[] && lastResult == []
      ensures this.ttl == ttl && this.watcher == watcher
    {
      index := map[];
      aggregate := map[];
      lastCheck := 0;
      lastResult := [];
      lastLimit := 0;
      lastSince := None;
      this.ttl := ttl;
      this.watcher := watcher;
    }

    /** src/parser.ts:100-106: the remembered result answers a query only
        when it has no session filter, the same limit and `since`, a
        non-empty result and is younger than the TTL. */
    predicate ResultCacheUsable(q: Query, now: int)
      reads this
    {
      && !Truthy(q.sessionId)
      && q.limit.GetOr(DefaultLimit) == lastLimit
      && now - lastCheck < ttl
      && |lastResult| > 0
      && lastSince == q.since
    }

    /** src/parser.ts:141-199 for one candidate: a clean, indexed path
        outside a forced sweep is trusted; otherwise it is stated, and read
        when its mtime differs from the indexed one. */
    method VisitPath(p: Path, dirty: set<Path>, full: bool, q: Query, fs: FileSystem)
      returns (picked: Option<SessionFile>)
      modifies this`index
      ensures Outcome(index, picked) == Examine(old(index), p, dirty, full, q, fs)
    {
      var isDirty := p in dirty;
      var metadata := if p in index then Some(index[p]) else None;
      if !isDirty && !full && metadata.Some? {
        picked := None;
        if Mismatch(q, metadata.value.sessionId) {
          return;
        }
        if PassesSince(q.since, metadata.value.mtimeMs) {
          picked := Some(SessionFile(metadata.value.sessionId, p, metadata.value.mtimeMs));
        }
        return;
      }
      picked := None;
      if p !in fs.files {
        index := index - {p};
        return;
      }
      var mtimeMs := fs.files[p].mtimeMs;
      if metadata.Some? && metadata.value.mtimeMs == mtimeMs {
        if Mismatch(q, metadata.value.sessionId) {
          return;
        }
        if PassesSince(q.since, metadata.value.mtimeMs) {
          picked := Some(SessionFile(metadata.value.sessionId, p, metadata.value.mtimeMs));
        }
        return;
      }
      var record := fs.files[p].content;
      if record.None? || !Truthy(record.value.sessionId) {
        index := index - {p};
        return;
      }
      var sid := record.value.sessionId.value;
      index := index[p := Meta(mtimeMs, sid)];
      if Mismatch(q, sid) {
        return;
      }
      if PassesSince(q.since, mtimeMs) {
        picked := Some(SessionFile(sid, p, mtimeMs));
      }
    }

    /** src/parser.ts:138-200: the entries of one listed chats directory,
        examined in order and appended to the files and paths gathered so
        far. */
    method SweepEntries(dir: ChatsDir, entries: seq<DirEntry>, dirty: set<Path>, full: bool, q: Query,
                        fs: FileSystem, files0: seq<SessionFile>, seen0: set<Path>)
      returns (sessionFiles: seq<SessionFile>, seenFilePaths: set<Path>)
      modifies this`index
      ensures var st := Sweep(old(index), DirCandidates(dir, entries), dirty, full, q, fs);
        index == st.index && sessionFiles == files0 + st.files
      ensures seenFilePaths == seen0 + PathSet(DirCandidates(dir, entries))
    {
      ghost var index0 := index;
      ghost var ps: seq<Path> := [];
      sessionFiles := files0;
      seenFilePaths := seen0;
      assert entries[..0] == [];
      for j := 0 to |entries|
        invariant ps == DirCandidates(dir, entries[..j])
        invariant index == Sweep(index0, ps, dirty, full, q, fs).index
        invariant sessionFiles == files0 + Sweep(index0, ps, dirty, full, q, fs).files
        invariant seenFilePaths == seen0 + PathSet(ps)
      {
        DirCandidatesStep(dir, entries, j);
        if IsSessionEntry(entries[j]) {
          var filePath := Join(dir, entries[j].name);
          sessionFiles, seenFilePaths := VisitCandidate(filePath, dirty, full, q, fs, sessionFiles, seenFilePaths,
                                                        index0, ps, files0, seen0);
          ps := ps + [filePath];
        }
      }
      assert entries[..|entries|] == entries;
    }

    /** src/parser.ts:139-199 for one session entry: its path is seen,
        examined, and appended to the files when selected. */
    method VisitCandidate(filePath: Path, dirty: set<Path>, full: bool, q: Query, fs: FileSystem,
                          files: seq<SessionFile>, seen: set<Path>, ghost index0: map<Path, Meta>,
                          ghost ps: seq<Path>, ghost files0: seq<SessionFile>, ghost seen0: set<Path>)
      returns (sessionFiles: seq<SessionFile>, seenFilePaths: set<Path>)
      requires index == Sweep(index0, ps, dirty, full, q, fs).index
      requires files == files0 + Sweep(index0, ps, dirty, full, q, fs).files
      requires seen == seen0 + PathSet(ps)
      modifies this`index
      ensures index == Sweep(index0, ps + [filePath], dirty, full, q, fs).index
      ensures sessionFiles == files0 + Sweep(index0, ps + [filePath], dirty, full, q, fs).files
      ensures seenFilePaths == seen0 + PathSet(ps + [filePath])
    {
      seenFilePaths := seen + {filePath};
      SweepStep(index0, ps, filePath, dirty, full, q, fs);
      PathSetAppend(ps, filePath);
      var picked := VisitPath(filePath, dirty, full, q, fs);
      sessionFiles := files;
      if picked.Some? {
        sessionFiles := sessionFiles + [picked.value];
      }
    }

    /** src/parser.ts:126-201: every chats directory is watched and listed,
        and each session entry examined in order; the result is the
        specification `Sweep` over `AllCandidates`. */
    method SweepChatsDirs(dirty: set<Path>, full: bool, q: Query, fs: FileSystem)
      returns (sessionFiles: seq<SessionFile>, seenFilePaths: set<Path>)
      modifies this`index, watcher`dirWatchers
      ensures var st := Sweep(old(index), AllCandidates(fs.chatsDirs, fs), dirty, full, q, fs);
        index == st.index && sessionFiles == st.files
      ensures seenFilePaths == PathSet(AllCandidates(fs.chatsDirs, fs))
      ensures watcher.dirWatchers == old(watcher.dirWatchers) + WatchableAmong(fs.chatsDirs, fs.watchable)
    {
      var dirs := fs.chatsDirs;
      ghost var index0 := index;
      ghost var ps: seq<Path> := [];
      sessionFiles := [];
      seenFilePaths := {};
      for i := 0 to |dirs|
        invariant ps == AllCandidates(dirs[..i], fs)
        invariant index == Sweep(index0, ps, dirty, full, q, fs).index
        invariant sessionFiles == Sweep(index0, ps, dirty, full, q, fs).files
        invariant seenFilePaths == PathSet(ps)
        invariant watcher.dirWatchers == old(watcher.dirWatchers) + WatchableAmong(dirs[..i], fs.watchable)
        modifies this`index, watcher`dirWatchers
      {
        var chatsDirPath := dirs[i];
        assert dirs[..i + 1] == dirs[..i] + [chatsDirPath];
        assert dirs[..i + 1][..i] == dirs[..i];
        WatchableAmongStep(dirs, fs.watchable, i);
        watcher.WatchChatsDir(chatsDirPath, chatsDirPath in fs.watchable);
        if chatsDirPath !in fs.listings {
          assert AllCandidates(dirs[..i + 1], fs) == ps + [];
          assert ps + [] == ps;
          continue;
        }
        var entries := fs.listings[chatsDirPath];
        var more := DirCandidates(chatsDirPath, entries);
        SweepConcat(index0, ps, more, dirty, full, q, fs);
        PathSetConcat(ps, more);
        sessionFiles, seenFilePaths := SweepEntries(chatsDirPath, entries, dirty, full, q, fs, sessionFiles, seenFilePaths);
        ps := ps + more;
      }
      assert dirs[..|dirs|] == dirs;
    }

    /** src/parser.ts:203-207: index entries of paths not seen in this pass
        are dropped. */
    method EvictUnseen(seenFilePaths: set<Path>)
      modifies this`index
      ensures index == Retain(old(index), seenFilePaths)
    {
      var pending := index.Keys;
      ghost var index0 := index;
      while pending != {}
        invariant pending <= index0.Keys
        invariant index == map p | p in index0.Keys && (p in pending || p in seenFilePaths) :: index0[p]
        decreases pending
      {
        var cachedPath :| cachedPath in pending;
        if cachedPath !in seenFilePaths {
          index := index - {cachedPath};
        }
        pending := pending - {cachedPath};
      }
    }

    /** src/parser.ts:211-238: the rows of the files in order, through the
        aggregate cache; the result is the specification `Assemble`. */
    method AssembleSessions(sessionFiles: seq<SessionFile>, now: int, fs: FileSystem, parse: DateParser)
      returns (sessions: seq<UsageRow>)
      modifies this`aggregate
      ensures Assembly(aggregate, sessions) == Assemble(old(aggregate), sessionFiles, now, fs, parse)
    {
      sessions := [];
      ghost var aggregate0 := aggregate;
      for i := 0 to |sessionFiles|
        invariant Assembly(aggregate, sessions) == Assemble(aggregate0, sessionFiles[..i], now, fs, parse)
      {
        var file := sessionFiles[i];
        assert sessionFiles[..i + 1] == sessionFiles[..i] + [file];
        AssembleExtend(aggregate0, sessionFiles[..i], file, now, fs, parse);
        if file.sessionId in aggregate && aggregate[file.sessionId].updatedAt == file.mtimeMs {
          var cached := aggregate[file.sessionId];
          aggregate := aggregate[file.sessionId := cached.(lastAccessed := now)];
          sessions := sessions + cached.usageRows;
          continue;
        }
        if !Readable(fs, file.filePath) {
          continue;
        }
        var record := RecordAt(fs, file.filePath);
        var usageRows := ParseSessionFileRows(record, file.mtimeMs, parse);
        aggregate := aggregate[file.sessionId := AggregateEntry(file.mtimeMs, usageRows, now)];
        sessions := sessions + usageRows;
      }
      assert sessionFiles[..|sessionFiles|] == sessionFiles;
    }

    /** src/parser.ts:126-207: the sweep followed by the eviction of
        index entries for paths it did not see. */
    method SweepAndEvict(dirty: set<Path>, full: bool, q: Query, fs: FileSystem)
      returns (sessionFiles: seq<SessionFile>)
      requires IndexValid(index)
      modifies this`index, watcher`dirWatchers
      ensures var ps := AllCandidates(fs.chatsDirs, fs);
        var sweep := Sweep(old(index), ps, dirty, full, q, fs);
        index == Retain(sweep.index, PathSet(ps)) && sessionFiles == sweep.files
      ensures IndexValid(index)
      ensures forall p :: p in index ==> p in AllCandidates(fs.chatsDirs, fs)
      ensures forall p :: p in index && (p in dirty || full) ==>
        p in fs.files && index[p].mtimeMs == fs.files[p].mtimeMs
      ensures watcher.dirWatchers == old(watcher.dirWatchers) + WatchableAmong(fs.chatsDirs, fs.watchable)
    {
      ghost var ps := AllCandidates(fs.chatsDirs, fs);
      ghost var index0 := index;
      var seenFilePaths;
      sessionFiles, seenFilePaths := SweepChatsDirs(dirty, full, q, fs);
      SweepIndexValid(index0, ps, dirty, full, q, fs);
      SweepRefreshes(index0, ps, dirty, full, q, fs);
      PathSetMembers(ps);
      EvictUnseen(seenFilePaths);
    }

    /** src/parser.ts:211-240: assembly of the sorted files followed by the
        aggregate cache's eviction. */
    method AssembleAndEvict(sessionFiles: seq<SessionFile>, now: int, evict: set<string>, fs: FileSystem,
                            parse: DateParser)
      returns (sessions: seq<UsageRow>)
      requires Coherent(aggregate) && SortedDesc(sessionFiles)
      modifies this`aggregate
      ensures var assembly := Assemble(old(aggregate), sessionFiles, now, fs, parse);
        sessions == assembly.rows && aggregate == assembly.aggregate - evict
      ensures Coherent(aggregate) && NonIncreasing(sessions)
    {
      AssembleOrdered(aggregate, sessionFiles, now, fs, parse);
      sessions := AssembleSessions(sessionFiles, now, fs, parse);
      aggregate := aggregate - evict;
    }

    /** src/parser.ts:126-240 with the dirty set and force flag already
        taken: sweep, eviction of unseen paths, sort and assembly. */
    method RunPass(dirty: set<Path>, full: bool, q: Query, fs: FileSystem, now: int, evict: set<string>,
                   parse: DateParser)
      returns (rows: seq<UsageRow>)
      requires IndexValid(index) && Coherent(aggregate)
      modifies this`index, this`aggregate, watcher`dirWatchers
      ensures PassOutcome(q, fs, now, evict, parse, old(index), old(aggregate), dirty, full, index, aggregate, rows)
      ensures PassGuarantees(fs, dirty, full, index, rows)
      ensures IndexValid(index) && Coherent(aggregate)
      ensures watcher.dirWatchers == old(watcher.dirWatchers) + WatchableAmong(fs.chatsDirs, fs.watchable)
    {
      var sessionFiles := SweepAndEvict(dirty, full, q, fs);
      sessionFiles := SortByMtime(sessionFiles);
      rows := AssembleAndEvict(sessionFiles, now, evict, fs, parse);
    }

    /** src/parser.ts:111-247: the pass behind a missed result cache. */
    method Reconcile(q: Query, fs: FileSystem, now: int, later: int, evict: set<string>, parse: DateParser)
      returns (rows: seq<UsageRow>)
      requires Valid()
      modifies this`index, this`aggregate, this`lastCheck, this`lastResult, this`lastLimit, this`lastSince
      modifies watcher`dirWatchers, watcher`dirtyPaths, watcher`forceFullReconciliation
      ensures Valid()
      ensures PassOutcome(q, fs, now, evict, parse, old(index), old(aggregate),
                          old(watcher.dirtyPaths), old(watcher.forceFullReconciliation), index, aggregate, rows)
      ensures PassGuarantees(fs, old(watcher.dirtyPaths), old(watcher.forceFullReconciliation), index, rows)
      ensures watcher.dirtyPaths == {} && !watcher.forceFullReconciliation
      ensures watcher.dirWatchers == old(watcher.dirWatchers) + WatchableAmong(fs.chatsDirs, fs.watchable)
      ensures !Truthy(q.sessionId) ==>
        lastCheck == later && lastResult == rows && lastLimit == q.limit.GetOr(DefaultLimit) && lastSince == q.since
      ensures Truthy(q.sessionId) ==>
        lastCheck == old(lastCheck) && lastResult == old(lastResult)
        && lastLimit == old(lastLimit) && lastSince == old(lastSince)
    {
      var dirtyPaths := watcher.dirtyPaths;
      watcher.dirtyPaths := {};
      var needsFullStat := watcher.ConsumeForceFullReconciliation();
      rows := RunPass(dirtyPaths, needsFullStat, q, fs, now, evict, parse);
      if !Truthy(q.sessionId) {
        RememberResult(q, later, rows);
      }
    }

    /** src/parser.ts:242-247: the result cache takes the rows of a query
        without session filter, with its limit, `since` and the time. */
    method RememberResult(q: Query, later: int, rows: seq<UsageRow>)
      modifies this`lastCheck, this`lastResult, this`lastLimit, this`lastSince
      ensures lastCheck == later && lastResult == rows && lastLimit == q.limit.GetOr(DefaultLimit)
      ensures lastSince == q.since
    {
      lastCheck := later;
      lastResult := rows;
      lastLimit := q.limit.GetOr(DefaultLimit);
      lastSince := q.since;
    }

    /** src/parser.ts:83-262, one query. `now` and `later` are the two
        `Date.now()` readings (before the result-cache check and when the
        result cache is refreshed); `evict` is what `evictSessionAggregateCache`
        removes.
        - no root directory: nothing happens and nothing is returned;
        - otherwise the session watcher is started, and a usable result
          cache answers at once;
        - otherwise the dirty set is drained, the force flag consumed, the
          candidates swept, unseen index entries dropped, the selected files
          sorted most recent first and their rows assembled; a query without
          session filter then refreshes the result cache. */
    method ParseSessionsFromProjects(q: Query, fs: FileSystem, now: int, later: int,
                                     evict: set<string>, parse: DateParser)
      returns (rows: seq<UsageRow>)
      requires Valid()
      modifies this`index, this`aggregate, this`lastCheck, this`lastResult, this`lastLimit, this`lastSince
      modifies watcher`started, watcher`hasRootWatcher, watcher`dirWatchers, watcher`hasTimer
      modifies watcher`dirtyPaths, watcher`forceFullReconciliation
      ensures Valid()
      ensures !fs.rootExists ==> rows == [] && unchanged(this) && unchanged(watcher)
      ensures fs.rootExists ==> watcher.started
      // the implicit start of the session watcher (src/parser.ts:97)
      ensures fs.rootExists && !old(watcher.started) ==>
        && watcher.hasTimer && watcher.hasRootWatcher == fs.rootWatchable
        && watcher.dirWatchers == old(watcher.dirWatchers) + WatchableAmong(fs.chatsDirs, fs.watchable)
      ensures fs.rootExists && old(watcher.started) ==>
        && watcher.hasRootWatcher == old(watcher.hasRootWatcher)
        && watcher.dirWatchers == if old(ResultCacheUsable(q, now)) then old(watcher.dirWatchers)
                                  else old(watcher.dirWatchers) + WatchableAmong(fs.chatsDirs, fs.watchable)
      ensures fs.rootExists && old(ResultCacheUsable(q, now)) ==>
        && rows == old(lastResult) && unchanged(this)
        && watcher.dirtyPaths == old(watcher.dirtyPaths)
        && watcher.forceFullReconciliation == old(watcher.forceFullReconciliation)
      ensures fs.rootExists && !old(ResultCacheUsable(q, now)) ==>
        && PassOutcome(q, fs, now, evict, parse, old(index), old(aggregate),
                       old(watcher.dirtyPaths), old(watcher.forceFullReconciliation), index, aggregate, rows)
        && PassGuarantees(fs, old(watcher.dirtyPaths), old(watcher.forceFullReconciliation), index, rows)
        && watcher.dirtyPaths == {} && !watcher.forceFullReconciliation
        && watcher.dirWatchers == old(watcher.dirWatchers) + WatchableAmong(fs.chatsDirs, fs.watchable)
      ensures fs.rootExists && !old(ResultCacheUsable(q, now)) && !Truthy(q.sessionId) ==>
        lastCheck == later && lastResult == rows && lastLimit == q.limit.GetOr(DefaultLimit) && lastSince == q.since
      ensures fs.rootExists && !old(ResultCacheUsable(q, now)) && Truthy(q.sessionId) ==>
        lastCheck == old(lastCheck) && lastResult == old(lastResult)
        && lastLimit == old(lastLimit) && lastSince == old(lastSince)
    {
      if !fs.rootExists {
        return [];
      }
      watcher.Start(fs);
      if ResultCacheUsable(q, now) {
        return lastResult;
      }
      rows := Reconcile(q, fs, now, later, evict, parse);
    }
  }

  /** A full query that had to recompute and found rows makes a repeat of
      it within the TTL return the same rows, whatever the filesystem then
      holds. */
  method RepeatWithinTtl(e: Engine, q: Query, fs1: FileSystem, fs2: FileSystem, now1: int, later1: int, now2: int,
                         later2: int, evict1: set<string>, evict2: set<string>, parse: DateParser)
    returns (first: seq<UsageRow>, second: seq<UsageRow>)
    requires e.Valid() && !e.ResultCacheUsable(q, now1)
    requires fs1.rootExists && fs2.rootExists && !Truthy(q.sessionId)
    requires now2 - later1 < e.ttl
    modifies e, e.watcher
    ensures first != [] ==> second == first
  {
    first := e.ParseSessionsFromProjects(q, fs1, now1, later1, evict1, parse);
    second := e.ParseSessionsFromProjects(q, fs2, now2, later2, evict2, parse);
  }
}
