/** The two watcher state machines of src/watcher.ts. OS watch events and
    timer ticks are explicit method calls; a watcher handle is membership
    of its directory in a set (or a flag for the root watcher and the
    timer); whether `fs.watch` succeeds is an argument. */
module Watcher {
  import opened Types
  import opened Parser

  /** The directories among `dirs` on which a watch can be set up. */
  function WatchableAmong(dirs: seq<ChatsDir>, watchable: set<ChatsDir>): set<ChatsDir> {
    set d | d in dirs && d in watchable
  }

  lemma WatchableAmongStep(dirs: seq<ChatsDir>, watchable: set<ChatsDir>, i: nat)
    requires i < |dirs|
    ensures WatchableAmong(dirs[..i + 1], watchable)
      == WatchableAmong(dirs[..i], watchable) + (if dirs[i] in watchable then {dirs[i]} else {})
  {
    assert dirs[..i + 1] == dirs[..i] + [dirs[i]];
  }

  /** The `sessionWatcher` record together with the module-level
      `forceFullReconciliation` flag. */
  class SessionWatcher {
    /** Keys of `chatsDirWatchers`. */
    var dirWatchers: set<ChatsDir>
    /** `rootWatcher !== null`. */
    var hasRootWatcher: bool
    var dirtyPaths: set<Path>
    /** `reconciliationTimer !== null`. */
    var hasTimer: bool
    var started: bool
    var forceFullReconciliation: bool

    /** The timer runs exactly while the watcher is started, and a root
        watcher exists only then. */
    ghost predicate Valid()
      reads this
    {
      hasTimer == started && (hasRootWatcher ==> started)
    }

    /** The initial module state (src/watcher.ts:28-34, 44). */
    constructor ()
      ensures Valid()
      ensures dirWatchers == {} && !hasRootWatcher && dirtyPaths == {}
      ensures !hasTimer && !started && !forceFullReconciliation
    {
      dirWatchers := {};
      hasRootWatcher := false;
      dirtyPaths := {};
      hasTimer := false;
      started := false;
      forceFullReconciliation := false;
    }

    /** src/watcher.ts:135-148: a directory already watched stays as it
        is; otherwise it is watched when `fs.watch` succeeds. */
    method WatchChatsDir(dir: ChatsDir, watchOk: bool)
      modifies this`dirWatchers
      ensures dir in old(dirWatchers) ==> dirWatchers == old(dirWatchers)
      ensures dir !in old(dirWatchers) ==>
        dirWatchers == if watchOk then old(dirWatchers) + {dir} else old(dirWatchers)
    {
      if dir in dirWatchers {
        return;
      }
      if watchOk {
        dirWatchers := dirWatchers + {dir};
      }
    }

    /** src/watcher.ts:139-144: a change event from the watcher of `dir`
        marks `join(dir, filename)` dirty when the name is a session file
        name. The dirty set only grows. */
    method OnDirEvent(dir: ChatsDir, filename: Option<string>)
      modifies this`dirtyPaths
      ensures old(dirtyPaths) <= dirtyPaths
      ensures dirtyPaths ==
        if dir in dirWatchers && IsSessionName(filename)
        then old(dirtyPaths) + {Join(dir, filename.value)}
        else old(dirtyPaths)
    {
      if dir !in dirWatchers {
        return;
      }
      if IsSessionName(filename) {
        dirtyPaths := dirtyPaths + {Join(dir, filename.value)};
      }
    }

    /** src/watcher.ts:155-158 with tryWatchNewHashDir (46-54): a "rename"
        event naming a project directory whose `chats` subdirectory exists
        (`probe`) starts watching that subdirectory. */
    method OnRootEvent(eventType: string, filename: Option<string>, probe: bool, watchOk: bool)
      modifies this`dirWatchers
      ensures if hasRootWatcher && eventType == "rename" && Truthy(filename) && probe
                 && ChatsDir(filename.value) !in old(dirWatchers) && watchOk
        then dirWatchers == old(dirWatchers) + {ChatsDir(filename.value)}
        else dirWatchers == old(dirWatchers)
    {
      if !hasRootWatcher || eventType != "rename" || !Truthy(filename) {
        return;
      }
      if probe {
        WatchChatsDir(ChatsDir(filename.value), watchOk);
      }
    }

    /** src/watcher.ts:150-171: idempotent through `started`; otherwise it
        sets up the root watcher, watches every chats directory (the
        `getChatsDirs().then` continuation, run at once) and starts the
        timer. */
    method Start(fs: FileSystem)
      requires Valid()
      modifies this`started, this`hasRootWatcher, this`dirWatchers, this`hasTimer
      ensures Valid()
      ensures old(started) ==>
        started && hasRootWatcher == old(hasRootWatcher) && dirWatchers == old(dirWatchers)
      ensures !old(started) ==>
        && started && hasTimer && hasRootWatcher == fs.rootWatchable
        && dirWatchers == old(dirWatchers) + WatchableAmong(fs.chatsDirs, fs.watchable)
    {
      if started {
        return;
      }
      started := true;
      if fs.rootWatchable {
        hasRootWatcher := true;
      }
      for i := 0 to |fs.chatsDirs|
        invariant dirWatchers == old(dirWatchers) + WatchableAmong(fs.chatsDirs[..i], fs.watchable)
        modifies this`dirWatchers
      {
        WatchableAmongStep(fs.chatsDirs, fs.watchable, i);
        WatchChatsDir(fs.chatsDirs[i], fs.chatsDirs[i] in fs.watchable);
      }
      assert fs.chatsDirs[..|fs.chatsDirs|] == fs.chatsDirs;
      hasTimer := true;
    }

    /** src/watcher.ts:168-170: a tick of the running interval forces the
        next pass to be a full sweep. */
    method Tick()
      modifies this`forceFullReconciliation
      ensures forceFullReconciliation == (old(forceFullReconciliation) || hasTimer)
    {
      if hasTimer {
        forceFullReconciliation := true;
      }
    }

    /** src/watcher.ts:173-191: closes every watcher and the timer and
        clears the dirty set. The force flag is not touched. */
    method Stop()
      modifies this`hasTimer, this`dirWatchers, this`hasRootWatcher, this`dirtyPaths, this`started
      ensures Valid()
      ensures !hasTimer && dirWatchers == {} && !hasRootWatcher && dirtyPaths == {} && !started
    {
      if hasTimer {
        hasTimer := false;
      }
      dirWatchers := {};
      if hasRootWatcher {
        hasRootWatcher := false;
      }
      dirtyPaths := {};
      started := false;
    }

    /** src/watcher.ts:193-199: read-and-clear of the force flag. */
    method ConsumeForceFullReconciliation() returns (value: bool)
      modifies this`forceFullReconciliation
      ensures value == old(forceFullReconciliation)
      ensures !forceFullReconciliation
    {
      value := forceFullReconciliation;
      if forceFullReconciliation {
        forceFullReconciliation := false;
      }
    }
  }

  /** The identity of a registered activity callback. */
  type CallbackId = nat

  /** The file at `p` can be read and parsed. */
  predicate Readable(fs: FileSystem, p: Path) {
    p in fs.files && fs.files[p].content.Some?
  }

  function RecordAt(fs: FileSystem, p: Path): ConversationRecord
    requires Readable(fs, p)
  {
    fs.files[p].content.value
  }

  /** The readable session files among the entries `entries` of `dir`. */
  function PrimedAmong(dir: ChatsDir, entries: seq<DirEntry>, fs: FileSystem): set<Path> {
    set e | e in entries && IsSessionEntry(e) && Readable(fs, Join(dir, e.name)) :: Join(dir, e.name)
  }

  /** The readable session files of `dir` (none when it cannot be listed). */
  function PrimedPaths(dir: ChatsDir, fs: FileSystem): set<Path> {
    if dir in fs.listings then PrimedAmong(dir, fs.listings[dir], fs) else {}
  }

  /** The readable session files of the directories `dirs`. */
  function PrimedIn(dirs: seq<ChatsDir>, fs: FileSystem): (r: set<Path>)
    ensures forall p :: p in r ==> Readable(fs, p)
    decreases |dirs|
  {
    if dirs == [] then {} else PrimedIn(dirs[..|dirs| - 1], fs) + PrimedPaths(dirs[|dirs| - 1], fs)
  }

  lemma PrimedInStep(dirs: seq<ChatsDir>, fs: FileSystem, i: nat)
    requires i < |dirs|
    ensures PrimedIn(dirs[..i + 1], fs) == PrimedIn(dirs[..i], fs) + PrimedPaths(dirs[i], fs)
  {
    assert dirs[..i + 1][..i] == dirs[..i];
  }

  /** `seen` with each path of `ps` reset to the ids its record carries. */
  function Overlay(seen: map<Path, set<string>>, ps: set<Path>, fs: FileSystem): (r: map<Path, set<string>>)
    requires forall p :: p in ps ==> Readable(fs, p)
  {
    map p | p in seen.Keys + ps :: if p in ps then IdSet(RecordAt(fs, p).messages) else seen[p]
  }

  /** Overlaying twice is overlaying the union. */
  lemma OverlayUnion(seen: map<Path, set<string>>, a: set<Path>, b: set<Path>, fs: FileSystem)
    requires forall q :: q in a ==> Readable(fs, q)
    requires forall q :: q in b ==> Readable(fs, q)
    ensures Overlay(Overlay(seen, a, fs), b, fs) == Overlay(seen, a + b, fs)
  {
  }

  lemma OverlayAdd(seen: map<Path, set<string>>, ps: set<Path>, p: Path, fs: FileSystem)
    requires forall q :: q in ps ==> Readable(fs, q)
    requires Readable(fs, p)
    ensures Overlay(seen, ps, fs)[p := IdSet(RecordAt(fs, p).messages)] == Overlay(seen, ps + {p}, fs)
  {
  }

  /** src/watcher.ts:115-131, the update for one new qualifying message:
      `cacheRead` only for a positive cached count, `reasoning` only for a
      present positive thoughts count, and the message's own timestamp,
      else the current time. */
  function MakeUpdate(sessionId: Option<string>, m: Message, now: int, parse: DateParser): (u: ActivityUpdate)
    requires IsTokenBearing(m)
    ensures u.sessionId == sessionId && u.messageId == m.id.value
    ensures u.tokens.input == m.tokens.value.input.value
    ensures u.tokens.output == m.tokens.value.output.value
    ensures u.tokens.cacheRead.Some? <==> m.tokens.value.cached.value > 0
    ensures u.tokens.cacheRead.Some? ==> u.tokens.cacheRead.value == m.tokens.value.cached.value
    ensures u.tokens.reasoning.Some? <==> m.tokens.value.thoughts.Some? && m.tokens.value.thoughts.value > 0
    ensures u.tokens.reasoning.Some? ==> u.tokens.reasoning.value == m.tokens.value.thoughts.value
    ensures Parses(m.timestamp, parse) ==> u.timestamp == parse(m.timestamp.value).value
    ensures !Parses(m.timestamp, parse) ==> u.timestamp == now
  {
    var t := m.tokens.value;
    ActivityUpdate(
      sessionId,
      m.id.value,
      ActivityTokens(
        t.input.value,
        t.output.value,
        if t.cached.value > 0 then Some(t.cached.value) else None,
        if t.thoughts.Some? && t.thoughts.value > 0 then Some(t.thoughts.value) else None),
      ToTimestamp(m.timestamp, now, parse))
  }

  /** What one pass of src/watcher.ts:109-132 hands to the callback: an
      update for each qualifying message whose id is neither in `seen` nor
      carried by an earlier qualifying message of the same pass. */
  function Emissions(seen: set<string>, msgs: seq<Message>, sessionId: Option<string>,
                     now: int, parse: DateParser): (us: seq<ActivityUpdate>)
    // at most one update per message, none for an id seen before, all for this session
    ensures |us| <= |msgs|
    ensures forall k :: 0 <= k < |us| ==> us[k].messageId !in seen && us[k].sessionId == sessionId
    decreases |msgs|
  {
    if msgs == [] then []
    else
      var p := msgs[..|msgs| - 1];
      var m := msgs[|msgs| - 1];
      var e := Emissions(seen, p, sessionId, now, parse);
      if IsTokenBearing(m) && m.id.value !in seen + IdSet(p)
      then e + [MakeUpdate(sessionId, m, now, parse)]
      else e
  }

  /** The message ids of a sequence of updates. */
  function MessageIds(us: seq<ActivityUpdate>): (ids: seq<string>)
    ensures |ids| == |us| && forall k :: 0 <= k < |us| ==> ids[k] == us[k].messageId
  {
    seq(|us|, k requires 0 <= k < |us| => us[k].messageId)
  }

  /** `s` without the elements of `seen`, order kept. */
  function Without(s: seq<string>, seen: set<string>): seq<string>
    decreases |s|
  {
    if s == [] then []
    else
      var w := Without(s[..|s| - 1], seen);
      if s[|s| - 1] in seen then w else w + [s[|s| - 1]]
  }

  lemma {:induction false} WithoutElements(s: seq<string>, seen: set<string>)
    ensures forall x :: x in Without(s, seen) <==> x in s && x !in seen
    decreases |s|
  {
    if s != [] {
      WithoutElements(s[..|s| - 1], seen);
      assert s == s[..|s| - 1] + [s[|s| - 1]];
    }
  }

  lemma {:induction false} WithoutNoDuplicates(s: seq<string>, seen: set<string>)
    requires NoDuplicates(s)
    ensures NoDuplicates(Without(s, seen))
    decreases |s|
  {
    if s != [] {
      var p := s[..|s| - 1];
      var y := s[|s| - 1];
      assert forall i :: 0 <= i < |p| ==> p[i] == s[i];
      WithoutNoDuplicates(p, seen);
      WithoutElements(p, seen);
      assert y !in p;
    }
  }

  /** Removing elements keeps the relative order of the rest: the kept
      elements sit at strictly increasing positions of `s`. */
  lemma {:induction false} WithoutPositions(s: seq<string>, seen: set<string>) returns (pos: seq<nat>)
    ensures |pos| == |Without(s, seen)|
    ensures forall i :: 0 <= i < |pos| ==> pos[i] < |s| && s[pos[i]] == Without(s, seen)[i]
    ensures forall i, i' :: 0 <= i < i' < |pos| ==> pos[i] < pos[i']
    decreases |s|
  {
    if s == [] {
      pos := [];
    } else {
      var p := s[..|s| - 1];
      pos := WithoutPositions(p, seen);
      assert forall j :: 0 <= j < |p| ==> s[j] == p[j];
      if s[|s| - 1] !in seen {
        pos := pos + [|s| - 1];
      }
    }
  }

  lemma MessageIdsAppend(us: seq<ActivityUpdate>, u: ActivityUpdate)
    ensures MessageIds(us + [u]) == MessageIds(us) + [u.messageId]
  {
  }

  lemma WithoutAppend(s: seq<string>, x: string, seen: set<string>)
    ensures Without(s + [x], seen) == if x in seen then Without(s, seen) else Without(s, seen) + [x]
  {
    assert (s + [x])[..|s|] == s;
  }

  /** The emitted ids are the distinct qualifying ids, in order of first
      occurrence, minus those already seen. */
  lemma {:induction false} EmissionIds(seen: set<string>, msgs: seq<Message>, sessionId: Option<string>,
                                       now: int, parse: DateParser)
    ensures MessageIds(Emissions(seen, msgs, sessionId, now, parse)) == Without(Distinct(QualifyingIds(msgs)), seen)
    decreases |msgs|
  {
    if msgs != [] {
      var p := msgs[..|msgs| - 1];
      var m := msgs[|msgs| - 1];
      assert msgs == p + [m];
      EmissionIds(seen, p, sessionId, now, parse);
      IdSetStep(p, m);
      EmissionsStep(seen, p, m, sessionId, now, parse);
      if IsTokenBearing(m) {
        var x := m.id.value;
        var qp := QualifyingIds(p);
        var d := Distinct(qp);
        DistinctAppend(qp, x);
        DistinctSameElements(qp);
        assert x in d <==> x in IdSet(p);
        if x !in seen + IdSet(p) {
          MessageIdsAppend(Emissions(seen, p, sessionId, now, parse), MakeUpdate(sessionId, m, now, parse));
          WithoutAppend(d, x, seen);
        }
      } else {
        assert QualifyingIds(msgs) == QualifyingIds(p) + [];
      }
    }
  }

  /** Exactly once, in message order: every qualifying id not seen before
      is emitted, nothing else is, no id twice, and in the order in which
      the ids first occur in the file. */
  lemma EmissionsExactlyOnce(seen: set<string>, msgs: seq<Message>, sessionId: Option<string>,
                             now: int, parse: DateParser)
    ensures var ids := MessageIds(Emissions(seen, msgs, sessionId, now, parse));
      && NoDuplicates(ids)
      && (forall x :: x in ids <==> x in IdSet(msgs) && x !in seen)
      && (forall i, j :: 0 <= i < j < |ids| ==>
            FirstIndex(QualifyingIds(msgs), ids[i]) < FirstIndex(QualifyingIds(msgs), ids[j]))
  {
    var q := QualifyingIds(msgs);
    var d := Distinct(q);
    EmissionIds(seen, msgs, sessionId, now, parse);
    DistinctSameElements(q);
    DistinctNoDuplicates(q);
    DistinctFirstOccurrenceOrder(q);
    WithoutElements(d, seen);
    WithoutNoDuplicates(d, seen);
    var pos := WithoutPositions(d, seen);
    var ids := Without(d, seen);
    forall i, i' | 0 <= i < i' < |ids|
      ensures FirstIndex(q, ids[i]) < FirstIndex(q, ids[i'])
    {
      assert d[pos[i]] == ids[i] && d[pos[i']] == ids[i'];
    }
  }

  /** Each update is made from the FIRST qualifying message with its id:
      `j` is the position of that message. */
  lemma {:induction false} EmissionSource(seen: set<string>, msgs: seq<Message>,
                                          sessionId: Option<string>, now: int, parse: DateParser, k: nat)
    returns (j: nat)
    requires k < |Emissions(seen, msgs, sessionId, now, parse)|
    ensures j < |msgs| && IsTokenBearing(msgs[j])
    ensures msgs[j].id.value == Emissions(seen, msgs, sessionId, now, parse)[k].messageId
    ensures forall j' :: 0 <= j' < j ==> !(IsTokenBearing(msgs[j']) && msgs[j'].id.value == msgs[j].id.value)
    ensures Emissions(seen, msgs, sessionId, now, parse)[k] == MakeUpdate(sessionId, msgs[j], now, parse)
    decreases |msgs|
  {
    var p := msgs[..|msgs| - 1];
    var m := msgs[|msgs| - 1];
    var e := Emissions(seen, p, sessionId, now, parse);
    assert forall i :: 0 <= i < |p| ==> msgs[i] == p[i];
    if k < |e| {
      j := EmissionSource(seen, p, sessionId, now, parse, k);
    } else {
      j := |msgs| - 1;
      assert m.id.value !in QualifyingIds(p);
    }
  }

  /** A qualifying message with the given id and counts, no thoughts. */
  function Qualifying(id: string, input: int, output: int, cached: int): Message {
    Object(Some("gemini"), Some(id), None, None,
           Some(TokenSummary(Some(input), Some(output), Some(cached), None, Some(input + output))))
  }

  /** The activity scenario: a file primed while it holds `m1` and then
      changed to hold `m1` and `m2` hands exactly one update to the
      callback, for `m2`, with no cache-read count. */
  lemma PrimedThenAppended(sessionId: Option<string>, now: int, parse: DateParser)
    ensures var m1 := Qualifying("m1", 10, 5, 0);
      var m2 := Qualifying("m2", 3, 1, 0);
      var updates := Emissions(IdSet([m1]), [m1, m2], sessionId, now, parse);
      |updates| == 1 && updates[0].messageId == "m2" && updates[0].tokens.cacheRead.None?
      && updates[0].timestamp == now
  {
    var m1 := Qualifying("m1", 10, 5, 0);
    var m2 := Qualifying("m2", 3, 1, 0);
    assert [m1, m2][..1] == [m1];
    assert [m1][..0] == [];
    assert IdSet([m1]) == {"m1"} by {
      assert QualifyingIds([m1]) == ["m1"];
    }
    assert Emissions(IdSet([m1]), [m1], sessionId, now, parse) == [];
  }

  /** src/watcher.ts:86-91: the set of qualifying message ids of a
      record, gathered in one pass. */
  method CollectIds(msgs: seq<Message>) returns (ids: set<string>)
    ensures ids == IdSet(msgs)
    ensures forall x :: x in ids <==>
      exists j :: 0 <= j < |msgs| && IsTokenBearing(msgs[j]) && msgs[j].id.value == x
  {
    ids := {};
    for j := 0 to |msgs|
      invariant ids == IdSet(msgs[..j])
    {
      IdSetStep(msgs[..j], msgs[j]);
      assert msgs[..j + 1] == msgs[..j] + [msgs[j]];
      if IsTokenBearing(msgs[j]) {
        ids := ids + {msgs[j].id.value};
      }
    }
    assert msgs[..|msgs|] == msgs;
  }

  lemma EmissionsStep(seen: set<string>, p: seq<Message>, m: Message, sessionId: Option<string>,
                      now: int, parse: DateParser)
    ensures Emissions(seen, p + [m], sessionId, now, parse)
      == if IsTokenBearing(m) && m.id.value !in seen + IdSet(p)
         then Emissions(seen, p, sessionId, now, parse) + [MakeUpdate(sessionId, m, now, parse)]
         else Emissions(seen, p, sessionId, now, parse)
  {
    assert (p + [m])[..|p|] == p;
  }

  /** src/watcher.ts:96-131, the loop over one record's messages: each
      qualifying message whose id is not yet known is emitted and its id
      remembered. */
  method CollectDeltas(before: set<string>, msgs: seq<Message>, sessionId: Option<string>,
                       now: int, parse: DateParser)
    returns (seenIds: set<string>, updates: seq<ActivityUpdate>)
    ensures seenIds == before + IdSet(msgs)
    ensures updates == Emissions(before, msgs, sessionId, now, parse)
  {
    seenIds := before;
    updates := [];
    for i := 0 to |msgs|
      invariant seenIds == before + IdSet(msgs[..i])
      invariant updates == Emissions(before, msgs[..i], sessionId, now, parse)
    {
      var msg := msgs[i];
      assert msgs[..i + 1] == msgs[..i] + [msg];
      IdSetStep(msgs[..i], msg);
      EmissionsStep(before, msgs[..i], msg, sessionId, now, parse);
      if !IsTokenBearing(msg) {
        continue;
      }
      if msg.id.value in seenIds {
        continue;
      }
      seenIds := seenIds + {msg.id.value};
      updates := updates + [MakeUpdate(sessionId, msg, now, parse)];
    }
    assert msgs[..|msgs|] == msgs;
  }

  /** The `activityWatcher` record. */
  class ActivityWatcher {
    /** Keys of `chatsDirWatchers`. */
    var dirWatchers: set<ChatsDir>
    /** `rootWatcher !== null`. */
    var hasRootWatcher: bool
    var callback: Option<CallbackId>
    var seenMessageIds: map<Path, set<string>>
    var started: bool
    /** The session watcher that stopping also stops. */
    const sessionWatcher: SessionWatcher

    ghost predicate Valid()
      reads this
    {
      hasRootWatcher ==> started
    }

    /** The initial module state (src/watcher.ts:36-42). */
    constructor (sessionWatcher: SessionWatcher)
      ensures Valid()
      ensures dirWatchers == {} && !hasRootWatcher && callback.None?
      ensures seenMessageIds == map[] && !started
      ensures this.sessionWatcher == sessionWatcher
    {
      dirWatchers := {};
      hasRootWatcher := false;
      callback := None;
      seenMessageIds := map[];
      started := false;
      this.sessionWatcher := sessionWatcher;
    }

    /** src/watcher.ts:56-69: idempotent per directory. */
    method WatchChatsDirForActivity(dir: ChatsDir, watchOk: bool)
      modifies this`dirWatchers
      ensures dir in old(dirWatchers) ==> dirWatchers == old(dirWatchers)
      ensures dir !in old(dirWatchers) ==>
        dirWatchers == if watchOk then old(dirWatchers) + {dir} else old(dirWatchers)
    {
      if dir in dirWatchers {
        return;
      }
      if watchOk {
        dirWatchers := dirWatchers + {dir};
      }
    }

    /** src/watcher.ts:71-94: every readable session file of `dir` gets as
        its seen set exactly the ids of its qualifying messages; other
        files keep theirs. No callback fires. */
    method PrimeSeenMessages(dir: ChatsDir, fs: FileSystem)
      modifies this`seenMessageIds
      ensures seenMessageIds == Overlay(old(seenMessageIds), PrimedPaths(dir, fs), fs)
    {
      if dir !in fs.listings {
        assert Overlay(seenMessageIds, {}, fs) == seenMessageIds;
        return;
      }
      var entries := fs.listings[dir];
      ghost var seen0 := seenMessageIds;
      for i := 0 to |entries|
        invariant seenMessageIds == Overlay(seen0, PrimedAmong(dir, entries[..i], fs), fs)
      {
        var entry := entries[i];
        assert entries[..i + 1] == entries[..i] + [entry];
        ghost var before := PrimedAmong(dir, entries[..i], fs);
        if !IsSessionEntry(entry) {
          assert PrimedAmong(dir, entries[..i + 1], fs) == before;
          continue;
        }
        var filePath := Join(dir, entry.name);
        if !Readable(fs, filePath) {
          assert PrimedAmong(dir, entries[..i + 1], fs) == before;
          continue;
        }
        var record := RecordAt(fs, filePath);
        var seenIds := CollectIds(record.messages);
        assert PrimedAmong(dir, entries[..i + 1], fs) == before + {filePath};
        OverlayAdd(seen0, before, filePath, fs);
        seenMessageIds := seenMessageIds[filePath := seenIds];
      }
      assert entries[..|entries|] == entries;
    }

    /** src/watcher.ts:96-133: with a callback registered and the file
        readable, emits `Emissions` of the file's messages against the
        file's seen set, and afterwards the seen set holds every qualifying
        id of the file. Otherwise nothing happens. */
    method ProcessSessionDelta(filePath: Path, fs: FileSystem, now: int, parse: DateParser)
      returns (updates: seq<ActivityUpdate>)
      modifies this`seenMessageIds
      ensures callback.None? || !Readable(fs, filePath) ==>
        updates == [] && seenMessageIds == old(seenMessageIds)
      ensures callback.Some? && Readable(fs, filePath) ==>
        var rec := RecordAt(fs, filePath);
        var before := if filePath in old(seenMessageIds) then old(seenMessageIds)[filePath] else {};
        && updates == Emissions(before, rec.messages, rec.sessionId, now, parse)
        && seenMessageIds == old(seenMessageIds)[filePath := before + IdSet(rec.messages)]
    {
      updates := [];
      if callback.None? {
        return;
      }
      if !Readable(fs, filePath) {
        return;
      }
      var record := RecordAt(fs, filePath);
      // The source stores a fresh set for an unseen file before the loop
      // and fills it in place; storing once after the loop is the same.
      var seenIds: set<string> := if filePath in seenMessageIds then seenMessageIds[filePath] else {};
      seenIds, updates := CollectDeltas(seenIds, record.messages, record.sessionId, now, parse);
      seenMessageIds := seenMessageIds[filePath := seenIds];
    }

    /** src/watcher.ts:60-64: a change event from the watcher of `dir` for
        a session file name runs the delta step on that file. */
    method OnDirEvent(dir: ChatsDir, filename: Option<string>, fs: FileSystem, now: int, parse: DateParser)
      returns (updates: seq<ActivityUpdate>)
      modifies this`seenMessageIds
      ensures !(dir in dirWatchers && IsSessionName(filename)) ==>
        updates == [] && seenMessageIds == old(seenMessageIds)
      ensures (dir in dirWatchers && IsSessionName(filename)
               && (callback.None? || !Readable(fs, Join(dir, filename.value)))) ==>
        updates == [] && seenMessageIds == old(seenMessageIds)
      ensures (dir in dirWatchers && IsSessionName(filename)
               && callback.Some? && Readable(fs, Join(dir, filename.value))) ==>
        var p := Join(dir, filename.value);
        var rec := RecordAt(fs, p);
        var before := if p in old(seenMessageIds) then old(seenMessageIds)[p] else {};
        && updates == Emissions(before, rec.messages, rec.sessionId, now, parse)
        && seenMessageIds == old(seenMessageIds)[p := before + IdSet(rec.messages)]
    {
      updates := [];
      if dir !in dirWatchers {
        return;
      }
      if !IsSessionName(filename) {
        return;
      }
      updates := ProcessSessionDelta(Join(dir, filename.value), fs, now, parse);
    }

    /** src/watcher.ts:208-214: a "rename" event naming a project directory
        watches and primes its `chats` subdirectory, without probing it. */
    method OnRootEvent(eventType: string, filename: Option<string>, watchOk: bool, fs: FileSystem)
      modifies this`dirWatchers, this`seenMessageIds
      ensures !(hasRootWatcher && eventType == "rename" && Truthy(filename)) ==>
        dirWatchers == old(dirWatchers) && seenMessageIds == old(seenMessageIds)
      ensures hasRootWatcher && eventType == "rename" && Truthy(filename) ==>
        var d := ChatsDir(filename.value);
        && dirWatchers == (if d !in old(dirWatchers) && watchOk then old(dirWatchers) + {d} else old(dirWatchers))
        && seenMessageIds == Overlay(old(seenMessageIds), PrimedPaths(d, fs), fs)
    {
      if !hasRootWatcher || eventType != "rename" || !Truthy(filename) {
        return;
      }
      var chatsPath := ChatsDir(filename.value);
      WatchChatsDirForActivity(chatsPath, watchOk);
      PrimeSeenMessages(chatsPath, fs);
    }

    /** src/watcher.ts:201-224: the callback is always replaced; the rest
        happens only on the first start: the root watcher, and for every
        chats directory a watcher and a priming pass (the `then`
        continuation, run at once). */
    method StartActivityWatch(cb: CallbackId, fs: FileSystem)
      requires Valid()
      modifies this`callback, this`started, this`hasRootWatcher, this`dirWatchers, this`seenMessageIds
      ensures Valid() && callback == Some(cb) && started
      ensures old(started) ==>
        && hasRootWatcher == old(hasRootWatcher) && dirWatchers == old(dirWatchers)
        && seenMessageIds == old(seenMessageIds)
      ensures !old(started) ==>
        && hasRootWatcher == fs.rootWatchable
        && dirWatchers == old(dirWatchers) + WatchableAmong(fs.chatsDirs, fs.watchable)
        && seenMessageIds == Overlay(old(seenMessageIds), PrimedIn(fs.chatsDirs, fs), fs)
    {
      callback := Some(cb);
      if started {
        return;
      }
      started := true;
      if fs.rootWatchable {
        hasRootWatcher := true;
      }
      WatchAndPrimeChatsDirs(fs);
    }

    /** src/watcher.ts:216-223: each chats directory is watched and its
        session files primed. */
    method WatchAndPrimeChatsDirs(fs: FileSystem)
      modifies this`dirWatchers, this`seenMessageIds
      ensures dirWatchers == old(dirWatchers) + WatchableAmong(fs.chatsDirs, fs.watchable)
      ensures seenMessageIds == Overlay(old(seenMessageIds), PrimedIn(fs.chatsDirs, fs), fs)
    {
      ghost var seen0 := seenMessageIds;
      for i := 0 to |fs.chatsDirs|
        invariant dirWatchers == old(dirWatchers) + WatchableAmong(fs.chatsDirs[..i], fs.watchable)
        invariant seenMessageIds == Overlay(seen0, PrimedIn(fs.chatsDirs[..i], fs), fs)
      {
        var dirPath := fs.chatsDirs[i];
        WatchableAmongStep(fs.chatsDirs, fs.watchable, i);
        PrimedInStep(fs.chatsDirs, fs, i);
        OverlayUnion(seen0, PrimedIn(fs.chatsDirs[..i], fs), PrimedPaths(dirPath, fs), fs);
        WatchChatsDirForActivity(dirPath, dirPath in fs.watchable);
        PrimeSeenMessages(dirPath, fs);
      }
      assert fs.chatsDirs[..|fs.chatsDirs|] == fs.chatsDirs;
    }

    /** src/watcher.ts:226-242: everything is cleared and the session
        watcher is stopped as well. */
    method StopActivityWatch()
      modifies this`dirWatchers, this`hasRootWatcher, this`seenMessageIds, this`callback, this`started
      modifies sessionWatcher`hasTimer, sessionWatcher`dirWatchers, sessionWatcher`hasRootWatcher
      modifies sessionWatcher`dirtyPaths, sessionWatcher`started
      ensures Valid() && sessionWatcher.Valid()
      ensures dirWatchers == {} && !hasRootWatcher && seenMessageIds == map[] && callback.None? && !started
      ensures !sessionWatcher.hasTimer && sessionWatcher.dirWatchers == {} && !sessionWatcher.hasRootWatcher
      ensures sessionWatcher.dirtyPaths == {} && !sessionWatcher.started
    {
      dirWatchers := {};
      if hasRootWatcher {
        hasRootWatcher := false;
      }
      seenMessageIds := map[];
      callback := None;
      started := false;
      sessionWatcher.Stop();
    }
  }
}
