# Gemini CLI usage tracking — a Dafny model

This project models the usage-tracking engine of the Gemini CLI agent
plugin. The engine reads the append-only JSON session files that Gemini CLI
writes under `<tmp>/<projectHash>/chats/session-*.json`. It turns their
token-bearing assistant messages into usage rows. It avoids re-reading
unchanged files through three structures: a metadata index (path to mtime
and session id), an aggregate cache (session id to rows) and a short-lived
result cache. Watchers feed it dirty paths, and a periodic timer forces a
full sweep. A second, independent watcher tails session files and hands each
newly seen message to a callback exactly once.

Modules:

- `Types` holds the conversation record and message shapes of `src/types.ts`
  and the usage row and activity update. It also holds an abstract filesystem
  snapshot (`FileSystem`) that stands for every `readdir`, `stat`,
  `readFile`/`JSON.parse`, `fs.access` and `fs.watch` result the code sees.
- `Utils` holds `String.prototype.trim` and `extractProjectPath` (`src/utils.ts`).
- `Parser` is the usage extractor of `src/parser.ts`: message qualification,
  timestamp resolution, and `parseSessionFileRows` as a method over a
  JS-`Map` model, proved against the specification function `SessionRows`.
- `Watcher` holds the two watcher state machines of `src/watcher.ts` as
  classes. OS watch events and timer ticks are explicit method calls.
- `Reconciliation` is `parseSessionsFromProjects` as the `Engine` class. It
  owns the three caches and drains the session watcher's dirty set and force
  flag. Each step of the pass is a method proved against specification
  functions: `Examine`/`Sweep` for the sweep, `Retain` for stale-entry
  eviction, `SortByMtime` for the ordering, and `Assemble` for the
  aggregate-cache assembly.

Modelling choices:

- A JS value that may be absent is an `Option`, and a record is assumed to
  be well shaped: `messages` is an array, and `sessionId`, `summary`,
  `model` and the directory entries are strings when present (see
  "## Left out" for what the code does otherwise).
- `path.join(dir, name)` is the datatype constructor `Path.Join`, which is
  injective. A chats directory is `ChatsDir(projectHash)`.
- `Date.parse` followed by `Number.isFinite` is a function parameter
  `parse: string -> Option<int>`. `Date.now()` readings are parameters (`now`,
  `later`).
- The TTL of the result cache comes from `src/cache.ts`, which is not part of
  this model. It is a constant field `ttl` of the engine. The aggregate
  cache's eviction policy is a parameter `evict`, the set of session ids it
  removes.
- A watcher handle is the membership of its directory in a set. The root
  watcher and the timer are flags. Whether `fs.watch` succeeds is an
  argument (`watchOk`) or `FileSystem.watchable`.
- The asynchronous continuations (`getChatsDirs().then(...)`, the
  fire-and-forget `primeSeenMessages` and `processSessionDelta`) run to
  completion at the point where they are started.
- The program has one module-level session watcher. The engine (`Engine.watcher`) and the activity watcher (`ActivityWatcher.sessionWatcher`) each take it as a constructor argument; a caller composing the two passes the same object to both, and no member of the model composes them.
- `getChatsDirs` lists each directory once and `readdir` names each entry once; `ListingsDistinct` states this where the discovery property needs it.
- The activity callback is an identity (`CallbackId`). The updates it would
  receive are returned as a sequence, in call order.

## Model

| member | source | states |
|---|---|---|
| `Utils.ExtractProjectPath` | src/utils.ts:12-16 | None for an absent or empty list; otherwise only the first entry counts: Some exactly when it is not whitespace only, and then its trimmed text, never empty |
| `Utils.TrimEmptyIffWhitespace` | src/utils.ts:14-15 | `trim()` yields the empty string exactly when the string is whitespace only |
| `Utils.Trim` | src/utils.ts:14 | `trim()` is the infix after the leading whitespace that neither starts nor ends with whitespace, with only whitespace before and after it in the string |
| `Parser.ToTimestamp` | src/parser.ts:21-25 | the parsed value when the string is present, non-empty and parses to a finite number; the fallback otherwise |
| `Parser.IsTokenBearing` | src/parser.ts:27-42 | true exactly for an object of type "gemini" with a non-empty id and a token summary whose input is positive and whose output, cached and total are numbers (zero allowed) |
| `Parser.SessionName` | src/parser.ts:50 | the session name is present exactly when the summary is present and not whitespace only, and is then the trimmed summary |
| `Parser.MakeRow` | src/parser.ts:55-75 | a row copies the session id, has provider "google", model defaulting to "unknown", the input and output counts, `cacheRead` exactly when cached > 0, the message timestamp else the start time else the mtime, `sessionUpdatedAt` = mtime, and the session name and project path exactly when they are non-empty |
| `Parser.QualifyingIds` | src/parser.ts:52-53 | an id is among the qualifying ids exactly when some message carrying it passes `isTokenBearingGeminiMessage` |
| `Parser.SessionRows` | src/parser.ts:44-81 | every row carries the record's session id, provider "google" and the file's mtime |
| `Parser.SessionRowCount` | src/parser.ts:48-80 | exactly one row per distinct qualifying message id |
| `Parser.SessionRowsFromLastOccurrence` | src/parser.ts:77 | the row of an id is built from the last qualifying message carrying that id |
| `Parser.DistinctFirstOccurrenceOrder` | src/parser.ts:77-80 | the ids come out in the order of their first insertion into the `Map` |
| `Parser.MirrorsMapSkip` | src/parser.ts:53 | a message that does not qualify leaves the `Map` unchanged |
| `Parser.MirrorsMapSet` | src/parser.ts:77 | `deduped.set` of a qualifying message replaces the row of a known id and appends a new id |
| `Parser.MirrorsMapStep` | src/parser.ts:52-78 | one loop iteration keeps the `Map` equal to (first-insertion keys, last-occurrence rows) of the messages seen so far |
| `Parser.ParseSessionFileRows` | src/parser.ts:44-81 | the loop over the messages returns exactly `SessionRows` |
| `Watcher.SessionWatcher.constructor` | src/watcher.ts:28-34 | no watchers, no root watcher, empty dirty set, no timer, not started, force flag false |
| `Watcher.SessionWatcher.WatchChatsDir` | src/watcher.ts:135-148 | a directory already watched is left as it is; otherwise it is added when the watch can be set up |
| `Watcher.SessionWatcher.OnDirEvent` | src/watcher.ts:139-144 | an event adds `join(dir, filename)` to the dirty set exactly when the name is `session-*.json`; the dirty set only grows |
| `Watcher.SessionWatcher.OnRootEvent` | src/watcher.ts:155-158 | a "rename" event with a name whose chats subdirectory exists starts watching that subdirectory; any other event changes nothing |
| `Watcher.SessionWatcher.Start` | src/watcher.ts:150-171 | a second start changes nothing; a first start sets `started`, the timer, the root watcher when it can be set up, and watches every watchable chats directory |
| `Watcher.SessionWatcher.Tick` | src/watcher.ts:168-170 | a tick of the running timer sets the force flag |
| `Watcher.SessionWatcher.Stop` | src/watcher.ts:173-191 | afterwards there are no directory watchers, no root watcher, no timer, an empty dirty set, and `started` is false |
| `Watcher.SessionWatcher.ConsumeForceFullReconciliation` | src/watcher.ts:193-199 | returns the flag's prior value and leaves it false |
| `Watcher.CollectIds` | src/watcher.ts:86-91 | the collected set is exactly the ids of the qualifying messages |
| `Watcher.MakeUpdate` | src/watcher.ts:115-131 | an update copies the session id, message id, input and output counts, has `cacheRead` exactly when cached > 0, `reasoning` exactly when thoughts is present and positive, and the message timestamp, else the current time |
| `Watcher.Emissions` | src/watcher.ts:109-132 | at most one update per message, none for an id seen before, all for the file's session |
| `Watcher.EmissionsExactlyOnce` | src/watcher.ts:109-113 | the emitted ids are exactly the qualifying ids not seen before, none twice, in the order of their first occurrence in the file |
| `Watcher.EmissionSource` | src/watcher.ts:109-131 | each update is built from the first qualifying message that carries its id |
| `Watcher.PrimedThenAppended` | src/watcher.ts:79-131 | a file primed with `m1` and then changed to hold `m1` and `m2` emits exactly one update, for `m2` |
| `Watcher.CollectDeltas` | src/watcher.ts:109-132 | the loop returns exactly `Emissions`, and the seen set grows by every qualifying id of the record |
| `Watcher.ActivityWatcher.constructor` | src/watcher.ts:36-42 | no watchers, no root watcher, no callback, no seen sets, not started |
| `Watcher.ActivityWatcher.WatchChatsDirForActivity` | src/watcher.ts:56-69 | idempotent per directory |
| `Watcher.ActivityWatcher.PrimeSeenMessages` | src/watcher.ts:71-94 | each readable session file of the directory gets exactly the ids of its qualifying messages as its seen set; other files keep theirs; nothing is emitted |
| `Watcher.ActivityWatcher.ProcessSessionDelta` | src/watcher.ts:96-133 | without a callback or with an unreadable file nothing happens; otherwise the updates are `Emissions` against the file's seen set, and that set then holds every qualifying id of the record |
| `Watcher.ActivityWatcher.OnDirEvent` | src/watcher.ts:60-64 | a session-file event from a watched directory runs the delta step on `join(dir, filename)`; any other event does nothing |
| `Watcher.ActivityWatcher.OnRootEvent` | src/watcher.ts:208-214 | a "rename" event with a name watches and primes `<name>/chats`, without probing it |
| `Watcher.ActivityWatcher.StartActivityWatch` | src/watcher.ts:201-224 | the callback is always replaced; only a first start sets the root watcher and watches and primes every chats directory |
| `Watcher.ActivityWatcher.WatchAndPrimeChatsDirs` | src/watcher.ts:218-223 | every watchable chats directory is watched and every readable session file primed |
| `Watcher.ActivityWatcher.StopActivityWatch` | src/watcher.ts:226-242 | clears watchers, seen sets, callback, root watcher and `started`, and leaves the session watcher stopped as well |
| `Reconciliation.DirCandidates` | src/parser.ts:138-141 | the candidates of one directory are at most its entries, all in that directory and all named `session-*.json` |
| `Reconciliation.AllCandidates` | src/parser.ts:128-141 | every candidate lies in a listed chats directory and is named `session-*.json` |
| `Reconciliation.AllCandidatesComplete` | src/parser.ts:128-141 | every `session-*.json` file entry of a listable chats directory is a candidate |
| `Reconciliation.DirCandidatesDistinct` | src/parser.ts:138-141 | entries with distinct names give distinct candidates |
| `Reconciliation.AllCandidatesDistinct` | src/parser.ts:128-141 | with distinct directories and entry names, no path is a candidate twice |
| `Reconciliation.Select` | src/parser.ts:154-160 | a file is selected exactly when it passes the session filter and either `since` is absent or zero or the mtime is at least `since` |
| `Reconciliation.Examine` | src/parser.ts:144-199 | corrected order (see Findings): the stat is skipped exactly for a clean, indexed path outside a forced sweep; a stated path keeps an entry exactly when the file exists and either has the indexed mtime or holds a record with a truthy session id; an mtime match keeps the entry as it was, a fresh read indexes the record's own session id at the current mtime; a file is selected exactly when it keeps an entry that passes the session and `since` filters; other paths are untouched |
| `Reconciliation.ExamineAsWritten` | src/parser.ts:147-151 | an indexed path of another session is skipped before the dirty and forced checks; otherwise it behaves as `Examine` |
| `Reconciliation.DirtyPathLeftStale` | src/parser.ts:149 | a session-filtered query drains a dirty path without refreshing its entry, and the next unfiltered pass trusts the stale mtime |
| `Reconciliation.Sweep` | src/parser.ts:128-201 | corrected order (see Findings): each candidate adds at most one selected file |
| `Reconciliation.SweepSelected` | src/parser.ts:149-199 | every selected file is a candidate and passes both filters |
| `Reconciliation.SweepUntouched` | src/parser.ts:138-199 | paths that are not candidates keep their index entries |
| `Reconciliation.SweepIndexValid` | src/parser.ts:188-193 | entries written by a sweep always name a session |
| `Reconciliation.SweepRefreshes` | src/parser.ts:151-193 | corrected order (see Findings): after the sweep, the entry of every dirty candidate (every candidate in a forced sweep) carries the file's current mtime |
| `Reconciliation.SweepDiscovers` | src/parser.ts:128-199 | with nothing indexed, each readable session file with a truthy session id that passes the filters is selected exactly once, in listing order |
| `Reconciliation.DiscoveredComplete` | src/parser.ts:187-199 | every candidate holding a record with a truthy session id that passes the filters is among the discovered files |
| `Reconciliation.PassDiscovers` | src/parser.ts:126-201 | a pass over every chats directory with nothing indexed for its candidates selects exactly the discovered files, each once, in listing order, and every session file of a listed directory whose record has a truthy session id and passes the filters is among them |
| `Reconciliation.Retain` | src/parser.ts:203-207 | the index keeps exactly the entries of the paths seen in the pass, unchanged |
| `Reconciliation.SortByMtime` | src/parser.ts:209 | the files are permuted into most-recent-first order |
| `Reconciliation.SortStable` | src/parser.ts:209 | files with equal mtimes keep their relative order |
| `Reconciliation.AssembleStep` | src/parser.ts:215-238 | cached rows are reused exactly on an mtime match, and then only the entry's `lastAccessed` becomes `now`; otherwise a readable record's rows are appended and the entry becomes (`updatedAt` = mtime, those rows, `lastAccessed` = `now`); an unreadable record changes nothing; other sessions' entries are untouched; appended rows carry the file's mtime |
| `Reconciliation.Assemble` | src/parser.ts:211-238 | the sorted files are folded through `AssembleStep` in order, and no cache entry is ever dropped; what else that fold guarantees is stated by `AssembleTouches` (only the selected files' sessions' entries change) and `AssembleOrdered` (rows most recently updated first, cache coherent) |
| `Reconciliation.AssembleTouches` | src/parser.ts:215-238 | the assembly only adds or rewrites the entries of the selected files' sessions; every other entry is left as it was |
| `Reconciliation.AssembleOrdered` | src/parser.ts:209-238 | rows of files sorted most recent first come out most recently updated first, and the aggregate cache stays coherent |
| `Reconciliation.SweepTwoFresh` | src/parser.ts:141-199 | with nothing indexed, two distinct readable files of truthy sessions are both selected, in listing order, at their current mtimes |
| `Reconciliation.AssembleTwoFresh` | src/parser.ts:211-238 | with nothing cached, two files of different sessions yield the first session's rows followed by the second's |
| `Reconciliation.PairOfRows` | src/parser.ts:215-238 | two one-message sessions give exactly two rows, in session order, each with `cacheRead` present exactly when its cached count is positive |
| `Reconciliation.TwoFileScenario` | src/parser.ts:126-238 | two files at mtimes 1 and 2 yield two rows, the newer file's first, and only that row carries `cacheRead` |
| `Reconciliation.Engine.constructor` | src/parser.ts:100-106 | all caches start empty; the empty remembered result makes the first query miss the result cache |
| `Reconciliation.Engine.ResultCacheUsable` | src/parser.ts:100-106 | the remembered result answers a query exactly when it has no session filter, the same limit (default 100) and `since`, is non-empty and younger than the TTL |
| `Reconciliation.Engine.VisitPath` | src/parser.ts:141-199 | corrected order (see Findings): one candidate's effect on the index and its selection equal `Examine` |
| `Reconciliation.Engine.VisitCandidate` | src/parser.ts:139-199 | corrected order (see Findings): one session entry is marked seen and examined, extending the sweep by one path |
| `Reconciliation.Engine.SweepEntries` | src/parser.ts:138-200 | corrected order (see Findings): the entries of one directory are examined in order, as `Sweep` over its candidates |
| `Reconciliation.Engine.SweepChatsDirs` | src/parser.ts:126-201 | corrected order (see Findings): every chats directory is watched and its candidates swept, as `Sweep` over all candidates; the seen paths are exactly the candidates |
| `Reconciliation.Engine.EvictUnseen` | src/parser.ts:203-207 | index entries of paths not seen in the pass are deleted, the others kept |
| `Reconciliation.Engine.AssembleSessions` | src/parser.ts:211-238 | the loop over the sorted files yields exactly `Assemble` |
| `Reconciliation.Engine.SweepAndEvict` | src/parser.ts:126-207 | corrected order (see Findings): afterwards the index holds only candidates, only named sessions, and fresh mtimes for dirty or force-swept paths |
| `Reconciliation.Engine.AssembleAndEvict` | src/parser.ts:211-240 | the rows come out most recently updated first; the aggregate cache is the assembled one minus the evicted sessions |
| `Reconciliation.Engine.RunPass` | src/parser.ts:126-240 | corrected order (see Findings): the pass's rows, index and aggregate cache are the specification's, with the ordering and index guarantees |
| `Reconciliation.Engine.RememberResult` | src/parser.ts:242-247 | the result cache takes the rows, the limit (default 100), `since` and the time |
| `Reconciliation.Engine.Reconcile` | src/parser.ts:111-247 | corrected order (see Findings): the dirty set is drained and the force flag consumed; the pass uses the values they had; the result cache is refreshed exactly on a query without a session filter |
| `Reconciliation.Engine.ParseSessionsFromProjects` | src/parser.ts:83-262 | corrected order (see Findings): without the root directory nothing changes and nothing is returned; otherwise the session watcher is started (a first start sets the timer and, when it can be set up, the root watcher, and watches every watchable chats directory; a later call keeps the root watcher as it was); the remembered result is returned untouched exactly when there is no session filter, the limit and `since` match, it is younger than the TTL and non-empty; otherwise the full pass runs |
| `Reconciliation.RepeatWithinTtl` | src/parser.ts:100-109 | repeating a full query within the TTL returns the same non-empty rows, whatever the filesystem then holds |

## Left out

- Filesystem I/O (`fs.access`, `readdir`, `stat`, `readFile`, `JSON.parse`): replaced by the `FileSystem` snapshot and its `rootExists`, `listings`, `files`, `watchable` and `rootWatchable` fields. The `existsSync`/`statSync` probe of a new project directory (src/watcher.ts:46-54) is the free argument `probe` of `SessionWatcher.OnRootEvent`, not tied to the snapshot.
- `getChatsDirs` (src/paths.ts:8-28): its result is `FileSystem.chatsDirs`; the directory enumeration itself is not modelled.
- `fs.watch`, `watcher.close`, `setInterval`/`clearInterval`: a watcher is set membership or a flag; events and timer ticks are method calls (`Tick`), so the ten-minute period of the timer is not modelled.
- Asynchrony: the interleavings of `await` points and of fire-and-forget promises are not modelled; each operation runs to completion.
- `Date.now` and `Date.parse`: parameters.
- `src/cache.ts` is not part of this model: the TTL value, the initial result-cache fields and the `evictSessionAggregateCache` policy (beyond "it only removes entries") are unknown.
- Logging and the stat, skip, dirty-hit and cache hit/miss counters: they have no effect on the state or the result.
- `src/index.ts` registers the plugin; its `parseSessions` returns an empty list and has no logic to model.
- `limit`: it only serves as a key of the result cache; rows are never truncated, and the model does not truncate them either.
- JavaScript numbers are modelled as unbounded integers; fractional mtimes and `NaN` counts are not modelled.
- Well-shaped records only: `ConversationRecord` cannot hold a record whose `messages` is not an array, or a non-null summary that is not a string (an absent or `null` summary is None, as the `?.` at src/parser.ts:50 makes it). In the code a `messages` that is not iterable, or a non-null summary that is not a string, makes `parseSessionFileRows` throw (src/parser.ts:50, 52), so `parseSessionsFromProjects` rejects on every result-cache miss whose pass selects and reads that file, until the file is rewritten well-shaped; result-cache hits (src/parser.ts:99-108), passes whose session filter or `since` skips the file (src/parser.ts:149-160) and files whose cached rows are reused on an mtime match never read it. A `messages` string is iterable and yields no rows instead. `primeSeenMessages` and `processSessionDelta` throw on it as well (src/watcher.ts:87, 109). A numeric `sessionId` is truthy and indexed at src/parser.ts:188-193, and a non-string `model` survives `??` at src/parser.ts:58; the model has neither. A non-string message `timestamp` or record `startTime` is None in the model and falls back, whereas `Date.parse` would first coerce it to a string (src/parser.ts:21-25).
- Watcher.ActivityWatcher.ProcessSessionDelta: a callback that throws is not modelled; in the code the id added to the seen set at src/watcher.ts:113 stays there while the rest of the loop is abandoned.
- Reconciliation.Examine: states the corrected order (the session filter on the indexed id is applied only where the stat is skipped); the order of src/parser.ts:149 is `ExamineAsWritten` (see Findings).
- Reconciliation.SweepRefreshes: holds of the corrected order only; as written, a dirty or force-swept path of another session is not refreshed (`DirtyPathLeftStale`).
- Reconciliation.Sweep: built on `Examine`, so it follows the corrected order rather than src/parser.ts:149 (see Findings).
- Reconciliation.Engine.VisitCandidate: built on `Examine`, so it follows the corrected order rather than src/parser.ts:149 (see Findings).
- Reconciliation.Engine.SweepEntries: built on `Examine`, so it follows the corrected order rather than src/parser.ts:149 (see Findings).
- Reconciliation.Engine.SweepChatsDirs: built on `Examine`, so it follows the corrected order rather than src/parser.ts:149 (see Findings).
- Reconciliation.Engine.SweepAndEvict: built on `Examine`, so it follows the corrected order rather than src/parser.ts:149 (see Findings).
- Reconciliation.Engine.RunPass: built on `Examine`, so it follows the corrected order rather than src/parser.ts:149 (see Findings).
- Reconciliation.Engine.Reconcile: built on `Examine`, so it follows the corrected order rather than src/parser.ts:149 (see Findings).
- Reconciliation.Engine.ParseSessionsFromProjects: built on `Examine`, so it follows the corrected order rather than src/parser.ts:149 (see Findings).
- Reconciliation.Engine.VisitPath: follows the corrected order of `Examine` (the session filter on the indexed id is checked only where the stat is skipped), not the order of src/parser.ts:149; see Findings.
- `Array.prototype.sort` is modelled as a stable sort by descending mtime; a comparator returning `NaN` is not modelled.

## Findings

| source | as written | input that shows it | evidently intended | confidence | as-written member | corrected member |
|---|---|---|---|---|---|---|
| src/parser.ts:149 | the session filter on the indexed session id runs before the dirty and forced checks, so a session-filtered query drains a dirty path of another session without re-stating it | entry `session-a.json` indexed at mtime 1 for session A, file now at mtime 2 and dirty, query for session B; the entry stays at mtime 1 and the next unfiltered query trusts it and may serve session A's pre-change cached rows | the filter applies only where the stat is skipped, so a dirty or force-swept path is always refreshed (`SweepRefreshes`) | medium, not executed | `Reconciliation.ExamineAsWritten`, `Reconciliation.DirtyPathLeftStale` | `Reconciliation.Examine` |
