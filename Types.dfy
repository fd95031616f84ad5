/** Data shapes shared by the usage extractor, the watchers and the
    reconciliation engine: the conversation record of a Gemini CLI session
    file (src/types.ts), the usage rows produced from it, and an abstract view
    of the filesystem that replaces every I/O call of the source. */
module Types {

  datatype Option<T> = None | Some(value: T) {
    /** `x ?? d` in the source. */
    function GetOr(default: T): T {
      if Some? then value else default
    }
  }

  /** The "tokens" object of a message. A field is None when it is absent
      or when it holds something other than a JSON number. */
  datatype TokenSummary = TokenSummary(
    input: Option<int>,
    output: Option<int>,
    cached: Option<int>,
    thoughts: Option<int>,
    total: Option<int>)

  /** One element of a record's message list. `NotAnObject` stands for a
      JSON null or primitive; a field of `Object` is None when it is absent
      or not of the type the source tests for. */
  datatype Message =
    | NotAnObject
    | Object(
        kind: Option<string>,
        id: Option<string>,
        model: Option<string>,
        timestamp: Option<string>,
        tokens: Option<TokenSummary>)

  /** A parsed session file. `sessionId` keeps an empty string apart from an
      absent one, because the produced rows copy it as it is. */
  datatype ConversationRecord = ConversationRecord(
    sessionId: Option<string>,
    startTime: Option<string>,
    summary: Option<string>,
    directories: Option<seq<string>>,
    messages: seq<Message>)

  /** The token part of a usage row; `cacheRead` is omitted when None. */
  datatype RowTokens = RowTokens(input: int, output: int, cacheRead: Option<int>)

  /** One usage row (SessionUsageData); None fields are omitted. */
  datatype UsageRow = UsageRow(
    sessionId: Option<string>,
    providerId: string,
    modelId: string,
    tokens: RowTokens,
    timestamp: int,
    sessionUpdatedAt: int,
    sessionName: Option<string>,
    projectPath: Option<string>)

  /** The token part of an activity update. */
  datatype ActivityTokens = ActivityTokens(
    input: int,
    output: int,
    cacheRead: Option<int>,
    reasoning: Option<int>)

  /** What the activity callback receives for one new message. */
  datatype ActivityUpdate = ActivityUpdate(
    sessionId: Option<string>,
    messageId: string,
    tokens: ActivityTokens,
    timestamp: int)

  /** `<tmp>/<projectHash>/chats`, the directory holding one project's
      session files. */
  datatype ChatsDir = ChatsDir(projectHash: string)

  /** `path.join(dir, name)`; a constructor, hence injective. */
  datatype Path = Join(dir: ChatsDir, name: string)

  /** One result of `readdir(..., { withFileTypes: true })`. */
  datatype DirEntry = DirEntry(name: string, isFile: bool)

  /** What `stat` and `readJsonFile` give for an existing file: its
      modification time and its content, None when it cannot be read or
      is not valid JSON. */
  datatype FileState = FileState(mtimeMs: int, content: Option<ConversationRecord>)

  /** The filesystem as the engine and the watchers see it during one step.
      - rootExists: `fs.access(<tmp>)` succeeds;
      - chatsDirs: what `getChatsDirs()` returns;
      - listings: `readdir` of a chats directory; a missing key means it throws;
      - files: `stat`/`readFile` of a path; a missing key means both throw;
      - watchable: the chats directories on which `fs.watch` succeeds;
      - rootWatchable: whether `fs.watch(<tmp>)` succeeds. */
  datatype FileSystem = FileSystem(
    rootExists: bool,
    chatsDirs: seq<ChatsDir>,
    listings: map<ChatsDir, seq<DirEntry>>,
    files: map<Path, FileState>,
    watchable: set<ChatsDir>,
    rootWatchable: bool)

  /** `Date.parse` followed by `Number.isFinite`: None for NaN. */
  type DateParser = string -> Option<int>

  /** The session-file naming convention: `session-*.json`. */
  predicate IsSessionFileName(name: string) {
    "session-" <= name && |name| >= 5 && name[|name| - 5..] == ".json"
  }

  /** A directory entry the engine and the primer look at. */
  predicate IsSessionEntry(e: DirEntry) {
    e.isFile && IsSessionFileName(e.name)
  }

  /** An event's file name that names a session file. */
  predicate IsSessionName(filename: Option<string>) {
    filename.Some? && IsSessionFileName(filename.value)
  }

  /** Whether a JS string value is truthy: present and non-empty. */
  predicate Truthy(s: Option<string>) {
    s.Some? && s.value != ""
  }
}
