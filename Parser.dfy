/** Usage extraction of src/parser.ts: which messages carry tokens, how a
    timestamp is resolved, and how a conversation record becomes one usage
    row per distinct message id. */
module Parser {
  import opened Types
  import opened Utils

  /** `!value` is false and `Date.parse(value)` is finite. */
  predicate Parses(value: Option<string>, parse: DateParser) {
    Truthy(value) && parse(value.value).Some?
  }

  /** src/parser.ts:21-25: the parsed value when there is one, else the
      fallback. */
  function ToTimestamp(value: Option<string>, fallback: int, parse: DateParser): (r: int)
    ensures Parses(value, parse) ==> r == parse(value.value).value
    ensures !Parses(value, parse) ==> r == fallback
  {
    if !Truthy(value) then fallback
    else match parse(value.value)
      case Some(t) => t
      case None => fallback
  }

  /** src/parser.ts:27-42, written as the source's chain of early exits. A
      message qualifies when it is an object of type "gemini" with a
      non-empty id and a token summary whose input count is positive and
      whose output, cached and total counts are numbers (zero allowed). */
  function IsTokenBearing(m: Message): (b: bool)
    ensures b <==>
      && m.Object?
      && m.kind == Some("gemini")
      && Truthy(m.id)
      && m.tokens.Some?
      && m.tokens.value.input.Some? && m.tokens.value.input.value > 0
      && m.tokens.value.output.Some?
      && m.tokens.value.cached.Some?
      && m.tokens.value.total.Some?
  {
    match m
    case NotAnObject => false
    case Object(kind, id, _, _, tokens) =>
      if kind != Some("gemini") then false
      else if id.None? || |id.value| == 0 then false
      else match tokens
        case None => false
        case Some(t) =>
          if t.input.None? || t.input.value <= 0 then false
          else if t.output.None? then false
          else if t.cached.None? then false
          else t.total.Some?
  }

  /** The ids of the qualifying messages, in message order, repeats kept. */
  function QualifyingIds(msgs: seq<Message>): (ids: seq<string>)
    ensures |ids| <= |msgs|
    ensures forall x :: x in ids <==>
      exists j :: 0 <= j < |msgs| && IsTokenBearing(msgs[j]) && msgs[j].id.value == x
    decreases |msgs|
  {
    if msgs == [] then []
    else
      var p := msgs[..|msgs| - 1];
      var m := msgs[|msgs| - 1];
      var ids := QualifyingIds(p);
      assert forall j :: 0 <= j < |p| ==> p[j] == msgs[j];
      if IsTokenBearing(m) then ids + [m.id.value] else ids
  }

  /** The set of qualifying message ids. */
  function IdSet(msgs: seq<Message>): set<string> {
    set x | x in QualifyingIds(msgs)
  }

  /** Appending one message adds its id when it qualifies. */
  lemma IdSetStep(p: seq<Message>, m: Message)
    ensures QualifyingIds(p + [m]) == QualifyingIds(p) + (if IsTokenBearing(m) then [m.id.value] else [])
    ensures IdSet(p + [m]) == IdSet(p) + (if IsTokenBearing(m) then {m.id.value} else {})
  {
    assert (p + [m])[..|p|] == p;
  }

  predicate NoDuplicates(s: seq<string>) {
    forall i, j :: 0 <= i < j < |s| ==> s[i] != s[j]
  }

  /** The keys of a JS `Map` after setting the keys of `s` in order: every
      key once, at the place of its first insertion. */
  function Distinct(s: seq<string>): seq<string>
    decreases |s|
  {
    if s == [] then []
    else
      var d := Distinct(s[..|s| - 1]);
      if s[|s| - 1] in d then d else d + [s[|s| - 1]]
  }

  /** The position of the first `x` in `s`, or `|s|` when there is none. */
  function FirstIndex(s: seq<string>, x: string): (k: nat)
    ensures k <= |s|
    ensures k < |s| <==> x in s
    ensures k < |s| ==> s[k] == x
    ensures forall j :: 0 <= j < k ==> s[j] != x
  {
    if s == [] then 0
    else if s[0] == x then 0
    else 1 + FirstIndex(s[1..], x)
  }

  /** The position of the last qualifying message with id `x`. */
  function LastIndex(msgs: seq<Message>, x: string): (k: nat)
    requires x in QualifyingIds(msgs)
    ensures k < |msgs| && IsTokenBearing(msgs[k]) && msgs[k].id.value == x
    ensures forall j :: k < j < |msgs| ==> !(IsTokenBearing(msgs[j]) && msgs[j].id.value == x)
    decreases |msgs|
  {
    var n := |msgs| - 1;
    if IsTokenBearing(msgs[n]) && msgs[n].id.value == x then n
    else
      var k := LastIndex(msgs[..n], x);
      assert forall j :: 0 <= j < n ==> msgs[..n][j] == msgs[j];
      k
  }

  lemma DistinctAppend(s: seq<string>, x: string)
    ensures Distinct(s + [x]) == if x in Distinct(s) then Distinct(s) else Distinct(s) + [x]
  {
    assert (s + [x])[..|s|] == s;
  }

  lemma {:induction false} DistinctSameElements(s: seq<string>)
    ensures forall x :: x in Distinct(s) <==> x in s
    decreases |s|
  {
    if s != [] {
      var p := s[..|s| - 1];
      DistinctSameElements(p);
      assert s == p + [s[|s| - 1]];
    }
  }

  lemma {:induction false} DistinctNoDuplicates(s: seq<string>)
    ensures NoDuplicates(Distinct(s))
    decreases |s|
  {
    if s != [] {
      DistinctNoDuplicates(s[..|s| - 1]);
    }
  }

  lemma FirstIndexOfPrefix(p: seq<string>, q: seq<string>, x: string)
    requires x in p
    ensures FirstIndex(p + q, x) == FirstIndex(p, x)
  {
    var k := FirstIndex(p, x);
    var k' := FirstIndex(p + q, x);
    assert (p + q)[k] == x;
    if k' < k {
      assert p[k'] == (p + q)[k'];
    }
  }

  /** The elements of `d` first occur in `s` in the order of `d`. */
  predicate FirstOccurrenceOrdered(s: seq<string>, d: seq<string>) {
    forall i, j :: 0 <= i < j < |d| ==> FirstIndex(s, d[i]) < FirstIndex(s, d[j]) < |s|
  }

  lemma FirstIndicesOfPrefix(p: seq<string>, q: seq<string>)
    ensures forall x :: x in p ==> FirstIndex(p + q, x) == FirstIndex(p, x)
  {
    forall x | x in p ensures FirstIndex(p + q, x) == FirstIndex(p, x) {
      FirstIndexOfPrefix(p, q, x);
    }
  }

  lemma FirstIndexOfNew(p: seq<string>, y: string)
    requires y !in p
    ensures FirstIndex(p + [y], y) == |p|
  {
  }

  /** Appending to `p` moves no first occurrence of an element of `p`. */
  lemma OrderedPrefix(p: seq<string>, q: seq<string>, d: seq<string>)
    requires FirstOccurrenceOrdered(p, d)
    requires forall x :: x in d ==> x in p
    ensures FirstOccurrenceOrdered(p + q, d)
    ensures forall i :: 0 <= i < |d| ==> FirstIndex(p + q, d[i]) < |p|
  {
    FirstIndicesOfPrefix(p, q);
    forall i | 0 <= i < |d| ensures FirstIndex(p + q, d[i]) == FirstIndex(p, d[i]) {
      assert d[i] in d;
    }
  }

  /** An element first occurring after all of `d` may follow them. */
  lemma OrderedExtend(s: seq<string>, d: seq<string>, y: string)
    requires FirstOccurrenceOrdered(s, d)
    requires FirstIndex(s, y) < |s|
    requires forall i :: 0 <= i < |d| ==> FirstIndex(s, d[i]) < FirstIndex(s, y)
    ensures FirstOccurrenceOrdered(s, d + [y])
  {
    var e := d + [y];
    forall i, j | 0 <= i < j < |e| ensures FirstIndex(s, e[i]) < FirstIndex(s, e[j]) < |s| {
      assert e[i] == d[i];
      if j < |d| {
        assert e[j] == d[j];
      }
    }
  }

  lemma FirstOccurrenceStep(p: seq<string>, y: string)
    requires FirstOccurrenceOrdered(p, Distinct(p))
    ensures FirstOccurrenceOrdered(p + [y], Distinct(p + [y]))
  {
    var d := Distinct(p);
    DistinctAppend(p, y);
    DistinctSameElements(p);
    OrderedPrefix(p, [y], d);
    if y !in d {
      FirstIndexOfNew(p, y);
      OrderedExtend(p + [y], d, y);
    }
  }

  /** The distinct keys keep the order of first insertion. */
  lemma {:induction false} DistinctFirstOccurrenceOrder(s: seq<string>)
    ensures FirstOccurrenceOrdered(s, Distinct(s))
    decreases |s|
  {
    if s != [] {
      var p := s[..|s| - 1];
      DistinctFirstOccurrenceOrder(p);
      assert s == p + [s[|s| - 1]];
      FirstOccurrenceStep(p, s[|s| - 1]);
    }
  }

  lemma {:induction false} NoDuplicatesCardinality(s: seq<string>)
    requires NoDuplicates(s)
    ensures |(set x | x in s)| == |s|
    decreases |s|
  {
    if s != [] {
      var p := s[..|s| - 1];
      var y := s[|s| - 1];
      NoDuplicatesCardinality(p);
      assert (set x | x in s) == (set x | x in p) + {y} by {
        assert s == p + [y];
      }
      assert y !in (set x | x in p);
    }
  }

  /** `record.summary?.trim() || undefined`. */
  function SessionName(summary: Option<string>): (r: Option<string>)
    ensures r.Some? <==> summary.Some? && !AllWhitespace(summary.value)
    ensures r.Some? ==> r.value == Trim(summary.value) && r.value != ""
  {
    if summary.None? then None
    else
      TrimEmptyIffWhitespace(summary.value);
      var t := Trim(summary.value);
      if t == "" then None else Some(t)
  }

  /** src/parser.ts:55-75, the row built from one qualifying message:
      fixed provider, copied session id and counts, `cacheRead` only for a
      positive cached count, the message timestamp else the record's start
      time else the file's mtime, and the optional session name and project
      path only when they are non-empty. */
  function MakeRow(rec: ConversationRecord, mtimeMs: int, parse: DateParser, m: Message): (row: UsageRow)
    requires IsTokenBearing(m)
    ensures row.sessionId == rec.sessionId
    ensures row.providerId == "google"
    ensures row.modelId == (if m.model.Some? then m.model.value else "unknown")
    ensures row.tokens.input == m.tokens.value.input.value
    ensures row.tokens.output == m.tokens.value.output.value
    ensures row.tokens.cacheRead.Some? <==> m.tokens.value.cached.value > 0
    ensures row.tokens.cacheRead.Some? ==> row.tokens.cacheRead.value == m.tokens.value.cached.value
    ensures Parses(m.timestamp, parse) ==> row.timestamp == parse(m.timestamp.value).value
    ensures !Parses(m.timestamp, parse) && Parses(rec.startTime, parse) ==>
      row.timestamp == parse(rec.startTime.value).value
    ensures !Parses(m.timestamp, parse) && !Parses(rec.startTime, parse) ==> row.timestamp == mtimeMs
    ensures row.sessionUpdatedAt == mtimeMs
    ensures row.sessionName.Some? <==> rec.summary.Some? && !AllWhitespace(rec.summary.value)
    ensures row.sessionName.Some? ==> row.sessionName.value == Trim(rec.summary.value)
    ensures row.projectPath.Some? <==> ExtractProjectPath(rec.directories).Some?
    ensures row.projectPath.Some? ==> row.projectPath == ExtractProjectPath(rec.directories)
  {
    var t := m.tokens.value;
    var cached := t.cached.value;
    UsageRow(
      rec.sessionId,
      "google",
      m.model.GetOr("unknown"),
      RowTokens(t.input.value, t.output.value, if cached > 0 then Some(cached) else None),
      ToTimestamp(m.timestamp, ToTimestamp(rec.startTime, mtimeMs, parse), parse),
      mtimeMs,
      SessionName(rec.summary),
      ExtractProjectPath(rec.directories))
  }

  /** What src/parser.ts:44-81 returns: for each distinct qualifying id, in
      order of first occurrence, the row of its last occurrence. */
  function SessionRows(rec: ConversationRecord, mtimeMs: int, parse: DateParser): (rows: seq<UsageRow>)
    ensures forall k :: 0 <= k < |rows| ==>
      rows[k].sessionId == rec.sessionId && rows[k].providerId == "google"
      && rows[k].sessionUpdatedAt == mtimeMs
  {
    var msgs := rec.messages;
    var ids := Distinct(QualifyingIds(msgs));
    DistinctSameElements(QualifyingIds(msgs));
    seq(|ids|, k requires 0 <= k < |ids| => MakeRow(rec, mtimeMs, parse, msgs[LastIndex(msgs, ids[k])]))
  }

  /** One row per distinct qualifying message id. */
  lemma SessionRowCount(rec: ConversationRecord, mtimeMs: int, parse: DateParser)
    ensures |SessionRows(rec, mtimeMs, parse)| == |IdSet(rec.messages)|
  {
    var q := QualifyingIds(rec.messages);
    DistinctSameElements(q);
    DistinctNoDuplicates(q);
    NoDuplicatesCardinality(Distinct(q));
    assert (set x | x in Distinct(q)) == IdSet(rec.messages);
  }

  /** Last write wins: the k-th row is built from the LAST qualifying
      message carrying the k-th distinct id (the ids themselves come in the
      order of first occurrence, DistinctFirstOccurrenceOrder). */
  lemma SessionRowsFromLastOccurrence(rec: ConversationRecord, mtimeMs: int, parse: DateParser, k: nat)
    requires k < |SessionRows(rec, mtimeMs, parse)|
    ensures var msgs := rec.messages;
      var x := Distinct(QualifyingIds(msgs))[k];
      exists j :: 0 <= j < |msgs| && IsTokenBearing(msgs[j]) && msgs[j].id.value == x
        && (forall j' :: j < j' < |msgs| ==> !(IsTokenBearing(msgs[j']) && msgs[j'].id.value == x))
        && SessionRows(rec, mtimeMs, parse)[k] == MakeRow(rec, mtimeMs, parse, msgs[j])
  {
    var msgs := rec.messages;
    var x := Distinct(QualifyingIds(msgs))[k];
    DistinctSameElements(QualifyingIds(msgs));
    var j := LastIndex(msgs, x);
    assert SessionRows(rec, mtimeMs, parse)[k] == MakeRow(rec, mtimeMs, parse, msgs[j]);
  }

  /** The pair (keys, entries) is the source's `Map` after processing the
      messages `p`: keys in order of first insertion, each entry the row of
      the last message with that key. */
  ghost predicate MirrorsMap(keys: seq<string>, entries: map<string, UsageRow>,
                             rec: ConversationRecord, mtimeMs: int, parse: DateParser, p: seq<Message>)
  {
    && keys == Distinct(QualifyingIds(p))
    && (forall x :: x in entries <==> x in QualifyingIds(p))
    && (forall x :: x in entries ==> entries[x] == MakeRow(rec, mtimeMs, parse, p[LastIndex(p, x)]))
  }

  /** A message that does not qualify leaves the `Map` as it is. */
  lemma MirrorsMapSkip(keys: seq<string>, entries: map<string, UsageRow>,
                       rec: ConversationRecord, mtimeMs: int, parse: DateParser, p: seq<Message>, m: Message)
    requires MirrorsMap(keys, entries, rec, mtimeMs, parse, p)
    requires !IsTokenBearing(m)
    ensures MirrorsMap(keys, entries, rec, mtimeMs, parse, p + [m])
  {
    var p' := p + [m];
    assert p'[..|p|] == p;
    assert QualifyingIds(p') == QualifyingIds(p);
    forall x | x in entries
      ensures entries[x] == MakeRow(rec, mtimeMs, parse, p'[LastIndex(p', x)])
    {
      LastIndexOfExtension(p, m, x);
    }
  }

  /** A qualifying message sets its id's entry, appending a new key. */
  lemma MirrorsMapSet(keys: seq<string>, entries: map<string, UsageRow>,
                      rec: ConversationRecord, mtimeMs: int, parse: DateParser, p: seq<Message>, m: Message)
    requires MirrorsMap(keys, entries, rec, mtimeMs, parse, p)
    requires IsTokenBearing(m)
    ensures var id := m.id.value;
      MirrorsMap(if id in entries then keys else keys + [id],
                 entries[id := MakeRow(rec, mtimeMs, parse, m)], rec, mtimeMs, parse, p + [m])
  {
    var p' := p + [m];
    assert p'[..|p|] == p;
    var id := m.id.value;
    assert QualifyingIds(p') == QualifyingIds(p) + [id];
    DistinctSameElements(QualifyingIds(p));
    var entries' := entries[id := MakeRow(rec, mtimeMs, parse, m)];
    forall x | x in entries'
      ensures entries'[x] == MakeRow(rec, mtimeMs, parse, p'[LastIndex(p', x)])
    {
      if x != id {
        LastIndexOfExtension(p, m, x);
      }
    }
  }

  /** One iteration of the loop of src/parser.ts:52-78 keeps MirrorsMap. */
  lemma MirrorsMapStep(keys: seq<string>, entries: map<string, UsageRow>,
                       rec: ConversationRecord, mtimeMs: int, parse: DateParser, p: seq<Message>, m: Message)
    requires MirrorsMap(keys, entries, rec, mtimeMs, parse, p)
    ensures !IsTokenBearing(m) ==> MirrorsMap(keys, entries, rec, mtimeMs, parse, p + [m])
    ensures IsTokenBearing(m) ==>
      var id := m.id.value;
      MirrorsMap(if id in entries then keys else keys + [id],
                 entries[id := MakeRow(rec, mtimeMs, parse, m)], rec, mtimeMs, parse, p + [m])
  {
    if IsTokenBearing(m) {
      MirrorsMapSet(keys, entries, rec, mtimeMs, parse, p, m);
    } else {
      MirrorsMapSkip(keys, entries, rec, mtimeMs, parse, p, m);
    }
  }

  /** src/parser.ts:44-81. The source's `Map` is the pair (keys in
      insertion order, entries); `set` of a known key replaces its value in
      place, of a new key appends the key. */
  method ParseSessionFileRows(rec: ConversationRecord, mtimeMs: int, parse: DateParser)
    returns (rows: seq<UsageRow>)
    ensures rows == SessionRows(rec, mtimeMs, parse)
  {
    var msgs := rec.messages;
    var keys: seq<string> := [];
    var entries: map<string, UsageRow> := map[];
    for i := 0 to |msgs|
      invariant MirrorsMap(keys, entries, rec, mtimeMs, parse, msgs[..i])
    {
      var msg := msgs[i];
      MirrorsMapStep(keys, entries, rec, mtimeMs, parse, msgs[..i], msg);
      assert msgs[..i + 1] == msgs[..i] + [msg];
      if !IsTokenBearing(msg) {
        continue;
      }
      var usage := MakeRow(rec, mtimeMs, parse, msg);
      var id := msg.id.value;
      if id !in entries {
        keys := keys + [id];
      }
      entries := entries[id := usage];
    }
    assert msgs[..|msgs|] == msgs;
    DistinctSameElements(QualifyingIds(msgs));
    rows := seq(|keys|, k requires 0 <= k < |keys| => entries[keys[k]]);
  }

  /** Appending a message that does not carry id `x` leaves the last
      position of `x` where it was. */
  lemma LastIndexOfExtension(p: seq<Message>, m: Message, x: string)
    requires x in QualifyingIds(p)
    requires !(IsTokenBearing(m) && m.id.value == x)
    ensures x in QualifyingIds(p + [m])
    ensures LastIndex(p + [m], x) == LastIndex(p, x)
    ensures (p + [m])[LastIndex(p, x)] == p[LastIndex(p, x)]
  {
    assert (p + [m])[..|p|] == p;
  }
}
