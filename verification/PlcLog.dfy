/** The PLC log with its counters (app/src/plc_rte_log.c:40-41, 172-322), and what whole histories of it promise. */
module PlcLog {
  import opened Bytes
  import opened PlcConfig
  import opened Wrappers
  import opened LogSpec

  const NOT_FOUND := Message(0, "Message not found!", 0, 0, 0)

  /** The log file, if there is one, the next message ID and the number of entries of each level. */
  datatype State = State(file: Option<string>, indexes: seq<word>, counts: seq<word>) {
    predicate Valid() {
      |indexes| == |counts| == LOG_LEVELS
    }
  }

  /** `Silent`: the file could not be opened, and the message is left NULL. */
  datatype Reply = Silent | Answer(m: Message)

  const EMPTY := State(None, [0, 0, 0, 0], [0, 0, 0, 0])

  /** A 32-bit counter moved by `k`. */
  function Counted(w: word, k: int): word {
    U32(w as int + k)
  }

  /** LogMessage: the new state and the return value. */
  function Log(s: State, m: Message): (r: (State, int))
    requires s.Valid()
    ensures r.0.Valid()
  {
    if m.level >= LOG_LEVELS then (s, 0)
    else
      var content := if s.file.Some? then s.file.value else "";
      (State(Some(content + Line(s.indexes[m.level], m) + "\n"),
             s.indexes[m.level := Counted(s.indexes[m.level], 1)],
             s.counts[m.level := Counted(s.counts[m.level], 1)]), 1)
  }

  /** GetLogMessage: a message found lowers the number of entries of its level. */
  function Get(s: State, level: nat, id: nat): (r: (State, Reply))
    requires s.Valid()
    ensures r.0.Valid()
  {
    match s.file
    case None => (s, Silent)
    case Some(file) =>
      match Find(file, level, id)
      case None => (s, Answer(NOT_FOUND))
      case Some(m) =>
        (if level < LOG_LEVELS then s.(counts := s.counts[level := Counted(s.counts[level], -1)]) else s, Answer(m))
  }

  class LogStore {
    var file: Option<string>
    const indexes: array<word>
    const counts: array<word>

    ghost predicate Valid()
      reads this
    {
      indexes.Length == LOG_LEVELS == counts.Length && indexes != counts
    }

    function View(): (s: State)
      requires Valid()
      reads this, indexes, counts
      ensures s.Valid()
    {
      State(file, indexes[..], counts[..])
    }

    constructor ()
      ensures Valid() && View() == EMPTY && fresh(indexes) && fresh(counts)
    {
      file := None;
      indexes := new word[LOG_LEVELS](_ => 0);
      counts := new word[LOG_LEVELS](_ => 0);
    }

    /** LogMessage, whose log file may not open; then nothing changes. */
    method LogMessage(m: Message, opens: bool) returns (ret: int)
      requires Valid()
      modifies this, indexes, counts
      ensures Valid() && (View(), ret) == if opens then Log(old(View()), m) else (old(View()), 0)
    {
      hide Line;
      if m.level >= LOG_LEVELS {
        return 0;
      }
      if !opens {
        return 0;
      }
      var content := if file.Some? then file.value else "";
      var line := Line(indexes[m.level], m);
      indexes[m.level] := Counted(indexes[m.level], 1);
      file := Some(content + line + "\n");
      counts[m.level] := Counted(counts[m.level], 1);
      ret := 1;
    }

    /** GetLogMessage. */
    method GetLogMessage(level: nat, id: nat) returns (reply: Reply)
      requires Valid()
      modifies counts
      ensures Valid() && (View(), reply) == Get(old(View()), level, id)
    {
      hide Fgets, Match;
      if file.None? {
        return Silent;
      }
      var rest := file.value;
      var found: Option<Message> := None;
      while rest != "" && found.None?
        invariant Find(file.value, level, id) == if found.Some? then found else Find(rest, level, id)
        decreases |rest|
      {
        var (line, rest') := Fgets(rest, LINE_SIZE - 1);
        found := Match(line, level, id);
        rest := rest';
      }
      if found.None? {
        return Answer(NOT_FOUND);
      }
      if level < LOG_LEVELS {
        counts[level] := Counted(counts[level], -1);
      }
      reply := Answer(found.value);
    }

    /** ResetLogCount, whose log file may not be deleted; the counters are reset all the same. */
    method ResetLogCount(deletes: bool)
      requires Valid()
      modifies this, indexes, counts
      ensures Valid() && View() == EMPTY.(file := if deletes then None else old(file))
    {
      if deletes {
        file := None;
      }
      for i := 0 to LOG_LEVELS
        invariant file == (if deletes then None else old(file))
        invariant forall j :: 0 <= j < i ==> counts[j] == 0 && indexes[j] == 0
      {
        counts[i] := 0;
        indexes[i] := 0;
      }
    }
  }

  /** Logging answers 1 exactly for one of the four levels, and then counts the message and its ID at that level only.
      */
  lemma LogAnswers(s: State, m: Message, level: nat)
    requires s.Valid() && level < 4
    ensures Log(s, m).1 == if m.level < 4 then 1 else 0
    ensures m.level >= 4 ==> Log(s, m).0 == s
    ensures var s' := Log(s, m).0;
            && (level != m.level ==> s'.indexes[level] == s.indexes[level] && s'.counts[level] == s.counts[level])
            && (level == m.level ==>
                  && s'.indexes[level] == U32(s.indexes[level] as int + 1)
                  && s'.counts[level] == U32(s.counts[level] as int + 1))
  {
    hide Line, U32;
  }

  // ---------------------------------------------------------------- histories

  datatype Event = ResetEvent | LogEvent(m: Message) | GetEvent(level: nat, id: nat)

  function Next(s: State, e: Event): (s': State)
    requires s.Valid()
    ensures s'.Valid()
  {
    match e
    case ResetEvent => EMPTY
    case LogEvent(m) => Log(s, m).0
    case GetEvent(level, id) => Get(s, level, id).0
  }

  function Run(events: seq<Event>): (s: State)
    ensures s.Valid()
  {
    if events == [] then EMPTY else Next(Run(events[..|events| - 1]), events[|events| - 1])
  }

  /** The messages issued since the last reset. */
  function Issued(events: seq<Event>): seq<Message> {
    if events == [] then []
    else
      var before := Issued(events[..|events| - 1]);
      match events[|events| - 1]
      case ResetEvent => []
      case LogEvent(m) => if m.level < LOG_LEVELS then before + [m] else before
      case GetEvent(_, _) => before
  }

  /** Since the last reset: the successful reads of this level. */
  function Reads(events: seq<Event>, level: nat): nat {
    if events == [] then 0
    else
      var before := events[..|events| - 1];
      match events[|events| - 1]
      case ResetEvent => 0
      case LogEvent(_) => Reads(before, level)
      case GetEvent(l, id) =>
        Reads(before, level) + if l == level && id < |OfLevel(Issued(before), level)| then 1 else 0
  }

  /** After every prefix of the history: the messages fit their lines, and a level has fewer than 2^32 of them. */
  ghost predicate Modest(events: seq<Event>) {
    AllFit(Issued(events)) && (forall l :: 0 <= l < LOG_LEVELS ==> |OfLevel(Issued(events), l)| < 0x1_0000_0000)
    && (events == [] || Modest(events[..|events| - 1]))
  }

  predicate Mirrors(s: State, ms: seq<Message>)
    requires s.Valid()
  {
    && s.file == (if ms == [] then None else Some(FileOf(ms)))
    && forall l :: 0 <= l < LOG_LEVELS ==> s.indexes[l] == |OfLevel(ms, l)|
  }

  lemma LogMirrors(s: State, ms: seq<Message>, m: Message)
    requires s.Valid() && Mirrors(s, ms) && m.level < LOG_LEVELS && |OfLevel(ms + [m], m.level)| < 0x1_0000_0000
    ensures Mirrors(Log(s, m).0, ms + [m])
  {
    hide Line, FileOf, OfLevel;
    FileAppend(ms, m);
    forall l | 0 <= l < LOG_LEVELS
      ensures Log(s, m).0.indexes[l] == |OfLevel(ms + [m], l)|
    {
      OfLevelAppend(ms, m, l);
    }
    OfLevelAppend(ms, m, m.level);
  }

  lemma FileAppend(ms: seq<Message>, m: Message)
    ensures FileOf(ms + [m]) == FileOf(ms) + Line(|OfLevel(ms, m.level)|, m) + "\n"
    ensures FileOf([]) == ""
  {
    hide Line, OfLevel;
    assert (ms + [m])[..|ms|] == ms;
  }

  /** In every history the file and the next IDs are those of the messages issued since the last reset. */
  lemma {:induction false} LogMirrorsHistory(events: seq<Event>)
    requires Modest(events)
    ensures Mirrors(Run(events), Issued(events))
  {
    if events != [] {
      var before := events[..|events| - 1];
      LogMirrorsHistory(before);
      match events[|events| - 1]
      case ResetEvent =>
      case LogEvent(m) =>
        if m.level < LOG_LEVELS {
          LogMirrors(Run(before), Issued(before), m);
        }
      case GetEvent(level, id) =>
    }
  }

  /** The reply the log owes for a list of messages. */
  function Owed(ms: seq<Message>, level: nat, id: nat): Reply {
    if ms == [] then Silent
    else if id < |OfLevel(ms, level)| then
      Answer(OfLevel(ms, level)[id].(text := OfLevel(ms, level)[id].text + "\n"))
    else Answer(Message(0, "Message not found!", 0, 0, 0))
  }

  /** Log round trip: in every history, GetLogMessage answers the `id`-th message of the level since the last reset,
      with its tick, seconds and nanoseconds, or "Message not found!" if and only if that ID was never issued; only
      before the first message is there no answer at all. */
  lemma LogRoundTrip(events: seq<Event>, level: nat, id: nat)
    requires Modest(events)
    ensures Get(Run(events), level, id).1 == Owed(Issued(events), level, id)
    ensures Get(Run(events), level, id).1 == Answer(NOT_FOUND)
            <==> Issued(events) != [] && id >= |OfLevel(Issued(events), level)|
  {
    LogMirrorsHistory(events);
    hide Modest, FileOf, Find, Run;
    var ms := Issued(events);
    if ms != [] {
      FindInFile(ms, level, id);
      if id < |OfLevel(ms, level)| {
        var text := OfLevel(ms, level)[id].text + "\n";
        assert text[|text| - 1] != NOT_FOUND.text[|NOT_FOUND.text| - 1];
      }
    }
  }

  /** Since the last reset: the messages of this level issued less its successful reads. */
  function Unread(events: seq<Event>, level: nat): int {
    |OfLevel(Issued(events), level)| - Reads(events, level)
  }

  lemma CountAfterLog(before: seq<Event>, m: Message, level: nat)
    requires level < LOG_LEVELS && Run(before).counts[level] == U32(Unread(before, level))
    ensures Next(Run(before), LogEvent(m)).counts[level] == U32(Unread(before + [LogEvent(m)], level))
  {
    hide Run, Line, Unread, U32;
    UnreadAfterLog(before, m, level);
    U32Add(Unread(before, level), 1);
  }

  lemma UnreadAfterLog(before: seq<Event>, m: Message, level: nat)
    requires level < LOG_LEVELS
    ensures Unread(before + [LogEvent(m)], level) == Unread(before, level) + if m.level == level then 1 else 0
  {
    hide OfLevel;
    assert (before + [LogEvent(m)])[..|before|] == before;
    OfLevelAppend(Issued(before), m, level);
  }

  /** Only a successful read changes a counter: that of its own level, by one. */
  lemma GetCounts(s: State, ms: seq<Message>, l: nat, id: nat, level: nat)
    requires s.Valid() && Mirrors(s, ms) && AllFit(ms) && level < LOG_LEVELS
    ensures Get(s, l, id).0.counts[level]
            == if l == level && id < |OfLevel(ms, level)| then Counted(s.counts[level], -1) else s.counts[level]
  {
    FindInFile(ms, l, id);
    hide FileOf, Find, OfLevel, AllFit, Counted;
    assert ms == [] ==> OfLevel(ms, level) == [] by {
      NoneOfLevel(level);
    }
  }

  lemma NoneOfLevel(level: nat)
    ensures OfLevel([], level) == []
  {
  }

  lemma ModestFits(events: seq<Event>)
    requires Modest(events)
    ensures AllFit(Issued(events))
  {
  }

  lemma CountAfterGet(before: seq<Event>, l: nat, id: nat, level: nat)
    requires Modest(before) && level < LOG_LEVELS && Run(before).counts[level] == U32(Unread(before, level))
    ensures Next(Run(before), GetEvent(l, id)).counts[level] == U32(Unread(before + [GetEvent(l, id)], level))
  {
    hide Modest, Run, OfLevel, Get, Issued, Unread, Mirrors, AllFit, Reads, U32;
    LogMirrorsHistory(before);
    ModestFits(before);
    GetCounts(Run(before), Issued(before), l, id, level);
    UnreadAfterGet(before, l, id, level);
    U32Add(Unread(before, level), -1);
  }

  lemma UnreadAfterGet(before: seq<Event>, l: nat, id: nat, level: nat)
    ensures Unread(before + [GetEvent(l, id)], level)
            == Unread(before, level) - if l == level && id < |OfLevel(Issued(before), level)| then 1 else 0
  {
    hide OfLevel;
    assert (before + [GetEvent(l, id)])[..|before|] == before;
  }

  /** The entry counters are the messages issued less the successful reads, modulo 2^32. */
  lemma {:induction false} CountsAreUnread(events: seq<Event>, level: nat)
    requires Modest(events) && level < LOG_LEVELS
    ensures Run(events).counts[level] == U32(Unread(events, level))
  {
    if events != [] {
      hide Next, Unread;
      var before := events[..|events| - 1];
      CountsAreUnread(before, level);
      assert events == before + [events[|events| - 1]];
      match events[|events| - 1]
      case ResetEvent => CountAfterReset(before, level);
      case LogEvent(m) => CountAfterLog(before, m, level);
      case GetEvent(l, id) => CountAfterGet(before, l, id, level);
    } else {
      NothingIssued(level);
    }
  }

  lemma CountAfterReset(before: seq<Event>, level: nat)
    requires level < LOG_LEVELS
    ensures Next(Run(before), ResetEvent).counts[level] == U32(Unread(before + [ResetEvent], level))
  {
  }

  lemma NothingIssued(level: nat)
    requires level < LOG_LEVELS
    ensures Run([]).counts[level] == U32(Unread([], level))
  {
  }
}
