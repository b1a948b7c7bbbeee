/** The log analyser: a log file's lines are parsed into entries under a
    fixed four-field grammar, then either filtered by level and listed, or
    counted per level and shown as an aligned table. Reading the file and
    printing are replaced by a sequence of input lines and a sequence of
    output lines, one per `print` call. */
module ScriptLogger {
  import opened Wrappers
  import opened Text

  /** One parsed log line: `<date> <time> <level> <message>`. */
  datatype LogEntry = LogEntry(date: string, time: string, level: string, message: string)

  /** The `ValueError` raised for a line with fewer than four fields; it
      carries the raw line. */
  datatype LogError = InvalidLogFormat(line: string)

  const InvalidPrefix: string := "Invalid log format: "

  /** The text of the error, from which the raw line can be read back. */
  function ErrorText(e: LogError): (r: string)
    ensures |r| == |InvalidPrefix| + |e.line|
    ensures r[..|InvalidPrefix|] == InvalidPrefix && r[|InvalidPrefix|..] == e.line
  {
    InvalidPrefix + e.line
  }

  // ---------------------------------------------------------------------
  // parse_log_line
  // ---------------------------------------------------------------------

  /** `line.strip().split(maxsplit=3)`, rejected when it has fewer than four
      parts. */
  function ParseLogLine(line: string): Result<LogEntry, LogError> {
    var parts := SplitMax(Strip(line), 3);
    if |parts| < 4 then Failure(InvalidLogFormat(line))
    else Success(LogEntry(parts[0], parts[1], parts[2], parts[3]))
  }

  /** A line is rejected, with its raw text, exactly when the stripped line
      has fewer than four words; otherwise date, time and level are its
      first three words. */
  lemma ParseLogLineSpec(line: string)
    ensures var r := ParseLogLine(line);
      var ws := Words(Strip(line));
      && (r.Failure? <==> |ws| < 4)
      && (r.Failure? ==> r.error == InvalidLogFormat(line))
      && (r.Success? ==> r.value.date == ws[0] && r.value.time == ws[1] && r.value.level == ws[2])
  {
    SplitMaxShape(Strip(line), 3);
  }

  /** Every field of a parsed entry is non-empty; date, time and level hold
      no whitespace; the message is the part of the stripped line that
      follows the third word and the whitespace after it, kept as it is
      (inner whitespace included), so its words are the words after the
      third and it neither starts nor ends with whitespace. */
  lemma ParseLogLineFields(line: string)
    requires ParseLogLine(line).Success?
    ensures var e := ParseLogLine(line).value;
      && e.date != [] && NoSpace(e.date)
      && e.time != [] && NoSpace(e.time)
      && e.level != [] && NoSpace(e.level)
      && e.message != [] && !IsSpace(e.message[0]) && !IsSpace(e.message[|e.message| - 1])
      && |Words(Strip(line))| >= 4 && Words(e.message) == Words(Strip(line))[3..]
      && exists j :: 0 < j < |Strip(line)| && IsSpace(Strip(line)[j - 1]) && e.message == Strip(line)[j..]
  {
    var s := Strip(line);
    ParseLogLineSpec(line);
    SplitMaxShape(s, 3);
    WordsAreTokens(s);
    var j := RestStart(s, 0, 3);
    assert s[j..] == ParseLogLine(line).value.message;
  }

  /** A well-formed entry: three whitespace-free fields and a message that
      neither starts nor ends with whitespace. */
  predicate WellFormed(e: LogEntry) {
    && e.date != [] && NoSpace(e.date)
    && e.time != [] && NoSpace(e.time)
    && e.level != [] && NoSpace(e.level)
    && e.message != [] && !IsSpace(e.message[0]) && !IsSpace(e.message[|e.message| - 1])
  }

  /** The line a log file holds for an entry, fields separated by one space. */
  function FormatEntry(e: LogEntry): string {
    e.date + " " + e.time + " " + e.level + " " + e.message
  }

  /** Parsing the line of a well-formed entry gives the entry back. */
  lemma ParseFormatEntry(e: LogEntry)
    requires WellFormed(e)
    ensures ParseLogLine(FormatEntry(e)) == Success(e)
  {
    var m := e.message;
    var r2 := e.level + (" " + m);
    var r1 := e.time + (" " + r2);
    var s := e.date + (" " + r1);
    assert FormatEntry(e) == s;
    StripKeeps(s);
    SplitMaxNone(m);
    SplitMaxWordSpace(e.level, m, 0);
    SplitMaxWordSpace(e.time, r2, 1);
    SplitMaxWordSpace(e.date, r1, 2);
    assert SplitMax(s, 3) == [e.date, e.time, e.level, m];
  }

  // ---------------------------------------------------------------------
  // load_logs
  // ---------------------------------------------------------------------

  /** A line that `load_logs` skips: one with nothing but whitespace. */
  predicate IsBlank(line: string) {
    AllSpace(line)
  }

  /** Blank lines are exactly the ones that are falsy after `strip()`. */
  lemma BlankIffStripEmpty(line: string)
    ensures IsBlank(line) <==> Strip(line) == []
  {
    StripEmptyIffAllSpace(line);
  }

  /** A line that `load_logs` parses and that fails to parse. */
  predicate IsMalformed(line: string) {
    !IsBlank(line) && ParseLogLine(line).Failure?
  }

  /** The lines that are not blank, in their order. */
  function NonBlank(lines: seq<string>): (r: seq<string>)
    ensures |r| <= |lines|
    ensures forall i :: 0 <= i < |r| ==> !IsBlank(r[i])
  {
    if lines == [] then []
    else (if IsBlank(lines[0]) then [] else [lines[0]]) + NonBlank(lines[1..])
  }

  /** The lines kept are exactly the input lines that are not blank. */
  lemma {:induction false} NonBlankMembers(lines: seq<string>)
    ensures forall x :: x in NonBlank(lines) <==> x in lines && !IsBlank(x)
  {
    if lines != [] {
      NonBlankMembers(lines[1..]);
      assert lines == [lines[0]] + lines[1..];
    }
  }

  /** Dropping blank lines works piece by piece, so it keeps the order. */
  lemma {:induction false} NonBlankAppend(a: seq<string>, b: seq<string>)
    ensures NonBlank(a + b) == NonBlank(a) + NonBlank(b)
  {
    if a == [] {
      assert a + b == b;
    } else {
      assert (a + b)[0] == a[0] && (a + b)[1..] == a[1..] + b;
      NonBlankAppend(a[1..], b);
    }
  }

  /** What `load_logs` makes of one line: a blank line is skipped, any other
      line is parsed, which gives an entry or the error that is raised. */
  datatype LineOutcome = Skipped | Parsed(entry: LogEntry) | Rejected(error: LogError)

  function ReadLine(line: string): (o: LineOutcome)
    ensures o.Skipped? <==> IsBlank(line)
    ensures o.Rejected? <==> IsMalformed(line)
    ensures o.Rejected? ==> o.error == InvalidLogFormat(line)
    ensures o.Parsed? ==> ParseLogLine(line) == Success(o.entry)
  {
    if IsBlank(line) then Skipped
    else
      match ParseLogLine(line)
      case Success(e) => Parsed(e)
      case Failure(err) => Rejected(err)
  }

  /** The outcomes of a run of lines, collected in order: the entries, or
      the error of the first rejected line. */
  function Collect(os: seq<LineOutcome>): Result<seq<LogEntry>, LogError> {
    if os == [] then Success([])
    else
      match os[0]
      case Skipped => Collect(os[1..])
      case Rejected(e) => Failure(e)
      case Parsed(entry) =>
        match Collect(os[1..])
        case Failure(e) => Failure(e)
        case Success(rest) => Success([entry] + rest)
  }

  /** `load_logs` over the file's lines: the list comprehension parses every
      non-blank line, and the first line that fails to parse aborts the
      whole load. */
  function LoadLogs(lines: seq<string>): Result<seq<LogEntry>, LogError> {
    Collect(seq(|lines|, i requires 0 <= i < |lines| => ReadLine(lines[i])))
  }

  lemma {:induction false} CollectSucceeds(os: seq<LineOutcome>)
    ensures Collect(os).Success? <==> forall i :: 0 <= i < |os| ==> !os[i].Rejected?
  {
    if os != [] {
      CollectSucceeds(os[1..]);
      assert forall i :: 1 <= i < |os| ==> os[i] == os[1..][i - 1];
    }
  }

  /** The parsed entries among the outcomes, in order. */
  function ParsedEntries(os: seq<LineOutcome>): seq<LogEntry> {
    if os == [] then []
    else (if os[0].Parsed? then [os[0].entry] else []) + ParsedEntries(os[1..])
  }

  lemma {:induction false} CollectEntries(os: seq<LineOutcome>)
    requires Collect(os).Success?
    ensures Collect(os).value == ParsedEntries(os)
  {
    if os != [] {
      CollectEntries(os[1..]);
    }
  }

  lemma {:induction false} CollectFirstError(os: seq<LineOutcome>)
    requires Collect(os).Failure?
    ensures exists k :: (0 <= k < |os| && os[k].Rejected? && Collect(os).error == os[k].error
      && forall i :: 0 <= i < k ==> !os[i].Rejected?)
  {
    if os[0].Rejected? {
      assert 0 < |os| && os[0].Rejected? && Collect(os).error == os[0].error;
    } else {
      CollectFirstError(os[1..]);
      var k :| 0 <= k < |os[1..]| && os[1..][k].Rejected? && Collect(os[1..]).error == os[1..][k].error
        && (forall i :: 0 <= i < k ==> !os[1..][i].Rejected?);
      assert os[k + 1] == os[1..][k];
      assert forall i :: 1 <= i < k + 1 ==> os[i] == os[1..][i - 1];
    }
  }

  /** Outcomes are collected piece by piece as long as nothing is rejected. */
  lemma {:induction false} CollectAppend(a: seq<LineOutcome>, b: seq<LineOutcome>)
    requires Collect(a).Success?
    ensures Collect(a + b) == match Collect(b)
      case Failure(e) => Failure(e)
      case Success(rest) => Success(Collect(a).value + rest)
  {
    if a == [] {
      assert a + b == b;
      if Collect(b).Success? {
        assert Collect(a).value + Collect(b).value == Collect(b).value;
      }
    } else {
      assert (a + b)[0] == a[0] && (a + b)[1..] == a[1..] + b;
      assert Collect(a[1..]).Success?;
      CollectAppend(a[1..], b);
      if a[0].Parsed? {
        assert Collect(a).value == [a[0].entry] + Collect(a[1..]).value;
        if Collect(b).Success? {
          assert [a[0].entry] + (Collect(a[1..]).value + Collect(b).value)
            == Collect(a).value + Collect(b).value;
        }
      }
    }
  }

  /** The load succeeds exactly when no line is malformed; blank lines never
      make it fail. */
  lemma LoadLogsSucceeds(lines: seq<string>)
    ensures LoadLogs(lines).Success? <==> forall i :: 0 <= i < |lines| ==> !IsMalformed(lines[i])
  {
    var os := seq(|lines|, i requires 0 <= i < |lines| => ReadLine(lines[i]));
    CollectSucceeds(os);
    assert forall i :: 0 <= i < |lines| ==> os[i] == ReadLine(lines[i]);
  }

  lemma {:induction false} ParsedEntriesOfLines(lines: seq<string>)
    requires forall i :: 0 <= i < |lines| ==> !IsMalformed(lines[i])
    ensures var es := ParsedEntries(seq(|lines|, i requires 0 <= i < |lines| => ReadLine(lines[i])));
      && |es| == |NonBlank(lines)|
      && forall i :: 0 <= i < |es| ==> ParseLogLine(NonBlank(lines)[i]) == Success(es[i])
  {
    if lines != [] {
      var os := seq(|lines|, i requires 0 <= i < |lines| => ReadLine(lines[i]));
      var os' := seq(|lines| - 1, i requires 0 <= i < |lines| - 1 => ReadLine(lines[1..][i]));
      assert os[1..] == os';
      assert !IsMalformed(lines[0]);
      ParsedEntriesOfLines(lines[1..]);
    }
  }

  /** On success there is one entry per non-blank line, and entry i is the
      parse of the i-th non-blank line. */
  lemma LoadLogsEntries(lines: seq<string>)
    requires LoadLogs(lines).Success?
    ensures var logs := LoadLogs(lines).value;
      && |logs| == |NonBlank(lines)|
      && forall i :: 0 <= i < |logs| ==> ParseLogLine(NonBlank(lines)[i]) == Success(logs[i])
  {
    var os := seq(|lines|, i requires 0 <= i < |lines| => ReadLine(lines[i]));
    CollectEntries(os);
    LoadLogsSucceeds(lines);
    ParsedEntriesOfLines(lines);
  }

  /** On failure the error is the one of the first malformed line. */
  lemma LoadLogsFirstError(lines: seq<string>)
    requires LoadLogs(lines).Failure?
    ensures exists k :: (0 <= k < |lines| && IsMalformed(lines[k])
      && LoadLogs(lines).error == InvalidLogFormat(lines[k])
      && forall i :: 0 <= i < k ==> !IsMalformed(lines[i]))
  {
    var os := seq(|lines|, i requires 0 <= i < |lines| => ReadLine(lines[i]));
    CollectFirstError(os);
    var k :| 0 <= k < |os| && os[k].Rejected? && Collect(os).error == os[k].error
      && (forall i :: 0 <= i < k ==> !os[i].Rejected?);
    assert os[k] == ReadLine(lines[k]);
    assert forall i :: 0 <= i < k ==> os[i] == ReadLine(lines[i]);
  }

  /** A malformed line after loadable ones fails the load with its error,
      whatever follows it: no partial list is returned. */
  lemma LoadLogsAborts(good: seq<string>, bad: string, rest: seq<string>)
    requires LoadLogs(good).Success? && IsMalformed(bad)
    ensures LoadLogs(good + [bad] + rest) == Failure(InvalidLogFormat(bad))
  {
    var lines := good + [bad] + rest;
    var os := seq(|lines|, i requires 0 <= i < |lines| => ReadLine(lines[i]));
    var a := seq(|good|, i requires 0 <= i < |good| => ReadLine(good[i]));
    var b := os[|good|..];
    assert os == a + b by {
      assert forall i :: 0 <= i < |good| ==> lines[i] == good[i];
    }
    assert Collect(b) == Failure(InvalidLogFormat(bad)) by {
      assert lines[|good|] == bad;
      assert b[0] == ReadLine(bad);
    }
    CollectAppend(a, b);
  }

  // ---------------------------------------------------------------------
  // filter_logs_by_level and count_logs_by_level
  // ---------------------------------------------------------------------

  /** The entries whose stored level is `level`, in their order. */
  function WithLevel(logs: seq<LogEntry>, level: string): (r: seq<LogEntry>)
    ensures |r| <= |logs|
    ensures forall i :: 0 <= i < |r| ==> r[i].level == level
  {
    if logs == [] then []
    else (if logs[0].level == level then [logs[0]] else []) + WithLevel(logs[1..], level)
  }

  /** An entry is kept exactly when it is present with that level. */
  lemma {:induction false} WithLevelMembers(logs: seq<LogEntry>, level: string)
    ensures forall e :: e in WithLevel(logs, level) <==> e in logs && e.level == level
  {
    if logs != [] {
      WithLevelMembers(logs[1..], level);
      assert logs == [logs[0]] + logs[1..];
    }
  }

  /** Filtering works piece by piece, so it keeps the order of the entries. */
  lemma {:induction false} WithLevelAppend(a: seq<LogEntry>, b: seq<LogEntry>, level: string)
    ensures WithLevel(a + b, level) == WithLevel(a, level) + WithLevel(b, level)
  {
    if a == [] {
      assert a + b == b;
    } else {
      assert (a + b)[0] == a[0] && (a + b)[1..] == a[1..] + b;
      WithLevelAppend(a[1..], b, level);
    }
  }

  /** `filter_logs_by_level`: the entries whose level equals the query
      upper-cased; no match is an empty list. */
  function FilterLogsByLevel(logs: seq<LogEntry>, level: string): (r: seq<LogEntry>)
    ensures forall i :: 0 <= i < |r| ==> r[i].level == Upper(level)
    ensures forall e :: e in r <==> e in logs && e.level == Upper(level)
  {
    WithLevelMembers(logs, Upper(level));
    WithLevel(logs, Upper(level))
  }

  /** Filtering splits over concatenation and keeps a single entry exactly
      when its level is the upper-cased query: together these fix the result
      as the order-preserving subsequence of matching entries. */
  lemma FilterLogsByLevelParts(a: seq<LogEntry>, b: seq<LogEntry>, e: LogEntry, level: string)
    ensures FilterLogsByLevel(a + b, level) == FilterLogsByLevel(a, level) + FilterLogsByLevel(b, level)
    ensures FilterLogsByLevel([e], level) == if e.level == Upper(level) then [e] else []
  {
    WithLevelAppend(a, b, Upper(level));
    assert [e][1..] == [];
  }

  /** The query's case does not matter. */
  lemma FilterIgnoresCase(logs: seq<LogEntry>, level: string)
    ensures FilterLogsByLevel(logs, Upper(level)) == FilterLogsByLevel(logs, level)
  {
    UpperIdempotent(level);
  }

  /** How many entries have the level. */
  function LevelCount(logs: seq<LogEntry>, level: string): nat {
    |WithLevel(logs, level)|
  }

  /** The distinct levels present. */
  function Levels(logs: seq<LogEntry>): set<string> {
    if logs == [] then {} else {logs[0].level} + Levels(logs[1..])
  }

  /** A level is present exactly when some entry has it. */
  lemma {:induction false} LevelsPresent(logs: seq<LogEntry>)
    ensures forall l :: l in Levels(logs) <==> exists i :: 0 <= i < |logs| && logs[i].level == l
  {
    if logs != [] {
      LevelsPresent(logs[1..]);
      assert forall i :: 1 <= i < |logs| ==> logs[i] == logs[1..][i - 1];
      forall l | exists i :: 0 <= i < |logs| && logs[i].level == l
        ensures l in Levels(logs)
      {
        var i :| 0 <= i < |logs| && logs[i].level == l;
        if i > 0 {
          assert logs[1..][i - 1].level == l;
        }
      }
    }
  }

  /** A level no entry has is counted zero times. */
  lemma {:induction false} LevelCountAbsent(logs: seq<LogEntry>, l: string)
    requires l !in Levels(logs)
    ensures LevelCount(logs, l) == 0
  {
    if logs != [] {
      LevelCountAbsent(logs[1..], l);
    }
  }

  /** `Counter(log["level"] for log in logs)`: the keys are the distinct
      levels present, each mapped to its number of entries. */
  function CountLogsByLevel(logs: seq<LogEntry>): (m: map<string, nat>)
    ensures m.Keys == Levels(logs)
    ensures forall l :: l in m ==> m[l] == LevelCount(logs, l) && m[l] >= 1
    ensures logs == [] ==> m == map[]
  {
    if logs == [] then map[]
    else
      var m := CountLogsByLevel(logs[1..]);
      var l := logs[0].level;
      CountStep(logs, m);
      m[l := (if l in m then m[l] else 0) + 1]
  }

  /** One more entry in front adds its level and one to its count. */
  lemma CountStep(logs: seq<LogEntry>, m: map<string, nat>)
    requires logs != []
    requires m.Keys == Levels(logs[1..])
    requires forall l :: l in m ==> m[l] == LevelCount(logs[1..], l) && m[l] >= 1
    ensures var l := logs[0].level;
      var m' := m[l := (if l in m then m[l] else 0) + 1];
      && m'.Keys == Levels(logs)
      && forall k :: k in m' ==> m'[k] == LevelCount(logs, k) && m'[k] >= 1
  {
    var l := logs[0].level;
    if l !in m {
      LevelCountAbsent(logs[1..], l);
    }
  }

  /** No two elements are equal. */
  predicate Distinct(ks: seq<string>) {
    forall i, j :: 0 <= i < j < |ks| ==> ks[i] != ks[j]
  }

  lemma SortedDistinct(ks: seq<string>)
    requires StrictlySorted(ks)
    ensures Distinct(ks)
  {
    forall i, j | 0 <= i < j < |ks|
      ensures ks[i] != ks[j]
    {
      LexLessIrreflexive(ks[i]);
    }
  }

  /** The counts listed against `ks`, added up. */
  function SumCounts(m: map<string, nat>, ks: seq<string>): nat
    requires forall i :: 0 <= i < |ks| ==> ks[i] in m
  {
    if ks == [] then 0 else m[ks[0]] + SumCounts(m, ks[1..])
  }

  /** The number of entries with each level of `ks`, added up. */
  function SumLevelCounts(logs: seq<LogEntry>, ks: seq<string>): nat {
    if ks == [] then 0 else LevelCount(logs, ks[0]) + SumLevelCounts(logs, ks[1..])
  }

  /** How often `x` occurs in `ks`. */
  function Occurrences(ks: seq<string>, x: string): nat {
    if ks == [] then 0 else (if ks[0] == x then 1 else 0) + Occurrences(ks[1..], x)
  }

  lemma {:induction false} OccursOnce(ks: seq<string>, x: string)
    requires Distinct(ks) && x in ks
    ensures Occurrences(ks, x) == 1
  {
    if ks[0] == x {
      NotOccurring(ks[1..], x);
    } else {
      OccursOnce(ks[1..], x);
    }
  }

  lemma {:induction false} NotOccurring(ks: seq<string>, x: string)
    requires x !in ks
    ensures Occurrences(ks, x) == 0
  {
    if ks != [] {
      NotOccurring(ks[1..], x);
    }
  }

  /** One more entry adds one to the sum for each occurrence of its level. */
  lemma {:induction false} SumLevelCountsCons(e: LogEntry, logs: seq<LogEntry>, ks: seq<string>)
    ensures SumLevelCounts([e] + logs, ks) == SumLevelCounts(logs, ks) + Occurrences(ks, e.level)
  {
    if ks != [] {
      assert ([e] + logs)[0] == e && ([e] + logs)[1..] == logs;
      SumLevelCountsCons(e, logs, ks[1..]);
    }
  }

  /** Over distinct levels covering every entry, the counts add up to the
      number of entries. */
  lemma {:induction false} SumLevelCountsTotal(logs: seq<LogEntry>, ks: seq<string>)
    requires Distinct(ks) && forall e :: e in logs ==> e.level in ks
    ensures SumLevelCounts(logs, ks) == |logs|
  {
    if logs == [] {
      ZeroCounts(ks);
    } else {
      assert logs == [logs[0]] + logs[1..];
      SumLevelCountsTotal(logs[1..], ks);
      SumLevelCountsCons(logs[0], logs[1..], ks);
      OccursOnce(ks, logs[0].level);
    }
  }

  lemma {:induction false} ZeroCounts(ks: seq<string>)
    ensures SumLevelCounts([], ks) == 0
  {
    if ks != [] {
      ZeroCounts(ks[1..]);
    }
  }

  lemma {:induction false} SumCountsOfCounter(logs: seq<LogEntry>, ks: seq<string>)
    requires forall i :: 0 <= i < |ks| ==> ks[i] in CountLogsByLevel(logs)
    ensures SumCounts(CountLogsByLevel(logs), ks) == SumLevelCounts(logs, ks)
  {
    if ks != [] {
      SumCountsOfCounter(logs, ks[1..]);
    }
  }

  /** The counts, taken in the order the table lists them, add up to the
      number of entries. */
  lemma CountsSumToTotal(logs: seq<LogEntry>)
    ensures var m := CountLogsByLevel(logs);
      SumCounts(m, SortedStrings(m.Keys)) == |logs|
  {
    var m := CountLogsByLevel(logs);
    var ks := SortedStrings(m.Keys);
    SortedDistinct(ks);
    assert forall i :: 0 <= i < |ks| ==> ks[i] in m by {
      forall i | 0 <= i < |ks| ensures ks[i] in m {
        assert ks[i] in ks;
      }
    }
    assert forall e :: e in logs ==> e.level in ks by {
      LevelsCover(logs);
    }
    SumCountsOfCounter(logs, ks);
    SumLevelCountsTotal(logs, ks);
  }

  /** Every entry's level is among the levels present. */
  lemma LevelsCover(logs: seq<LogEntry>)
    ensures forall e :: e in logs ==> e.level in Levels(logs)
  {
    LevelsPresent(logs);
    forall e | e in logs ensures e.level in Levels(logs) {
      var i :| 0 <= i < |logs| && logs[i] == e;
    }
  }

  // ---------------------------------------------------------------------
  // The count table
  // ---------------------------------------------------------------------

  /** The length of the longest string of `ks` (0 when there is none). */
  function MaxLength(ks: seq<string>): (w: nat)
    ensures forall i :: 0 <= i < |ks| ==> |ks[i]| <= w
    ensures ks == [] ==> w == 0
    ensures ks != [] ==> exists i :: 0 <= i < |ks| && |ks[i]| == w
  {
    if ks == [] then 0
    else
      var w := MaxLength(ks[1..]);
      if |ks[0]| >= w then |ks[0]| else w
  }

  /** `calculate_level_width`: the header's length or the longest level's,
      whichever is more. */
  function CalculateLevelWidth(counts: map<string, nat>, header: string): (w: nat)
    ensures w >= |header|
    ensures forall l :: l in counts ==> |l| <= w
    ensures w == |header| || exists l :: l in counts && |l| == w
    ensures counts == map[] ==> w == |header|
  {
    var ks := SortedStrings(counts.Keys);
    assert forall l :: l in counts ==> l in ks;
    var longest := MaxLength(ks);
    if |header| >= longest then |header| else longest
  }

  /** The two lines `print_table_header` prints: the level header padded to
      the width, ` | ` and the count header; then a rule of dashes with a
      bar under the column separator, as long as the header line. */
  function TableHeader(levelHeader: string, countHeader: string, width: nat): (lines: seq<string>)
    ensures |lines| == 2 && |lines[0]| >= |levelHeader| + 3 + |countHeader|
    ensures lines[0][..|levelHeader|] == levelHeader
    ensures lines[0][|lines[0]| - |countHeader|..] == countHeader
    ensures |levelHeader| <= width ==>
      && |lines[0]| == |lines[1]| == width + 3 + |countHeader|
      && lines[0][width..width + 3] == " | " && lines[1][width + 1] == '|'
    ensures forall i :: 0 <= i < |lines[1]| && i != width + 1 ==> lines[1][i] == '-'
    ensures forall i :: |levelHeader| <= i < width ==> lines[0][i] == ' '
  {
    var first := PadRight(levelHeader, width) + " | " + countHeader;
    var rule := Repeat('-', width) + "-|" + Repeat('-', |countHeader| + 1);
    assert first[..|levelHeader|] == PadRight(levelHeader, width)[..|levelHeader|];
    [first, rule]
  }

  /** One line of `print_table_rows`: the level padded to the width, ` | `
      and the count in decimal. */
  function TableRow(level: string, count: nat, width: nat): string {
    PadRight(level, width) + " | " + NatToString(count)
  }

  /** A row holds the level, spaces up to the width, the separator in the
      same column as the header's, and digits that read back as the count. */
  lemma TableRowLayout(level: string, count: nat, width: nat)
    requires |level| <= width
    ensures var row := TableRow(level, count, width);
      && |row| > width + 3
      && row[..|level|] == level
      && (forall i :: |level| <= i < width ==> row[i] == ' ')
      && row[width..width + 3] == " | "
      && DecimalValue(row[width + 3..]) == count
      && (row[width + 3] == '0' ==> count == 0)
  {
    var row := TableRow(level, count, width);
    var pad := PadRight(level, width);
    assert row[..|level|] == pad[..|level|];
    assert row[width + 3..] == NatToString(count);
    NatToStringRoundTrip(count);
  }

  /** `print_table_rows`: one row per level, levels in ascending order. */
  method PrintTableRows(counts: map<string, nat>, width: nat) returns (out: seq<string>)
    ensures var levels := SortedStrings(counts.Keys);
      && |out| == |levels| == |counts|
      && forall i :: 0 <= i < |out| ==> levels[i] in counts && out[i] == TableRow(levels[i], counts[levels[i]], width)
  {
    var levels := SortedStrings(counts.Keys);
    out := [];
    var i := 0;
    while i < |levels|
      invariant 0 <= i <= |levels| && |out| == i
      invariant forall k :: 0 <= k < i ==> levels[k] in counts && out[k] == TableRow(levels[k], counts[levels[k]], width)
    {
      assert levels[i] in counts;
      out := out + [TableRow(levels[i], counts[levels[i]], width)];
      i := i + 1;
    }
  }

  const HeaderLevel: string := "Рівень логування"
  const HeaderCount: string := "Кількість"

  /** `display_log_counts`: the header, then one row per level, all with
      the width `calculate_level_width` gives for the level header. */
  method DisplayLogCounts(counts: map<string, nat>) returns (out: seq<string>)
    ensures var w := CalculateLevelWidth(counts, HeaderLevel);
      var levels := SortedStrings(counts.Keys);
      && |out| == 2 + |counts|
      && out[..2] == TableHeader(HeaderLevel, HeaderCount, w)
      && forall i :: 0 <= i < |counts| ==> levels[i] in counts && out[2 + i] == TableRow(levels[i], counts[levels[i]], w)
  {
    var w := CalculateLevelWidth(counts, HeaderLevel);
    var header := TableHeader(HeaderLevel, HeaderCount, w);
    var rows := PrintTableRows(counts, w);
    out := header + rows;
    assert out[..2] == header;
    assert forall i :: 0 <= i < |rows| ==> out[2 + i] == rows[i];
  }

  /** Every line of the count table has its bar in the same column. */
  lemma CountTableAligned(counts: map<string, nat>, level: string)
    requires level in counts
    ensures var w := CalculateLevelWidth(counts, HeaderLevel);
      && TableHeader(HeaderLevel, HeaderCount, w)[0][w + 1] == '|'
      && TableHeader(HeaderLevel, HeaderCount, w)[1][w + 1] == '|'
      && TableRow(level, counts[level], w)[w + 1] == '|'
  {
    var w := CalculateLevelWidth(counts, HeaderLevel);
    TableRowLayout(level, counts[level], w);
    assert TableRow(level, counts[level], w)[w..w + 3][1] == '|';
  }

  // ---------------------------------------------------------------------
  // display_filtered_logs
  // ---------------------------------------------------------------------

  /** The notice for a level with no entries. */
  function NoEntriesNotice(level: string): string {
    "\nНемає записів для рівня '" + level + "'."
  }

  /** The heading of the detail listing. */
  function DetailsHeading(level: string): string {
    "\nДеталі логів для рівня '" + level + "':"
  }

  /** One line of the detail listing: `date time - message`. */
  function DetailLine(e: LogEntry): string {
    e.date + " " + e.time + " - " + e.message
  }

  /** The words of a listed line are date, time, a dash and the message's
      words, so the listing drops only the level. */
  lemma DetailLineWords(e: LogEntry)
    requires e.date != [] && NoSpace(e.date) && e.time != [] && NoSpace(e.time)
    ensures Words(DetailLine(e)) == [e.date, e.time, "-"] + Words(e.message)
  {
    var w := Words(e.message);
    var t := "-" + (" " + e.message);
    var r := e.time + (" " + t);
    assert Words(t) == ["-"] + w by {
      assert NoSpace("-");
      WordsWordSpace("-", e.message);
    }
    assert Words(r) == [e.time, "-"] + w by {
      WordsWordSpace(e.time, t);
      assert [e.time] + (["-"] + w) == [e.time, "-"] + w;
    }
    assert Words(e.date + (" " + r)) == [e.date, e.time, "-"] + w by {
      WordsWordSpace(e.date, r);
      assert [e.date] + ([e.time, "-"] + w) == [e.date, e.time, "-"] + w;
    }
    DetailLineNested(e);
  }

  lemma DetailLineNested(e: LogEntry)
    ensures DetailLine(e) == e.date + (" " + (e.time + (" " + ("-" + (" " + e.message)))))
  {
  }

  /** `display_filtered_logs`: the notice naming the upper-cased level when
      there are no entries; otherwise the heading and one line per entry, in
      the given order. */
  method DisplayFilteredLogs(logs: seq<LogEntry>, level: string) returns (out: seq<string>)
    ensures logs == [] ==> out == [NoEntriesNotice(Upper(level))]
    ensures logs != [] ==>
      && |out| == |logs| + 1
      && out[0] == DetailsHeading(Upper(level))
      && forall i :: 0 <= i < |logs| ==> out[i + 1] == DetailLine(logs[i])
  {
    var upper := Upper(level);
    if logs == [] {
      out := [NoEntriesNotice(upper)];
      return;
    }
    out := [DetailsHeading(upper)];
    var i := 0;
    while i < |logs|
      invariant 0 <= i <= |logs| && |out| == i + 1
      invariant out[0] == DetailsHeading(upper)
      invariant forall k :: 0 <= k < i ==> out[k + 1] == DetailLine(logs[k])
    {
      out := out + [DetailLine(logs[i])];
      i := i + 1;
    }
  }
}
