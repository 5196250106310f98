/**
  The GlusterFS log input plugin: a configuration frozen at construction and
  the per-line extractor parse_line, which turns one raw line into a skip
  signal or a (timestamp, record) pair.
 */
module GlusterfsLog {
  import opened Wrappers
  import opened LogPattern
  import opened FieldMap
  import opened CivilTime

  /** An event record: output field name to value. */
  type Record = map<string, string>

  /**
    The wall clock read by the fallback path: the date and the time of day
    that Time.now.utc.to_s splits into, and the same instant as to_i.
   */
  datatype Clock = Clock(date: string, time: string, seconds: int)

  /** What parse_line returns. */
  datatype Outcome =
    | Skip                               // return nil, nil
    | Event(time: int, record: Record)   // return time, record
    | Raised(error: TimeError)           // Time.strptime raised; the error is re-raised
    | Inherited                          // the values the tail parser itself assigned

  const DefaultLogLevels: string := "TDINWECA"
  const TimeFormat: string := "%Y-%m-%d %H:%M:%S"
  const FallbackLevel: string := "I"
  const FallbackComponent: string := "fluent-plugin-glusterfs"
  const FallbackPrefix: string := "Could not parse the line : "

  /** The output fields of a fallback record. */
  const FallbackKeys: set<string> := {"date", "time", "gluster_log_level", "component_name", "message", "hostname"}

  predicate IsLetter(ch: char) { 'A' <= ch <= 'Z' || 'a' <= ch <= 'z' }

  /** A severity alphabet that is safe to interpolate into a character class. */
  predicate ValidLevels(levels: string) {
    |levels| > 0 && forall k :: 0 <= k < |levels| ==> IsLetter(levels[k])
  }

  function InitTimeFormat(): (f: string)
    ensures f == TimeFormat
  {
    TimeFormat
  }

  /** The record of a matched line: a hash literal, in which a later duplicate name would overwrite an earlier one. */
  function MatchRecord(field: map<string, string>, c: Captures, hostname: string): (r: Record)
    requires SemanticKeys <= field.Keys
    ensures r.Keys == {field["date"], field["time"], field["time_usec"], field["gluster_log_level"], field["source_file_name"],
                       field["source_line"], field["function_name"], field["component_name"], field["message"], field["hostname"]}
    ensures r[field["hostname"]] == hostname
  {
    map[]
      [field["date"] := c.date]
      [field["time"] := c.time]
      [field["time_usec"] := c.usec]
      [field["gluster_log_level"] := c.level]
      [field["source_file_name"] := c.file]
      [field["source_line"] := c.line]
      [field["function_name"] := c.func]
      [field["component_name"] := c.component]
      [field["message"] := c.message]
      [field["hostname"] := hostname]
  }

  /** The diagnostic record of a line that starts with `[` but does not match. */
  function FallbackRecord(field: map<string, string>, line: string, clock: Clock, hostname: string): (r: Record)
    requires SemanticKeys <= field.Keys
    ensures r.Keys == {field["date"], field["time"], field["gluster_log_level"], field["component_name"], field["message"], field["hostname"]}
    ensures r[field["hostname"]] == hostname
  {
    map[]
      [field["date"] := clock.date]
      [field["time"] := clock.time]
      [field["gluster_log_level"] := FallbackLevel]
      [field["component_name"] := FallbackComponent]
      [field["message"] := FallbackPrefix + line]
      [field["hostname"] := hostname]
  }

  class GlusterfsLogInput {
    const handleParseFailure: bool
    const field: map<string, string>
    const hostname: string
    const timeFormat: string
    const regex: Regex

    /** The configuration every constructed plugin has. */
    predicate Valid() {
      && handleParseFailure
      && field == DefaultFieldMap()
      && timeFormat == TimeFormat
      && ValidLevels(regex.levels)
    }

    /**
      initialize: logLevels is the severity alphabet set when the object is
      created (the default "TDINWECA"), hostname the host name it resolves.
     */
    constructor (logLevels: string, hostname: string)
      requires ValidLevels(logLevels)
      ensures Valid()
      ensures regex == Regex(logLevels) && this.hostname == hostname
    {
      handleParseFailure := true;
      FieldConfigDistinct();
      var f := InitField(FieldConfig);
      InitFieldOfConfig(f);
      field := f;
      this.hostname := hostname;
      timeFormat := InitTimeFormat();
      regex := InitRegex(logLevels);
    }

    /** parse_line under a zone whose offset from UTC is utcOffset seconds. */
    function ParseLine(line: string, clock: Clock, utcOffset: int): (r: Outcome)
      requires Valid()
      ensures r.Skip? <==> |line| == 0 || line[0] != '['
      ensures !r.Inherited?
    {
      if |line| == 0 || line[0] != '[' then Skip
      else
        match Search(regex, line)
        case Some(m) =>
          var record := MatchRecord(field, m.caps, hostname);
          (match Strptime(record[field["date"]] + " " + record[field["time"]], utcOffset)
           case Success(t) => Event(t, record)
           case Failure(e) => Raised(e))
        case None =>
          if handleParseFailure then Event(clock.seconds, FallbackRecord(field, line, clock, hostname))
          else Inherited
    }
  }

  // ---------------------------------------------------------------------
  // Properties of parse_line
  // ---------------------------------------------------------------------

  /** The record holds exactly the nine captures and the host name, under the default field names. */
  predicate HoldsCaptures(rec: Record, c: Captures, hostname: string) {
    && rec.Keys == SemanticKeys
    && rec["date"] == c.date && rec["time"] == c.time && rec["time_usec"] == c.usec
    && rec["gluster_log_level"] == c.level && rec["source_file_name"] == c.file
    && rec["source_line"] == c.line && rec["function_name"] == c.func
    && rec["component_name"] == c.component && rec["message"] == c.message
    && rec["hostname"] == hostname
  }

  /** The diagnostic record for line; it has no time_usec, file, line or function field. */
  predicate IsFallbackRecord(rec: Record, line: string, clock: Clock, hostname: string) {
    && rec.Keys == FallbackKeys
    && rec["date"] == clock.date && rec["time"] == clock.time
    && rec["gluster_log_level"] == "I" && rec["component_name"] == "fluent-plugin-glusterfs"
    && rec["message"] == "Could not parse the line : " + line
    && rec["hostname"] == hostname
  }

  lemma MatchRecordDefault(c: Captures, hostname: string)
    ensures HoldsCaptures(MatchRecord(DefaultFieldMap(), c, hostname), c, hostname)
  {
  }

  lemma FallbackRecordDefault(line: string, clock: Clock, hostname: string)
    ensures IsFallbackRecord(FallbackRecord(DefaultFieldMap(), line, clock, hostname), line, clock, hostname)
  {
  }

  /** A matched line yields its captures and the timestamp of its date and time, or the error strptime raised. */
  lemma MatchedLine(p: GlusterfsLogInput, line: string, clock: Clock, utcOffset: int)
    requires p.Valid() && |line| > 0 && line[0] == '[' && Search(p.regex, line).Some?
    ensures
      var c := Search(p.regex, line).value.caps;
      var r := p.ParseLine(line, clock, utcOffset);
      match Strptime(c.date + " " + c.time, utcOffset)
      case Success(t) => r.Event? && r.time == t && HoldsCaptures(r.record, c, p.hostname)
      case Failure(e) => r == Raised(e)
  {
    var c := Search(p.regex, line).value.caps;
    MatchRecordDefault(c, p.hostname);
  }

  /** A line that starts with `[` and matches at no position yields the fallback record, stamped with the clock. */
  lemma UnmatchedLine(p: GlusterfsLogInput, line: string, clock: Clock, utcOffset: int)
    requires p.Valid() && |line| > 0 && line[0] == '['
    requires forall q: nat, c :: !GrammarMatch(p.regex.levels, line, q, c)
    ensures
      var r := p.ParseLine(line, clock, utcOffset);
      r.Event? && r.time == clock.seconds && IsFallbackRecord(r.record, line, clock, p.hostname)
  {
    SearchIsLeftmost(p.regex, line);
    FallbackRecordDefault(line, clock, p.hostname);
  }

  /**
    Every outcome is a skip, a full record of a match, the fallback record of
    a non-match, or the error of a match whose date and time strptime refused;
    no record is partly filled.
   */
  lemma OutcomeKinds(p: GlusterfsLogInput, line: string, clock: Clock, utcOffset: int)
    requires p.Valid()
    ensures
      var r := p.ParseLine(line, clock, utcOffset);
      var matched := |line| > 0 && line[0] == '[' && exists q: nat, c :: GrammarMatch(p.regex.levels, line, q, c);
      && (r.Skip? <==> |line| == 0 || line[0] != '[')
      && (r.Event? && r.record.Keys == SemanticKeys <==> matched && r.Event?)
      && (r.Event? && r.record.Keys == FallbackKeys <==> !matched && !r.Skip?)
      && (r.Raised? ==> matched)
      && !r.Inherited?
  {
    SearchIsLeftmost(p.regex, line);
    if |line| > 0 && line[0] == '[' {
      if Search(p.regex, line).Some? {
        MatchedLine(p, line, clock, utcOffset);
      } else {
        UnmatchedLine(p, line, clock, utcOffset);
        assert "time_usec" in SemanticKeys && "time_usec" !in FallbackKeys;
      }
    }
  }

  /**
    Round trip: a rendered line with fields of the right classes and a message
    without newline is matched at position 0 and yields exactly those fields.
   */
  lemma RoundTrip(p: GlusterfsLogInput, c: Captures, sep: char, clock: Clock, utcOffset: int)
    requires p.Valid() && WellFormed(p.regex.levels, c) && sep != '\n'
    ensures
      var r := p.ParseLine(Render(c, sep), clock, utcOffset);
      match Strptime(c.date + " " + c.time, utcOffset)
      case Success(t) => r.Event? && r.time == t && HoldsCaptures(r.record, c, p.hostname)
      case Failure(e) => r == Raised(e)
  {
    RenderRoundTrip(p.regex, c, sep);
    var line := Render(c, sep);
    assert line[0] == '[';
    MatchedLine(p, line, clock, utcOffset);
  }

  /** The microseconds do not affect the timestamp. */
  lemma TimestampIgnoresUsec(p: GlusterfsLogInput, c: Captures, usec: string, sep: char, clock: Clock, utcOffset: int)
    requires p.Valid() && WellFormed(p.regex.levels, c) && IsUsec(usec) && sep != '\n'
    ensures
      var r1 := p.ParseLine(Render(c, sep), clock, utcOffset);
      var r2 := p.ParseLine(Render(c.(usec := usec), sep), clock, utcOffset);
      && (r1.Event? <==> r2.Event?)
      && (r1.Event? ==> r1.time == r2.time)
  {
    RoundTrip(p, c, sep, clock, utcOffset);
    RoundTrip(p, c.(usec := usec), sep, clock, utcOffset);
  }

  const ExampleCaptures: Captures :=
    Captures("2015-03-02", "10:22:33", "123456", "E", "posix.c", "1234",
             "posix_removexattr", "0-test-posix", "lstat on path failed")

  lemma ExampleHeaderFields()
    ensures IsDate(ExampleCaptures.date) && IsTime(ExampleCaptures.time)
    ensures IsUsec(ExampleCaptures.usec) && IsLevel(DefaultLogLevels, ExampleCaptures.level)
  {
  }

  lemma ExampleFileField()
    ensures AllIn(NotDelimiter, ExampleCaptures.file)
  {
  }

  lemma ExampleLineField()
    ensures AllIn(Digit, ExampleCaptures.line)
  {
  }

  lemma ExampleFuncField()
    ensures AllIn(NotDelimiter, ExampleCaptures.func)
  {
  }

  lemma ExampleComponentField()
    ensures AllIn(NotColon, ExampleCaptures.component)
  {
  }

  lemma ExampleMessageField()
    ensures AllIn(NotNewline, ExampleCaptures.message)
  {
  }

  /** The fields of the example line are in their classes. */
  lemma ExampleWellFormed()
    ensures WellFormed(DefaultLogLevels, ExampleCaptures)
  {
    ExampleHeaderFields();
    ExampleFileField();
    ExampleLineField();
    ExampleFuncField();
    ExampleComponentField();
    ExampleMessageField();
  }

  /** The text the plugin hands to strptime for the example line. */
  lemma ExampleJoin()
    ensures ExampleCaptures.date + " " + ExampleCaptures.time == TimeText(2015, 3, 2, 10, 22, 33)
  {
    ExampleText();
  }

  /** The example line's date and time, read in UTC. */
  lemma ExampleDateTime()
    ensures Strptime(ExampleCaptures.date + " " + ExampleCaptures.time, 0) == Success(1425291753)
  {
    ExampleJoin();
    ExampleTimestamp();
  }

  /**
    The example line of a GlusterFS server log,
    `[2015-03-02 10:22:33.123456] E [posix.c:1234:posix_removexattr] 0-test-posix: lstat on path failed`,
    parsed with the default alphabet in UTC.
   */
  lemma ExampleLine(p: GlusterfsLogInput, clock: Clock)
    requires p.Valid() && p.regex == Regex(DefaultLogLevels)
    ensures
      var r := p.ParseLine(Render(ExampleCaptures, '.'), clock, 0);
      r.Event? && r.time == 1425291753 && HoldsCaptures(r.record, ExampleCaptures, p.hostname)
  {
    ExampleWellFormed();
    ExampleDateTime();
    RoundTrip(p, ExampleCaptures, '.', clock, 0);
  }
}
