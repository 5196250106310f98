# GlusterFS log line extractor, modelled in Dafny

This project models the core of the Fluentd input plugin `glusterfs_log`. For each raw line of a GlusterFS server log, the plugin decides one of three things:

- the line is not a log entry, so it is skipped;
- the line is a well-formed entry, so it becomes a structured record with an integer timestamp;
- the line looks like an entry (it starts with `[`) but does not match, so it becomes a diagnostic fallback record.

The model has four parts, one module each, plus a small `Wrappers` module that holds `Option` and `Result`.

- `LogPattern` (log_pattern.dfy) is the pattern that `init_regex` builds:
  `\[(date) (time).(usec)\] (level) \[(file):(line):(func)\] (component): (message)`.
  - It is written as a matcher for this one grammar, not as a general regex engine. `MatchAt` tries one start position. It checks the fixed-width header (`[`, date, time, any non-newline character, microseconds, level, ` [`) and then hands the rest to `MatchGroups`. `MatchGroups` walks `TailGroups`, the file, line, function and component groups, each with the delimiter that follows it, and ends with the message. Each group is a greedy `*` run (`Span`) followed by its delimiter. `Search` tries positions from 0 upward and returns the first match, which is what `=~` does on an unanchored pattern.
  - The same grammar is also stated declaratively as `GrammarMatch`. It says the text at position `i` is `Render(c, sep)`, each field is in its character class, and the message runs to the first newline. `sep` is the character that the unescaped `.` matched.
  - The lemmas prove that the matcher and the declarative grammar agree in both directions. It follows that the captures depend only on the start position, so greedy matching never backtracks. They also prove that `Search` finds the leftmost match, and that rendering any well-formed fields and parsing the result gives back exactly those fields.
- `CivilTime` (civil_time.dfy) models `Time.strptime(text, "%Y-%m-%d %H:%M:%S").to_i` with integer arithmetic on the proleptic Gregorian calendar, using a fixed zone offset.
  - Ruby's range checks become explicit error results. `Date._strptime` rejects a month outside 1..12, a day outside 1..31, an hour above 24, a minute above 59 and a second above 60. `Time.local` rejects hour 24 unless the minute and second are zero.
  - A day past the end of its month (February 30, April 31) rolls into the next month, as `Time.local` does.
  - `TimeText` formats fields the way `%Y-%m-%d %H:%M:%S` prints them. It is the inverse that the examples and the round trip use: strptime of a formatted text reads back its fields.
  - The closed-form day count is proved equal to a reference count that goes year by year and month by month from 1970.
- `FieldMap` (field_map.dfy) is `init_field`, the loop that copies the field configuration hash and drops entries whose key is empty. Applied to the plugin's own literal configuration, it yields the identity map on the ten semantic keys.
- `GlusterfsLog` (glusterfs_log.dfy) is the plugin object, `GlusterfsLogInput`. Its constructor fixes the configuration: the field map, the time format, the compiled pattern, the host name, and `handle_parse_failure`, which is always true. Its function `ParseLine` is `parse_line`. The lemmas cover the three outcomes, the exact record of a match and of a non-match, the round trip, the irrelevance of the microseconds to the timestamp, and the sample line `[2015-03-02 10:22:33.123456] E [posix.c:1234:posix_removexattr] 0-test-posix: lstat on path failed`.

The host name, the wall clock and the local zone offset are inputs. The constructor takes the host name. `ParseLine` takes the clock as a `Clock` value: the date and time strings that `Time.now.utc.to_s` splits into, and the epoch seconds from `to_i`. It also takes the zone offset, in seconds east of UTC, that `Time.strptime` uses for local time.

Four points of the code that the model follows:

- The code drops a field with an empty configured key silently; it is not a configuration error.
- The code does not check for an empty severity alphabet. In the model it is excluded by the constructor's precondition; see "Left out".
- The code reads the timestamp as local time, not UTC, so the zone offset is a parameter.
- The code's pattern has nine capture groups.

## Model

| member | source | states |
|---|---|---|
| LogPattern.Span | lib/fluent/plugin/in_glusterfs_log.rb:125-129 | a `*` class run from j ends at the first character outside the class, or at the end of the string, and never before j |
| LogPattern.SpanRun | lib/fluent/plugin/in_glusterfs_log.rb:125-129 | every character of a `*` class run, from its start up to where it ends, is in the class |
| LogPattern.GroupsSound | lib/fluent/plugin/in_glusterfs_log.rb:125-132 | whatever the greedy walk over the file, line, function and component groups returns is in the groups' classes, is the text at the position once rendered with the delimiters, and ends its message at a newline or at the end |
| LogPattern.GroupsComplete | lib/fluent/plugin/in_glusterfs_log.rb:125-132 | when every delimiter starts with a character outside its group's class, each such rendering at a position is exactly what the greedy walk returns |
| LogPattern.InitRegex | lib/fluent/plugin/in_glusterfs_log.rb:118-133 | the compiled pattern is the fixed grammar over exactly the severity alphabet given; what it matches is stated by the lemmas below |
| LogPattern.MatchAt | lib/fluent/plugin/in_glusterfs_log.rb:118-133 | the pattern tried at one start position: a result means the fixed-width header is there and the date, time, microsecond and level captures are in their classes; MatchAtSound and MatchAtComplete prove it equal to the grammar |
| LogPattern.Search | lib/fluent/plugin/in_glusterfs_log.rb:68 | `@regex =~ line`: a result is a match at its start position, and no earlier position matches; no result means no position matches |
| LogPattern.FindFrom | lib/fluent/plugin/in_glusterfs_log.rb:68 | the returned start matches and no earlier start from i matches; no result means no start position matches |
| LogPattern.MatchAtSound | lib/fluent/plugin/in_glusterfs_log.rb:118-133 | whatever the matcher returns satisfies the grammar: every group is in its class, the rendered fields are the text at the start, and the message stops at a newline or at the end |
| LogPattern.MatchAtComplete | lib/fluent/plugin/in_glusterfs_log.rb:118-133 | whenever the grammar matches at a position with some captures, the matcher returns exactly those captures |
| LogPattern.CapturesDetermined | lib/fluent/plugin/in_glusterfs_log.rb:125-132 | two matches at the same start position have identical captures, so greedy matching never needs to backtrack |
| LogPattern.SearchIsLeftmost | lib/fluent/plugin/in_glusterfs_log.rb:68 | `=~` returns a grammar match at the least start position where one exists; it returns nothing exactly when no position matches |
| LogPattern.RenderRoundTrip | lib/fluent/plugin/in_glusterfs_log.rb:132 | a line rendered from well-formed fields, with a newline-free message and any non-newline character for `.`, is matched at position 0 with exactly those fields |
| CivilTime.Strptime | lib/fluent/plugin/in_glusterfs_log.rb:114-116 | text that is not of the fixed `dddd-dd-dd dd:dd:dd` shape is refused with the invalid-format error |
| CivilTime.StrptimeAgreesWithCalendar | lib/fluent/plugin/in_glusterfs_log.rb:81 | text of the fixed shape is accepted exactly when the month is 1..12, the day 1..31, the hour at most 24 (and 24 only as 24:00:00), the minute at most 59 and the second at most 60; the result is then the reference calendar's seconds of that local time minus the zone offset |
| CivilTime.CivilMatchesReference | lib/fluent/plugin/in_glusterfs_log.rb:81 | the closed-form day number equals the day count from 1970-01-01 taken year by year and month by month with Gregorian leap years |
| CivilTime.YearStep | lib/fluent/plugin/in_glusterfs_log.rb:81 | January 1 of the next year follows January 1 by 365 days, or 366 in a leap year |
| CivilTime.MonthStep | lib/fluent/plugin/in_glusterfs_log.rb:81 | the first days of consecutive months are that month's length apart, with February taking 29 days in leap years |
| CivilTime.DayOverflowRollsOver | lib/fluent/plugin/in_glusterfs_log.rb:81 | a day number past the end of its month denotes the corresponding day of the next month |
| CivilTime.StrptimeOffset | lib/fluent/plugin/in_glusterfs_log.rb:81 | the zone offset shifts an accepted timestamp by its value and leaves the errors unchanged |
| CivilTime.Pad2 | lib/fluent/plugin/in_glusterfs_log.rb:114-116 | a two-digit field is printed as two digits, with a leading zero, that read back as its value |
| CivilTime.TimeTextFields | lib/fluent/plugin/in_glusterfs_log.rb:114-116 | text formatted with `%Y-%m-%d %H:%M:%S` from fields in range has the fixed shape, and the digits strptime reads from it are exactly those fields |
| CivilTime.EpochOrigin | lib/fluent/plugin/in_glusterfs_log.rb:81 | 1970-01-01 00:00:00 in UTC is timestamp 0 |
| CivilTime.ExampleTimestamp | lib/fluent/plugin/in_glusterfs_log.rb:81 | 2015-03-02 10:22:33 in UTC is timestamp 1425291753 |
| CivilTime.MonthThirteenRejected | lib/fluent/plugin/in_glusterfs_log.rb:121 | month 13, which the pattern's `[01]\d` admits, makes strptime raise |
| CivilTime.HourTwentyFourIsMidnight | lib/fluent/plugin/in_glusterfs_log.rb:122 | hour 24, which `[0-2]\d` admits, is accepted as 24:00:00 and equals midnight of the next day |
| CivilTime.HourTwentyFourOutOfRange | lib/fluent/plugin/in_glusterfs_log.rb:122 | 24:00:01 makes strptime raise |
| FieldMap.InitField | lib/fluent/plugin/in_glusterfs_log.rb:106-112 | the result has a key exactly for each non-empty key of the configuration and maps it to that entry's value |
| FieldMap.InitFieldOfConfig | lib/fluent/plugin/in_glusterfs_log.rb:24-35 | applied to the plugin's configuration literal, init_field gives the map of the ten semantic keys, each naming itself |
| FieldMap.FieldConfigDistinct | lib/fluent/plugin/in_glusterfs_log.rb:24-35 | the keys of the configuration literal are pairwise distinct, as the keys of a Ruby hash are |
| GlusterfsLog.GlusterfsLogInput.constructor | lib/fluent/plugin/in_glusterfs_log.rb:15-45 | after initialize, fallback handling is on, the field map is the default one, the time format is `%Y-%m-%d %H:%M:%S`, and the pattern uses the alphabet and host name given at construction |
| GlusterfsLog.GlusterfsLogInput.ParseLine | lib/fluent/plugin/in_glusterfs_log.rb:62-102 | the line is skipped exactly when it is empty or its first character is not `[`; the tail parser's own result is never returned |
| GlusterfsLog.InitTimeFormat | lib/fluent/plugin/in_glusterfs_log.rb:114-116 | the time format is `%Y-%m-%d %H:%M:%S`, the one format that CivilTime.Strptime reads |
| GlusterfsLog.MatchRecord | lib/fluent/plugin/in_glusterfs_log.rb:69-80 | the record of a match has exactly the ten configured field names as keys, and the host name wins when names collide, as in a hash literal |
| GlusterfsLog.FallbackRecord | lib/fluent/plugin/in_glusterfs_log.rb:85-92 | the fallback record has exactly the six configured field names as keys, and the host name wins when names collide |
| GlusterfsLog.MatchRecordDefault | lib/fluent/plugin/in_glusterfs_log.rb:69-80 | under the default field map, the record of a match has exactly the ten semantic keys: captures 1 to 9, then the host name |
| GlusterfsLog.FallbackRecordDefault | lib/fluent/plugin/in_glusterfs_log.rb:85-92 | under the default field map, the fallback record has exactly the keys date, time, gluster_log_level, component_name, message and hostname, with the clock's date and time, `I`, `fluent-plugin-glusterfs`, the prefixed line and the host name |
| GlusterfsLog.MatchedLine | lib/fluent/plugin/in_glusterfs_log.rb:68-81 | a matched line yields the record of its leftmost captures and the host name, stamped with the strptime value of `date time`; if strptime refuses, the error is raised |
| GlusterfsLog.UnmatchedLine | lib/fluent/plugin/in_glusterfs_log.rb:82-93 | a line that starts with `[` and matches at no position yields the fallback record, stamped with the clock's seconds |
| GlusterfsLog.OutcomeKinds | lib/fluent/plugin/in_glusterfs_log.rb:66-98 | every outcome is exactly one of: a skip; a full ten-key record for a matching line; a six-key fallback record for a non-matching line; or the error raised for a matching line; no record is partly filled |
| GlusterfsLog.RoundTrip | lib/fluent/plugin/in_glusterfs_log.rb:68-81 | parsing the rendering of well-formed fields yields exactly those fields and the strptime value of their date and time, or that strptime error |
| GlusterfsLog.TimestampIgnoresUsec | lib/fluent/plugin/in_glusterfs_log.rb:81 | two rendered lines that differ only in their microseconds get the same timestamp |
| GlusterfsLog.ExampleLine | lib/fluent/plugin/in_glusterfs_log.rb:62-81 | the sample `posix_removexattr` line, parsed with the default alphabet in UTC, gives timestamp 1425291753 and the record of its nine fields |

## Left out

- The tail input plugin that `GlusterfsLogInput` extends is not part of this model. This covers the call `super(line)` at line 63, the registration of the `glusterfs_log` input, and file tailing, buffering and event emission. `Outcome.Inherited` stands for the values that `super(line)` assigns. Only a disabled `handle_parse_failure` returns them, and the constructor always enables it (`||= true`), so a constructed plugin never returns `Inherited`.
- `configure` (lines 50-60) is not modelled: its tag check and debug log belong to the framework. It does reassign `gluster_log_level`, but only after `initialize` has already built the pattern. The pattern therefore keeps the alphabet present at construction time, which is the default `TDINWECA`, and the constructor's `logLevels` parameter stands for that value.
- `Socket.gethostname` and `Time.now.utc` are host and operating-system calls. The model takes the host name, the clock's date and time strings and its epoch seconds as inputs. It does not derive the strings from the seconds.
- The zone database is not modelled, and neither is daylight saving time. Local time is a fixed integer offset from UTC.
- GlusterfsLog.GlusterfsLogInput.constructor: requires a non-empty alphabet of ASCII letters. The source interpolates the alphabet raw into a character class, where an empty alphabet or a regex metacharacter would change or break the pattern when it is compiled.
- CivilTime.Strptime: handles only text of the fixed shape `dddd-dd-dd dd:dd:dd`, and returns the invalid-format error for any other text. Ruby would also accept other shapes, such as single-digit fields or signed years, but `parse_line` only ever passes the fixed shape, because the pattern's date and time groups always produce it.
- FieldMap.InitField: requires the configuration's keys to be distinct, which every Ruby hash guarantees. Symbols are modelled by their names, so `to_sym` is the identity.
- Records are maps, so the insertion order of Ruby's hash literal is not modelled. Its value semantics are: a later duplicate field name overwrites an earlier one.
- String encodings are not modelled: a line is a sequence of characters. In Ruby, `=~` on a line tagged UTF-8 that holds an invalid byte raises ArgumentError, which the `rescue` at lines 99-100 re-raises; that error path is not modelled. Nor is byte-by-byte matching of a line tagged ASCII-8BIT.
- The unused `$log.info` comment and the `rescue => ex; raise ex` wrapper are not modelled, beyond raising the strptime error unchanged.
