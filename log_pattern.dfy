/**
  The one pattern the plugin compiles (init_regex):

    \[(date) (time).(usec)\] (level) \[(file):(line):(func)\] (component): (message)

  written out as a deterministic matcher over strings. Every repeated capture
  class is followed by a delimiter the class cannot contain, so greedy
  matching never has to backtrack and the captures are a function of the
  start position. The pattern is not anchored: `=~` reports the leftmost
  start position at which it matches.
 */
module LogPattern {
  import opened Wrappers

  /** The nine capture groups, $1 to $9. */
  datatype Captures = Captures(
    date: string, time: string, usec: string, level: string,
    file: string, line: string, func: string, component: string, message: string)

  /** The compiled pattern; its one parameter is the severity alphabet interpolated into group 4. */
  datatype Regex = Regex(levels: string)

  /** A match of the pattern: where it starts and what it captured. */
  datatype Found = Found(start: nat, caps: Captures)

  function InitRegex(levels: string): (re: Regex)
    ensures re.levels == levels
  {
    Regex(levels)
  }

  // ---------------------------------------------------------------------
  // Character classes
  // ---------------------------------------------------------------------

  /** `\d`: an ASCII digit. */
  predicate IsDigit(ch: char) { '0' <= ch <= '9' }

  /** The delimiter set `\[\]: ` of the file and function classes. */
  predicate IsDelimiter(ch: char) { ch == '[' || ch == ']' || ch == ':' || ch == ' ' }

  /** The classes repeated with `*`. */
  datatype CharClass =
    | NotDelimiter   // [^\[\]: ]
    | Digit          // \d
    | NotColon       // [^:]
    | NotNewline     // .

  predicate InClass(k: CharClass, ch: char) {
    match k
    case NotDelimiter => !IsDelimiter(ch)
    case Digit => IsDigit(ch)
    case NotColon => ch != ':'
    case NotNewline => ch != '\n'
  }

  predicate AllIn(k: CharClass, x: string) {
    forall t :: 0 <= t < |x| ==> InClass(k, x[t])
  }

  /** `\d{4}-[01]\d-[0-3]\d` */
  predicate IsDate(x: string) {
    && |x| == 10
    && IsDigit(x[0]) && IsDigit(x[1]) && IsDigit(x[2]) && IsDigit(x[3])
    && x[4] == '-' && '0' <= x[5] <= '1' && IsDigit(x[6])
    && x[7] == '-' && '0' <= x[8] <= '3' && IsDigit(x[9])
  }

  /** `[0-2]\d\:[0-5]\d\:[0-6]\d` */
  predicate IsTime(x: string) {
    && |x| == 8
    && '0' <= x[0] <= '2' && IsDigit(x[1]) && x[2] == ':'
    && '0' <= x[3] <= '5' && IsDigit(x[4]) && x[5] == ':'
    && '0' <= x[6] <= '6' && IsDigit(x[7])
  }

  /** `\d{6}` */
  predicate IsUsec(x: string) {
    |x| == 6 && AllIn(Digit, x)
  }

  /** `[levels]`: one character of the severity alphabet. */
  predicate IsLevel(levels: string, x: string) {
    |x| == 1 && x[0] in levels
  }

  /** What each capture group admits. */
  predicate WellFormed(levels: string, c: Captures) {
    && IsDate(c.date)
    && IsTime(c.time)
    && IsUsec(c.usec)
    && IsLevel(levels, c.level)
    && AllIn(NotDelimiter, c.file)
    && AllIn(Digit, c.line)
    && AllIn(NotDelimiter, c.func)
    && AllIn(NotColon, c.component)
    && AllIn(NotNewline, c.message)
  }

  // ---------------------------------------------------------------------
  // The grammar, stated declaratively
  // ---------------------------------------------------------------------

  /** The text up to the file name; sep is the character matched by the unescaped `.`. */
  function Header(c: Captures, sep: char): string {
    "[" + (c.date + (" " + (c.time + ([sep] + (c.usec + ("] " + (c.level + " [")))))))
  }

  /**
    A group of the pattern after the header: a run of class k, captured,
    followed by the literal text delim.
   */
  datatype Group = Group(k: CharClass, delim: string)

  /** `(file):(line):(func)\] (component): `; the message group `(.*)` follows them. */
  const TailGroups: seq<Group> :=
    [Group(NotDelimiter, ":"), Group(Digit, ":"), Group(NotDelimiter, "] "), Group(NotColon, ": ")]

  /** The captures of the groups after the header, $5 to $9. */
  function TailValues(c: Captures): seq<string> {
    [c.file, c.line, c.func, c.component, c.message]
  }

  /** Each group's values joined by the group's delimiters; the last value is the message. */
  function RenderGroups(gs: seq<Group>, xs: seq<string>): string
    requires |xs| == |gs| + 1
    decreases |gs|
  {
    if |gs| == 0 then xs[0] else xs[0] + (gs[0].delim + RenderGroups(gs[1..], xs[1..]))
  }

  /** Every value is in its group's class and the message holds no newline. */
  predicate GroupsIn(gs: seq<Group>, xs: seq<string>) {
    && |xs| == |gs| + 1
    && (forall n :: 0 <= n < |gs| ==> AllIn(gs[n].k, xs[n]))
    && AllIn(NotNewline, xs[|gs|])
  }

  /** Each delimiter starts with a character its group's class excludes. */
  predicate Delimited(gs: seq<Group>) {
    forall n :: 0 <= n < |gs| ==> |gs[n].delim| > 0 && !InClass(gs[n].k, gs[n].delim[0])
  }

  /** The text from the file name to the end: `file:line:func] component: message`. */
  function Tail(c: Captures): string {
    RenderGroups(TailGroups, TailValues(c))
  }

  /** The log line a GlusterFS server writes for these fields. */
  function Render(c: Captures, sep: char): string {
    Header(c, sep) + Tail(c)
  }

  /** p occurs in s at position i. */
  predicate IsPrefixAt(p: string, s: string, i: nat) {
    i + |p| <= |s| && PrefixFrom(p, s, i, 0)
  }

  /** The characters of p from k on agree with those of s from i + k on. */
  predicate PrefixFrom(p: string, s: string, i: nat, k: nat)
    requires i + |p| <= |s|
    decreases |p| - k
  {
    k >= |p| || (s[i + k] == p[k] && PrefixFrom(p, s, i, k + 1))
  }

  /** Greedy `.*`: the message runs up to the first newline or the end of the string. */
  predicate MessageEnds(s: string, e: nat) {
    e >= |s| || s[e] == '\n'
  }

  /**
    The groups gs and then the message match s at j with values xs: each value
    is in its class, the values joined by the delimiters are the text at j, and
    the message runs to the end of the line.
   */
  predicate GroupsMatch(gs: seq<Group>, s: string, j: nat, xs: seq<string>) {
    && GroupsIn(gs, xs)
    && IsPrefixAt(RenderGroups(gs, xs), s, j)
    && MessageEnds(s, j + |RenderGroups(gs, xs)|)
  }

  /**
    The pattern matches s at position i with captures c: the text at i is the
    rendering of c, every group holds what its class admits, and the message
    is as long as greedy matching makes it.
   */
  predicate GrammarMatch(levels: string, s: string, i: nat, c: Captures) {
    && WellFormed(levels, c)
    && i + 20 < |s| && s[i + 20] != '\n'
    && IsPrefixAt(Render(c, s[i + 20]), s, i)
    && MessageEnds(s, i + |Render(c, s[i + 20])|)
  }

  // ---------------------------------------------------------------------
  // The matcher
  // ---------------------------------------------------------------------

  /** The end of the longest run of class k starting at j. */
  function Span(s: string, j: nat, k: CharClass): (e: nat)
    requires j <= |s|
    ensures j <= e <= |s|
    ensures e < |s| ==> !InClass(k, s[e])
    decreases |s| - j
  {
    if j < |s| && InClass(k, s[j]) then Span(s, j + 1, k) else j
  }

  /** The fixed-width part of the pattern, up to and including ` \[` before the file name. */
  predicate HeaderAt(levels: string, s: string, i: nat)
    requires i + 32 <= |s|
  {
    && s[i] == '['
    && IsDate(s[i + 1..i + 11])
    && s[i + 11] == ' '
    && IsTime(s[i + 12..i + 20])
    && s[i + 20] != '\n'
    && IsUsec(s[i + 21..i + 27])
    && s[i + 27] == ']' && s[i + 28] == ' '
    && s[i + 29] in levels
    && s[i + 30] == ' ' && s[i + 31] == '['
  }

  /** The groups gs and then the message, matched greedily from position j. */
  function MatchGroups(gs: seq<Group>, s: string, j: nat): (r: Option<seq<string>>)
    requires j <= |s|
    ensures r.Some? ==> |r.value| == |gs| + 1
    decreases |gs|
  {
    if |gs| == 0 then Some([s[j..Span(s, j, NotNewline)]])
    else
      var e := Span(s, j, gs[0].k);
      if !IsPrefixAt(gs[0].delim, s, e) then None
      else
        match MatchGroups(gs[1..], s, e + |gs[0].delim|)
        case None => None
        case Some(rest) => Some([s[j..e]] + rest)
  }

  /** The pattern tried at start position i. */
  function MatchAt(levels: string, s: string, i: nat): (r: Option<Captures>)
    requires i <= |s|
    ensures r.Some? ==> i + 32 <= |s| && HeaderAt(levels, s, i)
    ensures r.Some? ==> IsDate(r.value.date) && IsTime(r.value.time) && IsUsec(r.value.usec) && IsLevel(levels, r.value.level)
  {
    if i + 32 > |s| || !HeaderAt(levels, s, i) then None
    else
      match MatchGroups(TailGroups, s, i + 32)
      case None => None
      case Some(xs) =>
        Some(Captures(s[i + 1..i + 11], s[i + 12..i + 20], s[i + 21..i + 27], s[i + 29..i + 30],
                      xs[0], xs[1], xs[2], xs[3], xs[4]))
  }

  /** Try the start positions i, i + 1, ... and report the first that matches. */
  function FindFrom(levels: string, s: string, i: nat): (r: Option<Found>)
    requires i <= |s|
    ensures r.Some? ==> i <= r.value.start <= |s| && MatchAt(levels, s, r.value.start) == Some(r.value.caps)
    ensures forall q :: i <= q <= |s| && (r.None? || q < r.value.start) ==> MatchAt(levels, s, q).None?
    decreases |s| - i
  {
    var m := MatchAt(levels, s, i);
    if m.Some? then Some(Found(i, m.value))
    else if i == |s| then None
    else
      var r := FindFrom(levels, s, i + 1);
      // No start from i + 1 up to r's start matches; together with m, none from i does.
      assert forall q :: i + 1 <= q <= |s| && (r.None? || q < r.value.start) ==> MatchAt(levels, s, q).None?;
      r
  }

  /** `re =~ s` together with the groups it sets. */
  function Search(re: Regex, s: string): (r: Option<Found>)
    ensures r.Some? ==> r.value.start <= |s| && MatchAt(re.levels, s, r.value.start) == Some(r.value.caps)
    ensures forall q :: 0 <= q <= |s| && (r.None? || q < r.value.start) ==> MatchAt(re.levels, s, q).None?
  {
    FindFrom(re.levels, s, 0)
  }

  // ---------------------------------------------------------------------
  // Lemmas
  // ---------------------------------------------------------------------

  lemma {:induction false} PrefixFromAll(p: string, s: string, i: nat, k: nat)
    requires i + |p| <= |s|
    ensures PrefixFrom(p, s, i, k) <==> forall t :: k <= t < |p| ==> s[i + t] == p[t]
    decreases |p| - k
  {
    if k < |p| {
      PrefixFromAll(p, s, i, k + 1);
    }
  }

  /** IsPrefixAt, character by character. */
  lemma PrefixAll(p: string, s: string, i: nat)
    ensures IsPrefixAt(p, s, i) <==> i + |p| <= |s| && forall t :: 0 <= t < |p| ==> s[i + t] == p[t]
  {
    if i + |p| <= |s| {
      PrefixFromAll(p, s, i, 0);
    }
  }

  /** An occurrence at i is the slice of s from i of the same length. */
  lemma PrefixSlice(p: string, s: string, i: nat)
    ensures IsPrefixAt(p, s, i) <==> i + |p| <= |s| && s[i..i + |p|] == p
  {
    PrefixAll(p, s, i);
    if i + |p| <= |s| {
      var w := s[i..i + |p|];
      assert forall t :: 0 <= t < |p| ==> w[t] == s[i + t];
    }
  }

  lemma PrefixCons(a: string, b: string, s: string, i: nat)
    ensures IsPrefixAt(a + b, s, i) <==> IsPrefixAt(a, s, i) && IsPrefixAt(b, s, i + |a|)
  {
    PrefixAll(a + b, s, i);
    PrefixAll(a, s, i);
    PrefixAll(b, s, i + |a|);
    if IsPrefixAt(a + b, s, i) {
      forall t | 0 <= t < |a|
        ensures s[i + t] == a[t]
      {
        assert (a + b)[t] == a[t];
      }
      forall t | 0 <= t < |b|
        ensures s[i + |a| + t] == b[t]
      {
        assert (a + b)[|a| + t] == b[t];
      }
    }
    if IsPrefixAt(a, s, i) && IsPrefixAt(b, s, i + |a|) {
      forall t | 0 <= t < |a + b|
        ensures s[i + t] == (a + b)[t]
      {
        if t >= |a| {
          assert s[i + |a| + (t - |a|)] == b[t - |a|];
        }
      }
    }
  }

  lemma PrefixChar(ch: char, s: string, i: nat)
    ensures IsPrefixAt([ch], s, i) <==> i < |s| && s[i] == ch
  {
    PrefixAll([ch], s, i);
    if IsPrefixAt([ch], s, i) {
      assert s[i + 0] == [ch][0];
    }
  }

  lemma PrefixPair(a: char, b: char, s: string, i: nat)
    ensures IsPrefixAt([a, b], s, i) <==> i + 1 < |s| && s[i] == a && s[i + 1] == b
  {
    PrefixAll([a, b], s, i);
    if IsPrefixAt([a, b], s, i) {
      assert s[i + 0] == [a, b][0] && s[i + 1] == [a, b][1];
    }
  }

  /** A field, a delimiter and what follows them, each found in turn, make up their concatenation. */
  lemma JoinAt(a: string, d: string, rest: string, s: string, i: nat)
    requires IsPrefixAt(a, s, i) && IsPrefixAt(d, s, i + |a|) && IsPrefixAt(rest, s, i + |a| + |d|)
    ensures IsPrefixAt(a + (d + rest), s, i)
  {
    PrefixCons(d, rest, s, i + |a|);
    PrefixCons(a, d + rest, s, i);
  }

  /** The converse of JoinAt. */
  lemma SplitAt(a: string, d: string, rest: string, s: string, i: nat)
    requires IsPrefixAt(a + (d + rest), s, i)
    ensures IsPrefixAt(a, s, i) && IsPrefixAt(d, s, i + |a|) && IsPrefixAt(rest, s, i + |a| + |d|)
  {
    PrefixCons(a, d + rest, s, i);
    PrefixCons(d, rest, s, i + |a|);
  }

  /** The header of a rendering, read position by position. */
  lemma HeaderIff(c: Captures, sep: char, s: string, i: nat)
    requires |c.date| == 10 && |c.time| == 8 && |c.usec| == 6 && |c.level| == 1
    ensures |Header(c, sep)| == 32
    ensures IsPrefixAt(Header(c, sep), s, i) <==>
      && i + 32 <= |s|
      && s[i] == '[' && s[i + 1..i + 11] == c.date && s[i + 11] == ' '
      && s[i + 12..i + 20] == c.time && s[i + 20] == sep && s[i + 21..i + 27] == c.usec
      && s[i + 27] == ']' && s[i + 28] == ' ' && s[i + 29..i + 30] == c.level
      && s[i + 30] == ' ' && s[i + 31] == '['
  {
    var r7 := c.level + " [";
    var r6 := "] " + r7;
    var r5 := c.usec + r6;
    var r4 := [sep] + r5;
    var r3 := c.time + r4;
    var r2 := " " + r3;
    var r1 := c.date + r2;
    assert Header(c, sep) == "[" + r1;
    PrefixSlice(c.date, s, i + 1);
    PrefixSlice(c.time, s, i + 12);
    PrefixSlice(c.usec, s, i + 21);
    PrefixSlice(c.level, s, i + 29);
    PrefixCons("[", r1, s, i);
    PrefixChar('[', s, i);
    PrefixCons(c.date, r2, s, i + 1);
    PrefixCons(" ", r3, s, i + 11);
    PrefixChar(' ', s, i + 11);
    PrefixCons(c.time, r4, s, i + 12);
    PrefixCons([sep], r5, s, i + 20);
    PrefixChar(sep, s, i + 20);
    PrefixCons(c.usec, r6, s, i + 21);
    PrefixCons("] ", r7, s, i + 27);
    PrefixPair(']', ' ', s, i + 27);
    PrefixCons(c.level, " [", s, i + 29);
    PrefixPair(' ', '[', s, i + 30);
  }

  /** A run of class k that ends at a character outside k (or at the end) is the longest run. */
  lemma {:induction false} SpanStops(s: string, j: nat, k: CharClass, e: nat)
    requires j <= e <= |s|
    requires forall t :: j <= t < e ==> InClass(k, s[t])
    requires e < |s| ==> !InClass(k, s[e])
    ensures Span(s, j, k) == e
    decreases e - j
  {
    if j < e {
      SpanStops(s, j + 1, k, e);
    }
  }

  lemma PrefixAllIn(p: string, s: string, j: nat, k: CharClass)
    requires IsPrefixAt(p, s, j) && AllIn(k, p)
    ensures forall t :: j <= t < j + |p| ==> InClass(k, s[t])
  {
    PrefixSlice(p, s, j);
    forall t | j <= t < j + |p|
      ensures InClass(k, s[t])
    {
      assert s[t] == s[j..j + |p|][t - j] == p[t - j];
    }
  }

  lemma SliceAllIn(s: string, a: nat, b: nat, k: CharClass)
    requires a <= b <= |s|
    requires forall t :: a <= t < b ==> InClass(k, s[t])
    ensures AllIn(k, s[a..b])
  {
    forall t | 0 <= t < b - a
      ensures InClass(k, s[a..b][t])
    {
      assert s[a..b][t] == s[a + t];
    }
  }

  /** Every character of the run from j up to its end is in class k. */
  lemma {:induction false} SpanRun(s: string, j: nat, k: CharClass)
    requires j <= |s|
    ensures forall t :: j <= t < Span(s, j, k) ==> InClass(k, s[t])
    decreases |s| - j
  {
    if j < |s| && InClass(k, s[j]) {
      SpanRun(s, j + 1, k);
    }
  }

  lemma SpanSlice(s: string, j: nat, k: CharClass)
    requires j <= |s|
    ensures AllIn(k, s[j..Span(s, j, k)])
  {
    SpanRun(s, j, k);
    SliceAllIn(s, j, Span(s, j, k), k);
  }

  /** A value, its delimiter and a match of the remaining groups make a match of all the groups. */
  lemma JoinGroups(gs: seq<Group>, s: string, j: nat, x: string, rest: seq<string>)
    requires |gs| > 0 && AllIn(gs[0].k, x)
    requires IsPrefixAt(x, s, j) && IsPrefixAt(gs[0].delim, s, j + |x|)
    requires GroupsMatch(gs[1..], s, j + |x| + |gs[0].delim|, rest)
    ensures GroupsMatch(gs, s, j, [x] + rest)
  {
    var xs := [x] + rest;
    assert xs[0] == x && xs[1..] == rest;
    JoinAt(x, gs[0].delim, RenderGroups(gs[1..], rest), s, j);
    forall n | 1 <= n < |gs|
      ensures AllIn(gs[n].k, xs[n])
    {
      assert gs[n] == gs[1..][n - 1] && xs[n] == rest[n - 1];
    }
  }

  /** The converse of JoinGroups. */
  lemma SplitGroups(gs: seq<Group>, s: string, j: nat, xs: seq<string>)
    requires |gs| > 0 && GroupsMatch(gs, s, j, xs)
    ensures AllIn(gs[0].k, xs[0])
    ensures IsPrefixAt(xs[0], s, j) && IsPrefixAt(gs[0].delim, s, j + |xs[0]|)
    ensures GroupsMatch(gs[1..], s, j + |xs[0]| + |gs[0].delim|, xs[1..])
  {
    SplitAt(xs[0], gs[0].delim, RenderGroups(gs[1..], xs[1..]), s, j);
    forall n | 0 <= n < |gs| - 1
      ensures AllIn(gs[1..][n].k, xs[1..][n])
    {
      assert gs[1..][n] == gs[n + 1] && xs[1..][n] == xs[n + 1];
    }
    assert xs[1..][|gs| - 1] == xs[|gs|];
  }

  /** Whatever MatchGroups returns is a match of the groups. */
  lemma {:induction false} GroupsSound(gs: seq<Group>, s: string, j: nat, xs: seq<string>)
    requires j <= |s| && MatchGroups(gs, s, j) == Some(xs)
    ensures GroupsMatch(gs, s, j, xs)
    decreases |gs|
  {
    if |gs| == 0 {
      SpanSlice(s, j, NotNewline);
      PrefixSlice(xs[0], s, j);
    } else {
      var e := Span(s, j, gs[0].k);
      var rest := MatchGroups(gs[1..], s, e + |gs[0].delim|).value;
      assert xs == [s[j..e]] + rest;
      GroupsSound(gs[1..], s, e + |gs[0].delim|, rest);
      SpanSlice(s, j, gs[0].k);
      PrefixSlice(s[j..e], s, j);
      JoinGroups(gs, s, j, s[j..e], rest);
    }
  }

  /** Every match of the groups is what MatchGroups returns, when each delimiter starts outside its class. */
  lemma {:induction false} GroupsComplete(gs: seq<Group>, s: string, j: nat, xs: seq<string>)
    requires Delimited(gs) && GroupsMatch(gs, s, j, xs)
    ensures MatchGroups(gs, s, j) == Some(xs)
    decreases |gs|
  {
    if |gs| == 0 {
      PrefixAllIn(xs[0], s, j, NotNewline);
      SpanStops(s, j, NotNewline, j + |xs[0]|);
      PrefixSlice(xs[0], s, j);
      assert xs == [xs[0]];
    } else {
      var e := j + |xs[0]|;
      SplitGroups(gs, s, j, xs);
      PrefixAllIn(xs[0], s, j, gs[0].k);
      PrefixAll(gs[0].delim, s, e);
      assert s[e + 0] == gs[0].delim[0];
      SpanStops(s, j, gs[0].k, e);
      PrefixSlice(xs[0], s, j);
      forall n | 0 <= n < |gs| - 1
        ensures |gs[1..][n].delim| > 0 && !InClass(gs[1..][n].k, gs[1..][n].delim[0])
      {
        assert gs[1..][n] == gs[n + 1];
      }
      GroupsComplete(gs[1..], s, e + |gs[0].delim|, xs[1..]);
      assert xs == [xs[0]] + xs[1..];
    }
  }

  lemma TailGroupsDelimited()
    ensures Delimited(TailGroups)
  {
    assert !InClass(NotDelimiter, ':') && !InClass(Digit, ':') && !InClass(NotDelimiter, ']') && !InClass(NotColon, ':');
  }

  /** The tail groups of c are in their classes: the five tail captures are. */
  lemma TailGroupsIn(c: Captures)
    requires GroupsIn(TailGroups, TailValues(c))
    ensures AllIn(NotDelimiter, c.file) && AllIn(Digit, c.line) && AllIn(NotDelimiter, c.func)
    ensures AllIn(NotColon, c.component) && AllIn(NotNewline, c.message)
  {
    var gs, xs := TailGroups, TailValues(c);
    assert gs[0].k == NotDelimiter && gs[1].k == Digit && gs[2].k == NotDelimiter && gs[3].k == NotColon;
    assert xs[0] == c.file && xs[1] == c.line && xs[2] == c.func && xs[3] == c.component && xs[4] == c.message;
  }

  /** The converse of TailGroupsIn. */
  lemma FieldsInTailGroups(c: Captures)
    requires AllIn(NotDelimiter, c.file) && AllIn(Digit, c.line) && AllIn(NotDelimiter, c.func)
    requires AllIn(NotColon, c.component) && AllIn(NotNewline, c.message)
    ensures GroupsIn(TailGroups, TailValues(c))
  {
    var gs, xs := TailGroups, TailValues(c);
    assert gs[0].k == NotDelimiter && gs[1].k == Digit && gs[2].k == NotDelimiter && gs[3].k == NotColon;
    assert xs[0] == c.file && xs[1] == c.line && xs[2] == c.func && xs[3] == c.component && xs[4] == c.message;
  }

  /** A match at i is a header at i followed by a match of the remaining groups at i + 32. */
  lemma MatchAtSteps(levels: string, s: string, i: nat)
    requires i <= |s| && MatchAt(levels, s, i).Some?
    ensures i + 32 <= |s| && HeaderAt(levels, s, i)
    ensures
      var c := MatchAt(levels, s, i).value;
      && c.date == s[i + 1..i + 11] && c.time == s[i + 12..i + 20]
      && c.usec == s[i + 21..i + 27] && c.level == s[i + 29..i + 30]
      && MatchGroups(TailGroups, s, i + 32) == Some(TailValues(c))
  {
    assert |TailGroups| == 4;
    var xs := MatchGroups(TailGroups, s, i + 32).value;
    assert xs == TailValues(MatchAt(levels, s, i).value);
  }

  /** The fixed-width fields a header at i holds, and the header they render to. */
  lemma HeaderSound(levels: string, s: string, i: nat, c: Captures)
    requires i + 32 <= |s| && HeaderAt(levels, s, i)
    requires c.date == s[i + 1..i + 11] && c.time == s[i + 12..i + 20]
    requires c.usec == s[i + 21..i + 27] && c.level == s[i + 29..i + 30]
    ensures IsDate(c.date) && IsTime(c.time) && IsUsec(c.usec) && IsLevel(levels, c.level)
    ensures IsPrefixAt(Header(c, s[i + 20]), s, i)
  {
    assert c.level[0] == s[i + 29];
    HeaderIff(c, s[i + 20], s, i);
  }

  /** Whatever the matcher returns is a match of the grammar. */
  lemma MatchAtSound(levels: string, s: string, i: nat)
    requires i <= |s|
    ensures MatchAt(levels, s, i).Some? ==> GrammarMatch(levels, s, i, MatchAt(levels, s, i).value)
  {
    if MatchAt(levels, s, i).Some? {
      MatchAtSteps(levels, s, i);
      PiecesMatch(levels, s, i, MatchAt(levels, s, i).value);
    }
  }

  /** A header at i whose fields are c's, followed by c's tail groups at i + 32, is a grammar match of c. */
  lemma PiecesMatch(levels: string, s: string, i: nat, c: Captures)
    requires i + 32 <= |s| && HeaderAt(levels, s, i)
    requires c.date == s[i + 1..i + 11] && c.time == s[i + 12..i + 20]
    requires c.usec == s[i + 21..i + 27] && c.level == s[i + 29..i + 30]
    requires MatchGroups(TailGroups, s, i + 32) == Some(TailValues(c))
    ensures GrammarMatch(levels, s, i, c)
  {
    HeaderSound(levels, s, i, c);
    GroupsSound(TailGroups, s, i + 32, TailValues(c));
    PartsMatch(levels, s, i, c);
  }

  /** A header at i followed by a match of the tail groups at i + 32 is a grammar match at i. */
  lemma PartsMatch(levels: string, s: string, i: nat, c: Captures)
    requires i + 32 <= |s| && s[i + 20] != '\n'
    requires IsDate(c.date) && IsTime(c.time) && IsUsec(c.usec) && IsLevel(levels, c.level)
    requires IsPrefixAt(Header(c, s[i + 20]), s, i)
    requires GroupsMatch(TailGroups, s, i + 32, TailValues(c))
    ensures GrammarMatch(levels, s, i, c)
  {
    TailGroupsIn(c);
    var sep := s[i + 20];
    assert |Header(c, sep)| == 32;
    PrefixCons(Header(c, sep), Tail(c), s, i);
  }

  /** A grammar match at i is a header at i followed by a match of the tail groups at i + 32. */
  lemma PartsOfMatch(levels: string, s: string, i: nat, c: Captures)
    requires GrammarMatch(levels, s, i, c)
    ensures i + 32 <= |s| && HeaderAt(levels, s, i)
    ensures c.date == s[i + 1..i + 11] && c.time == s[i + 12..i + 20]
    ensures c.usec == s[i + 21..i + 27] && c.level == s[i + 29..i + 30]
    ensures GroupsMatch(TailGroups, s, i + 32, TailValues(c))
  {
    var sep := s[i + 20];
    PrefixCons(Header(c, sep), Tail(c), s, i);
    HeaderIff(c, sep, s, i);
    assert s[i + 29] == c.level[0];
    FieldsInTailGroups(c);
  }

  /** Every match of the grammar is found by the matcher. */
  lemma MatchAtComplete(levels: string, s: string, i: nat, c: Captures)
    requires GrammarMatch(levels, s, i, c)
    ensures MatchAt(levels, s, i) == Some(c)
  {
    PartsOfMatch(levels, s, i, c);
    TailGroupsDelimited();
    GroupsComplete(TailGroups, s, i + 32, TailValues(c));
  }

  /** The captures are a function of the start position: greedy matching needs no backtracking. */
  lemma CapturesDetermined(levels: string, s: string, i: nat, c1: Captures, c2: Captures)
    requires GrammarMatch(levels, s, i, c1) && GrammarMatch(levels, s, i, c2)
    ensures c1 == c2
  {
    MatchAtComplete(levels, s, i, c1);
    MatchAtComplete(levels, s, i, c2);
  }

  /** `=~` reports the leftmost start position at which the grammar matches, with that match's captures. */
  lemma SearchIsLeftmost(re: Regex, s: string)
    ensures Search(re, s).Some? ==>
      && GrammarMatch(re.levels, s, Search(re, s).value.start, Search(re, s).value.caps)
      && forall q: nat, c :: q < Search(re, s).value.start ==> !GrammarMatch(re.levels, s, q, c)
    ensures Search(re, s).None? <==> forall q: nat, c :: !GrammarMatch(re.levels, s, q, c)
  {
    var r := Search(re, s);
    forall q: nat, c | GrammarMatch(re.levels, s, q, c)
      ensures r.Some? && r.value.start <= q
    {
      MatchAtComplete(re.levels, s, q, c);
    }
    if r.Some? {
      MatchAtSound(re.levels, s, r.value.start);
    }
  }

  /** A rendered line with a newline-free message is matched at position 0 with exactly its fields. */
  lemma RenderRoundTrip(re: Regex, c: Captures, sep: char)
    requires WellFormed(re.levels, c) && sep != '\n'
    ensures Search(re, Render(c, sep)) == Some(Found(0, c))
  {
    assert |TailGroups| == 4;
    var s := Render(c, sep);
    HeaderIff(c, sep, s, 0);
    PrefixCons(Header(c, sep), Tail(c), s, 0);
    PrefixSlice(s, s, 0);
    assert s[0..|s|] == s;
    assert s[20] == sep;
    assert GrammarMatch(re.levels, s, 0, c);
    MatchAtComplete(re.levels, s, 0, c);
  }
}
