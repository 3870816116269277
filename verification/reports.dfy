/** The reports built on the session table: the average session time
    (sessionize.py:85) and the count of distinct URLs per session (sessionize.py:104).
    The session count (sessionize.py:50) is `Sessionizer.TotalSessions`. */
module Reports {

  import opened Wrappers
  import opened LexOrder
  import opened Numerals
  import opened Text
  import opened Clock
  import opened WebLog
  import opened Sessionizer
  import opened Aggregator

  // ---------------------------------------------------------------------------------
  // `int(avg(x))` over non-negative integers.

  function Sum(xs: seq<nat>): nat
  {
    if |xs| == 0 then 0 else xs[0] + Sum(xs[1..])
  }

  /** `int(avg(xs))`. On non-negative values `int()`'s truncation toward zero is the
      floor, so the result is the integer part of the exact mean. */
  function Mean(xs: seq<nat>): (m: nat)
    requires |xs| > 0
    ensures |xs| * m <= Sum(xs) < |xs| * (m + 1)
  {
    Sum(xs) / |xs|
  }

  /** Values in [lo, hi] sum to between |xs|*lo and |xs|*hi. */
  lemma {:induction false} SumBetween(xs: seq<nat>, lo: nat, hi: nat)
    requires forall i :: 0 <= i < |xs| ==> lo <= xs[i] <= hi
    ensures |xs| * lo <= Sum(xs) <= |xs| * hi
  {
    if |xs| > 0 {
      var t := xs[1..];
      SumBetween(t, lo, hi);
      assert |xs| == |t| + 1;
      assert |xs| * lo == |t| * lo + lo && |xs| * hi == |t| * hi + hi;
    }
  }

  /** The truncated mean of values in [lo, hi] lies in [lo, hi]. */
  lemma MeanBetween(xs: seq<nat>, lo: nat, hi: nat)
    requires |xs| > 0
    requires forall i :: 0 <= i < |xs| ==> lo <= xs[i] <= hi
    ensures lo <= Mean(xs) <= hi
  {
    SumBetween(xs, lo, hi);
    QuotientBounds(|xs|, Sum(xs), lo, hi, Mean(xs));
  }

  /** If n*lo <= s <= n*hi and m is the integer part of s/n, then lo <= m <= hi. */
  lemma QuotientBounds(n: nat, s: nat, lo: nat, hi: nat, m: nat)
    requires n > 0 && n * m <= s < n * (m + 1)
    requires n * lo <= s <= n * hi
    ensures lo <= m <= hi
  {
    if m + 1 <= lo {
      MulMono(n, m + 1, lo);
    }
    if hi + 1 <= m {
      MulMono(n, hi + 1, m);
    }
  }

  lemma MulMono(n: nat, a: int, b: int)
    requires a <= b
    ensures n * a <= n * b
  {
  }

  // ---------------------------------------------------------------------------------
  // The average session time (sessionize.py:85).

  /** The positions `substr(time, 1, 2)`, `substr(time, 4, 2)` and `substr(time, 7, 2)`
      read, counted from zero. */
  predicate FieldStart(start: nat)
  {
    start == 0 || start == 3 || start == 6
  }

  /** `int(substr(time, start + 1, 2))` on an "HH:MM:SS" text. */
  function Field(t: string, start: nat): nat
    requires IsClockShape(t) && FieldStart(start)
  {
    ParseNat(t[start..start + 2])
  }

  /** The three fields are the hours, minutes and seconds TIMETAKEN's parser reads. */
  lemma FieldsOfClock(t: string)
    requires IsClockShape(t)
    ensures ParseClock(t) == Hms(Field(t, 0), Field(t, 3), Field(t, 6))
  {
    ClockFields(t);
    assert t[6..] == t[6..8];
  }

  /** One column of the `sessiontime` view's `time`, read at `start`. */
  function Column(times: seq<string>, start: nat): (c: seq<nat>)
    requires forall i :: 0 <= i < |times| ==> IsClockShape(times[i])
    requires FieldStart(start)
    ensures |c| == |times|
    ensures forall i :: 0 <= i < |times| ==> c[i] == Field(times[i], start)
  {
    seq(|times|, i requires 0 <= i < |times| => Field(times[i], start))
  }

  /** `select concat(int(avg(h)), ':', int(avg(m)), ':', int(avg(s))) from sessiontime`.
      Over no rows every `avg` is NULL and so is the concatenation. */
  function AverageSessionTime(times: seq<string>): (r: Option<string>)
    requires forall i :: 0 <= i < |times| ==> IsClockShape(times[i])
    ensures r.None? <==> |times| == 0
  {
    if |times| == 0 then
      None
    else
      Some(Join([Show(Mean(Column(times, 0))), Show(Mean(Column(times, 3))),
                 Show(Mean(Column(times, 6)))], ':'))
  }

  /** The average text splits at ':' into three unpadded decimal numbers, which read back
      as the truncated means of the hours, the minutes and the seconds. */
  lemma AverageFields(times: seq<string>)
    requires forall i :: 0 <= i < |times| ==> IsClockShape(times[i])
    requires |times| > 0
    ensures AverageSessionTime(times).Some?
    ensures var f := Split(AverageSessionTime(times).value, ':');
            && |f| == 3 && AllDigits(f[0]) && AllDigits(f[1]) && AllDigits(f[2])
            && ParseNat(f[0]) == Mean(Column(times, 0))
            && ParseNat(f[1]) == Mean(Column(times, 3))
            && ParseNat(f[2]) == Mean(Column(times, 6))
  {
    var h, m, s := Mean(Column(times, 0)), Mean(Column(times, 3)), Mean(Column(times, 6));
    var parts := [ShowNat(h), ShowNat(m), ShowNat(s)];
    NoColonInDigits(parts[0]);
    NoColonInDigits(parts[1]);
    NoColonInDigits(parts[2]);
    SplitJoin(parts, ':');
    ParseShowNat(h);
    ParseShowNat(m);
    ParseShowNat(s);
  }

  lemma NoColonInDigits(s: string)
    requires AllDigits(s)
    ensures ':' !in s
  {
  }

  /** Averaging session durations, each under 15 minutes with seconds on the dial, gives
      hour 0, at most 14 minutes and at most 59 seconds. */
  lemma AverageOfShortSessions(times: seq<string>)
    requires forall i :: 0 <= i < |times| ==> IsClockShape(times[i])
    requires forall i :: 0 <= i < |times| ==>
               Field(times[i], 0) == 0 && Field(times[i], 3) <= 14 && Field(times[i], 6) <= 59
    requires |times| > 0
    ensures Mean(Column(times, 0)) == 0
    ensures Mean(Column(times, 3)) <= 14
    ensures Mean(Column(times, 6)) <= 59
  {
    MeanBetween(Column(times, 0), 0, 0);
    MeanBetween(Column(times, 3), 0, 14);
    MeanBetween(Column(times, 6), 0, 59);
  }

  /** The `time` column of the `sessiontime` view. */
  function Times(t: seq<SessionTime>): (ts: seq<string>)
    ensures |ts| == |t| && forall i :: 0 <= i < |t| ==> ts[i] == t[i].time
  {
    seq(|t|, i requires 0 <= i < |t| => t[i].time)
  }

  /** A group of one session whose readings are wall-clock times lasts an "HH:MM:SS"
      text with hour 0, at most 14 minutes and at most 59 seconds. */
  lemma ShortGroup(ms: seq<SessionRow>)
    requires |ms| > 0 && OneSession(ms) && DialClocks(ms)
    ensures var t := GroupTime(ms);
            IsClockShape(t) && Field(t, 0) == 0 && Field(t, 3) <= 14 && Field(t, 6) <= 59
  {
    SessionDuration(ms);
    FieldsOfClock(GroupTime(ms));
  }

  /** The groups of a table of wall-clock readings have wall-clock readings. */
  lemma DialMembers(rows: seq<SessionRow>, count: nat, id: nat)
    requires Sessionized(rows, count) && 1 <= id <= count
    requires forall x :: x in rows ==> OnDial(ParseClock(ClockText(x.rec.timestamp)))
    ensures |Members(rows, id)| > 0 && OneSession(Members(rows, id))
    ensures DialClocks(Members(rows, id))
  {
    MembersOneSession(rows, count, id);
  }

  /** A session's duration, when its readings are wall-clock times, is an "HH:MM:SS" text
      with hour 0, at most 14 minutes and at most 59 seconds. */
  lemma ShortSession(rows: seq<SessionRow>, count: nat, id: nat)
    requires Sessionized(rows, count) && 1 <= id <= count
    requires forall x :: x in rows ==> OnDial(ParseClock(ClockText(x.rec.timestamp)))
    ensures |Members(rows, id)| > 0
    ensures var t := GroupTime(Members(rows, id));
            IsClockShape(t) && Field(t, 0) == 0 && Field(t, 3) <= 14 && Field(t, 6) <= 59
  {
    DialMembers(rows, count, id);
    ShortGroup(Members(rows, id));
  }

  /** Every row of the session-time listing is a short session's duration. */
  lemma SessionTimesShort(rows: seq<SessionRow>, count: nat)
    requires Sessionized(rows, count)
    requires forall x :: x in rows ==> OnDial(ParseClock(ClockText(x.rec.timestamp)))
    ensures Numbered(rows, count)
    ensures forall x :: x in SessionTimes(rows, count) ==>
              IsClockShape(x.time) && Field(x.time, 0) == 0 && Field(x.time, 3) <= 14
              && Field(x.time, 6) <= 59
  {
    SessionTimesRows(rows, count);
    forall x | x in SessionTimes(rows, count)
      ensures IsClockShape(x.time) && Field(x.time, 0) == 0 && Field(x.time, 3) <= 14
              && Field(x.time, 6) <= 59
    {
      ShortSession(rows, count, x.id);
    }
  }

  /** A short session's duration text is a clock text on the dial. */
  lemma ShortTimeOnDial(t: string)
    requires IsClockShape(t) && Field(t, 0) == 0 && Field(t, 3) <= 14 && Field(t, 6) <= 59
    ensures IsClock(t) && OnDial(ParseClock(t))
  {
    ClockFields(t);
    FieldsOfClock(t);
  }

  /** A duration text that reads as a wall-clock time: two-digit fields, minutes and
      seconds below 60. */
  predicate WallClock(t: string)
  {
    IsClock(t) && OnDial(ParseClock(t))
  }

  /** Both texts are wall-clock durations and the first lasts at least as long. */
  predicate LastsAtLeast(a: string, b: string)
  {
    WallClock(a) && WallClock(b) && Seconds(ParseClock(a)) >= Seconds(ParseClock(b))
  }

  /** A listing in descending text order of wall-clock durations is in descending order
      of elapsed seconds. */
  lemma DescendingByDuration<T>(xs: seq<T>, key: T -> string)
    requires Descending(xs, key)
    requires forall i :: 0 <= i < |xs| ==> WallClock(key(xs[i]))
    ensures forall i :: 0 < i < |xs| ==> LastsAtLeast(key(xs[i - 1]), key(xs[i]))
  {
    forall i | 0 < i < |xs|
      ensures LastsAtLeast(key(xs[i - 1]), key(xs[i]))
    {
      var a, b := key(xs[i - 1]), key(xs[i]);
      assert !StrLess(a, b);
      ClockOrder(a, b);
      DialOrder(ParseClock(a), ParseClock(b));
    }
  }

  /** `order by time DESC` on the duration text lists sessions by elapsed time, longest
      first, when the readings are wall-clock times. */
  lemma LongestSessionsFirst(rows: seq<SessionRow>, count: nat)
    requires Sessionized(rows, count)
    requires forall x :: x in rows ==> OnDial(ParseClock(ClockText(x.rec.timestamp)))
    ensures Numbered(rows, count)
    ensures var st := SessionTimes(rows, count);
            forall i :: 0 < i < |st| ==> LastsAtLeast(st[i - 1].time, st[i].time)
  {
    SessionTimesShort(rows, count);
    var st := SessionTimes(rows, count);
    forall i | 0 <= i < |st|
      ensures WallClock(st[i].time)
    {
      assert st[i] in st;
      ShortTimeOnDial(st[i].time);
    }
    DescendingByDuration(st, (x: SessionTime) => x.time);
  }

  /** The duration of every row of the most-engaged-users listing is a wall-clock reading. */
  lemma EngagedTimeOnDial(rows: seq<SessionRow>, count: nat, e: Engagement)
    requires Sessionized(rows, count)
    requires forall x :: x in rows ==> OnDial(ParseClock(ClockText(x.rec.timestamp)))
    requires e in MostEngagedUsers(rows, count)
    ensures WallClock(e.time)
  {
    MostEngagedUsersRows(rows, count);
    ShortSession(rows, count, e.id);
    ShortTimeOnDial(e.time);
  }

  /** The most-engaged-users listing (`order by time DESC`) puts the longest sessions
      first, when the readings are wall-clock times. */
  lemma MostEngagedLongestFirst(rows: seq<SessionRow>, count: nat)
    requires Sessionized(rows, count)
    requires forall x :: x in rows ==> OnDial(ParseClock(ClockText(x.rec.timestamp)))
    ensures var t := MostEngagedUsers(rows, count);
            forall i :: 0 < i < |t| ==> LastsAtLeast(t[i - 1].time, t[i].time)
  {
    var t := MostEngagedUsers(rows, count);
    forall i | 0 <= i < |t|
      ensures WallClock(t[i].time)
    {
      assert t[i] in t;
      EngagedTimeOnDial(rows, count, t[i]);
    }
    DescendingByDuration(t, (e: Engagement) => e.time);
  }

  /** On a session table of wall-clock readings the reported average is "0:M:S" with
      M <= 14 and S <= 59; it is NULL only when there are no sessions. */
  lemma AverageOfSessionTable(rows: seq<SessionRow>, count: nat)
    requires Sessionized(rows, count)
    requires forall x :: x in rows ==> OnDial(ParseClock(ClockText(x.rec.timestamp)))
    ensures Numbered(rows, count)
    ensures forall i :: 0 <= i < count ==> IsClockShape(Times(SessionTimes(rows, count))[i])
    ensures AverageSessionTime(Times(SessionTimes(rows, count))).None? <==> count == 0
    ensures count > 0 ==>
              var ts := Times(SessionTimes(rows, count));
              Mean(Column(ts, 0)) == 0 && Mean(Column(ts, 3)) <= 14 && Mean(Column(ts, 6)) <= 59
  {
    SessionTimesShort(rows, count);
    SessionTimesRows(rows, count);
    var st := SessionTimes(rows, count);
    var ts := Times(st);
    forall i | 0 <= i < count
      ensures IsClockShape(ts[i]) && Field(ts[i], 0) == 0 && Field(ts[i], 3) <= 14
              && Field(ts[i], 6) <= 59
    {
      assert st[i] in st;
    }
    if count > 0 {
      AverageOfShortSessions(ts);
    }
  }

  // ---------------------------------------------------------------------------------
  // Distinct URLs per session (sessionize.py:104).

  /** Rows whose request has a URL field. */
  predicate AllHaveUrls(ms: seq<SessionRow>)
  {
    forall x :: x in ms ==> HasUrl(x.rec)
  }

  /** `EXTRACTURL(request)` of every row, in order. */
  function UrlList(ms: seq<SessionRow>): (us: seq<string>)
    requires AllHaveUrls(ms)
    ensures |us| == |ms| && forall i :: 0 <= i < |ms| ==> us[i] == ExtractUrl(ms[i].rec.request)
  {
    seq(|ms|, i requires 0 <= i < |ms| => assert ms[i] in ms; ExtractUrl(ms[i].rec.request))
  }

  /** The distinct `EXTRACTURL(request)` values of a group. */
  function Urls(ms: seq<SessionRow>): (us: set<string>)
    requires AllHaveUrls(ms)
  {
    set u | u in UrlList(ms)
  }

  /** `count(distinct EXTRACTURL(request))` over a group. */
  function UniqueUrls(ms: seq<SessionRow>): nat
    requires AllHaveUrls(ms)
  {
    |Urls(ms)|
  }

  /** A hit adds one to the count when its URL is new to the group and nothing when it
      has been seen: each URL counts once. */
  lemma UniqueUrlsAppend(ms: seq<SessionRow>, x: SessionRow)
    requires AllHaveUrls(ms) && HasUrl(x.rec)
    ensures AllHaveUrls(ms + [x])
    ensures UniqueUrls(ms + [x]) ==
              UniqueUrls(ms) + if ExtractUrl(x.rec.request) in Urls(ms) then 0 else 1
  {
    var u := ExtractUrl(x.rec.request);
    assert AllHaveUrls(ms + [x]);
    assert UrlList(ms + [x]) == UrlList(ms) + [u];
    assert Urls(ms + [x]) == Urls(ms) + {u};
  }

  /** A non-empty group has between one distinct URL and one per row. */
  lemma {:induction false} UniqueUrlsBounds(ms: seq<SessionRow>)
    requires AllHaveUrls(ms)
    ensures UniqueUrls(ms) <= |ms|
    ensures |ms| > 0 ==> UniqueUrls(ms) >= 1
    decreases |ms|
  {
    if |ms| > 0 {
      var init, x := ms[..|ms| - 1], ms[|ms| - 1];
      assert ms == init + [x];
      assert forall y :: y in init ==> y in ms;
      UniqueUrlsBounds(init);
      UniqueUrlsAppend(init, x);
    }
  }

  /** One row of the `uniqueurl` result. */
  datatype UrlCount = UrlCount(id: nat, uniqueUrls: nat)

  /** One row per group, taken from the group's first row. */
  function UrlRows(gs: seq<seq<SessionRow>>): (t: seq<UrlCount>)
    requires forall i {:trigger gs[i]} :: 0 <= i < |gs| ==> |gs[i]| > 0 && AllHaveUrls(gs[i])
    ensures |t| == |gs|
    ensures forall i :: 0 <= i < |gs| ==>
              |gs[i]| > 0 && AllHaveUrls(gs[i]) && t[i] == UrlCount(gs[i][0].id, UniqueUrls(gs[i]))
  {
    seq(|gs|, i requires 0 <= i < |gs| =>
      assert |gs[i]| > 0 && AllHaveUrls(gs[i]);
      UrlCount(gs[i][0].id, UniqueUrls(gs[i])))
  }

  /** Every group of a table whose requests all have URLs. */
  lemma GroupsHaveUrls(rows: seq<SessionRow>, count: nat)
    requires Numbered(rows, count) && AllHaveUrls(rows)
    ensures forall i :: 0 <= i < count ==>
              |Groups(rows, count)[i]| > 0 && AllHaveUrls(Groups(rows, count)[i])
  {
    GroupsReadable(rows, count);
  }

  /** `select sessionID, count(distinct EXTRACTURL(request)) as unique_urls from session
      group by sessionID`, listed in ID order. */
  function UniqueUrlTable(rows: seq<SessionRow>, count: nat): seq<UrlCount>
    requires Sessionized(rows, count) && AllHaveUrls(rows)
  {
    SessionizedIsNumbered(rows, count);
    GroupsHaveUrls(rows, count);
    UrlRows(Groups(rows, count))
  }

  /** Row `i` of the table is session `i + 1` with the number of distinct URLs among its
      hits, between one and its number of hits. */
  lemma UniqueUrlRow(rows: seq<SessionRow>, count: nat, i: nat)
    requires Sessionized(rows, count) && AllHaveUrls(rows) && i < count
    ensures |UniqueUrlTable(rows, count)| == count
    ensures |Members(rows, i + 1)| > 0 && AllHaveUrls(Members(rows, i + 1))
    ensures UniqueUrlTable(rows, count)[i] == UrlCount(i + 1, UniqueUrls(Members(rows, i + 1)))
    ensures 1 <= UniqueUrlTable(rows, count)[i].uniqueUrls <= |Members(rows, i + 1)|
  {
    SessionizedIsNumbered(rows, count);
    GroupsHaveUrls(rows, count);
    var g := Groups(rows, count)[i];
    assert g[0] in g;
    UniqueUrlsBounds(g);
  }
}
