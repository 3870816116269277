/** The per-session aggregations over the session table: the duration of a session
    (sessionize.py:81) and the engagement table grouped by session, IP and user agent
    (sessionize.py:114), both listed by duration text, longest first. */
module Aggregator {

  import opened Wrappers
  import opened LexOrder
  import opened Clock
  import opened WebLog
  import opened Sessionizer

  // ---------------------------------------------------------------------------------
  // Groups.

  /** The rows of session `id`: one group of `group by sessionID`. */
  function Members(rows: seq<SessionRow>, id: nat): (ms: seq<SessionRow>)
    ensures forall x :: x in ms <==> x in rows && x.id == id
    ensures |ms| <= |rows|
  {
    if |rows| == 0 then
      []
    else
      var rest := Members(rows[1..], id);
      assert rows == [rows[0]] + rows[1..];
      if rows[0].id == id then [rows[0]] + rest else rest
  }

  /** A group whose records all have one session key. */
  predicate OneSession(ms: seq<SessionRow>)
  {
    && (forall x :: x in ms ==> Sessionizable(x.rec))
    && (forall a, b :: a in ms && b in ms ==> KeyOf(a.rec) == KeyOf(b.rec))
  }

  /** What grouping by `sessionID` needs of a table: readable records, and every ID in
      1..count present. A session table has this shape (lemma `SessionizedIsNumbered`). */
  predicate Numbered(rows: seq<SessionRow>, count: nat)
  {
    && (forall x :: x in rows ==> Sessionizable(x.rec))
    && (forall id: nat :: 1 <= id <= count ==> id in Ids(rows))
  }

  lemma SessionizedIsNumbered(rows: seq<SessionRow>, count: nat)
    requires Sessionized(rows, count)
    ensures Numbered(rows, count)
  {
  }

  /** Every ID in 1..count names a non-empty group of readable records. */
  lemma MembersNonEmpty(rows: seq<SessionRow>, count: nat, id: nat)
    requires Numbered(rows, count) && 1 <= id <= count
    ensures |Members(rows, id)| > 0
    ensures forall x :: x in Members(rows, id) ==> Sessionizable(x.rec)
  {
    assert id in Ids(rows);
    var x :| x in rows && x.id == id;
    assert x in Members(rows, id);
  }

  /** In a session table every group has one session key. */
  lemma MembersOneSession(rows: seq<SessionRow>, count: nat, id: nat)
    requires Sessionized(rows, count) && 1 <= id <= count
    ensures |Members(rows, id)| > 0 && OneSession(Members(rows, id))
  {
    MembersNonEmpty(rows, count, id);
  }

  // ---------------------------------------------------------------------------------
  // max and min of the clock text.

  /** `substr(timestamp,12,8)` of every row of a group. */
  function Clocks(ms: seq<SessionRow>): (ts: seq<string>)
    requires forall x :: x in ms ==> Sessionizable(x.rec)
    ensures |ts| == |ms|
    ensures forall i :: 0 <= i < |ms| ==>
              Sessionizable(ms[i].rec) && ts[i] == ClockText(ms[i].rec.timestamp)
    ensures forall t :: t in ts ==> IsClock(t)
  {
    seq(|ms|, i requires 0 <= i < |ms| =>
      assert Sessionizable(ms[i].rec); ClockText(ms[i].rec.timestamp))
  }

  lemma RaiseUpperBound(ts: seq<string>, m: string, x: string)
    requires forall t :: t in ts ==> StrLe(t, m)
    requires StrLess(m, x)
    ensures forall t :: t in ts ==> StrLe(t, x)
  {
    forall t | t in ts
      ensures StrLe(t, x)
    {
      if t != m {
        StrLessTransitive(t, m, x);
      }
    }
  }

  lemma LowerLowerBound(ts: seq<string>, m: string, x: string)
    requires forall t :: t in ts ==> StrLe(m, t)
    requires StrLess(x, m)
    ensures forall t :: t in ts ==> StrLe(x, t)
  {
    forall t | t in ts
      ensures StrLe(x, t)
    {
      if t != m {
        StrLessTransitive(x, m, t);
      }
    }
  }

  /** SQL `max` on a string column: an element at or above every element. */
  function MaxText(ts: seq<string>): (r: string)
    requires |ts| > 0
    ensures r in ts
    ensures forall t :: t in ts ==> StrLe(t, r)
  {
    if |ts| == 1 then
      ts[0]
    else
      var m := MaxText(ts[1..]);
      assert forall t :: t in ts ==> t == ts[0] || t in ts[1..];
      if StrLess(m, ts[0]) then
        RaiseUpperBound(ts[1..], m, ts[0]);
        ts[0]
      else
        StrLessTotal(ts[0], m);
        m
  }

  /** SQL `min` on a string column: an element at or below every element. */
  function MinText(ts: seq<string>): (r: string)
    requires |ts| > 0
    ensures r in ts
    ensures forall t :: t in ts ==> StrLe(r, t)
  {
    if |ts| == 1 then
      ts[0]
    else
      var m := MinText(ts[1..]);
      assert forall t :: t in ts ==> t == ts[0] || t in ts[1..];
      if StrLess(ts[0], m) then
        LowerLowerBound(ts[1..], m, ts[0]);
        ts[0]
      else
        StrLessTotal(ts[0], m);
        m
  }

  /** `TIMETAKEN(max(substr(timestamp,12,8)), min(substr(timestamp,12,8)))` over a group. */
  function GroupTime(ms: seq<SessionRow>): string
    requires |ms| > 0 && forall x :: x in ms ==> Sessionizable(x.rec)
  {
    var ts := Clocks(ms);
    TimeTaken(MaxText(ts), MinText(ts))
  }

  // ---------------------------------------------------------------------------------
  // A session's duration.

  /** Two readings in one hour, the later at most 14 minutes after the earlier:
      TIMETAKEN takes neither faulty branch and the difference is under 15 minutes. */
  lemma WindowDelta(hi: Duration, lo: Duration)
    requires hi.h == lo.h && !DurLess(hi, lo) && hi.m - lo.m <= 14
    ensures TimeDelta(hi, lo) == Elapsed(hi, lo)
    ensures Elapsed(hi, lo).h == 0 && 0 <= Elapsed(hi, lo).m <= 14
    ensures OnDial(hi) && OnDial(lo) ==>
              Fits(Elapsed(hi, lo)) && Elapsed(hi, lo).s < 60 && Seconds(hi) >= Seconds(lo)
  {
    TimeDeltaIsElapsedIff(hi, lo);
  }

  /** Clock readings of a group whose every reading is a wall-clock time. */
  predicate DialClocks(ms: seq<SessionRow>)
    requires forall x :: x in ms ==> Sessionizable(x.rec)
  {
    forall x :: x in ms ==>
      Sessionizable(x.rec) && OnDial(ParseClock(ClockText(x.rec.timestamp)))
  }

  /** Records of one session share the hour, and their minutes lie in one bucket. */
  lemma SameKeyClocks(a: WebLogRecord, b: WebLogRecord)
    requires Sessionizable(a) && Sessionizable(b) && KeyOf(a) == KeyOf(b)
    ensures ParseClock(ClockText(a.timestamp)).h == ParseClock(ClockText(b.timestamp)).h
    ensures ParseClock(ClockText(a.timestamp)).m - ParseClock(ClockText(b.timestamp)).m <= 14
  {
    ClockOfTimestamp(a.timestamp);
    ClockOfTimestamp(b.timestamp);
    assert Hour(a.timestamp) == Hour(b.timestamp);
    BucketWidth(Minute(a.timestamp), Minute(b.timestamp));
  }

  /** The latest and earliest readings of a session are one hour's readings less than
      15 minutes apart, the later at or after the earlier. */
  lemma SessionBounds(ms: seq<SessionRow>)
    requires |ms| > 0 && OneSession(ms)
    ensures var hi, lo := ParseClock(MaxText(Clocks(ms))), ParseClock(MinText(Clocks(ms)));
            hi.h == lo.h && !DurLess(hi, lo) && hi.m - lo.m <= 14
    ensures DialClocks(ms) ==>
              OnDial(ParseClock(MaxText(Clocks(ms)))) && OnDial(ParseClock(MinText(Clocks(ms))))
  {
    var ts := Clocks(ms);
    var max, min := MaxText(ts), MinText(ts);
    var i :| 0 <= i < |ts| && ts[i] == max;
    var j :| 0 <= j < |ts| && ts[j] == min;
    assert ms[i] in ms && ms[j] in ms;
    SameKeyClocks(ms[i].rec, ms[j].rec);
    ClockOrder(max, min);
    assert StrLe(min, max);
    if min != max {
      StrLessAsymmetric(min, max);
    } else {
      StrLessIrreflexive(max);
    }
  }

  /** A session's duration is TIMETAKEN's text for the borrow-correct difference of its
      latest and earliest readings: hour 00, under 15 minutes, and on wall-clock readings
      a two-digit clock text whose value is `max - min` exactly. */
  lemma SessionDuration(ms: seq<SessionRow>)
    requires |ms| > 0 && OneSession(ms)
    ensures var hi, lo := ParseClock(MaxText(Clocks(ms))), ParseClock(MinText(Clocks(ms)));
            && GroupTime(ms) == Render(Elapsed(hi, lo))
            && Elapsed(hi, lo).h == 0 && 0 <= Elapsed(hi, lo).m <= 14
    ensures var hi, lo := ParseClock(MaxText(Clocks(ms))), ParseClock(MinText(Clocks(ms)));
            DialClocks(ms) ==>
              && IsClock(GroupTime(ms))
              && ParseClock(GroupTime(ms)) == Elapsed(hi, lo)
              && Seconds(ParseClock(GroupTime(ms))) == Seconds(hi) - Seconds(lo) >= 0
  {
    var ts := Clocks(ms);
    var hi, lo := ParseClock(MaxText(ts)), ParseClock(MinText(ts));
    SessionBounds(ms);
    WindowDelta(hi, lo);
    if DialClocks(ms) {
      RenderParse(Elapsed(hi, lo));
    }
  }

  // ---------------------------------------------------------------------------------
  // `order by time DESC`.

  /** Each element's key is at or above its successor's. */
  predicate Descending<T>(xs: seq<T>, key: T -> string)
  {
    forall i :: 0 < i < |xs| ==> !StrLess(key(xs[i - 1]), key(xs[i]))
  }

  function InsertDesc<T(==)>(x: T, xs: seq<T>, key: T -> string): (r: seq<T>)
    requires Descending(xs, key)
    ensures Descending(r, key)
    ensures multiset(r) == multiset(xs) + multiset{x}
    ensures |r| == |xs| + 1 && (r[0] == x || (|xs| > 0 && r[0] == xs[0]))
    decreases |xs|
  {
    if |xs| == 0 then
      [x]
    else if !StrLess(key(x), key(xs[0])) then
      [x] + xs
    else
      StrLessAsymmetric(key(x), key(xs[0]));
      assert xs == [xs[0]] + xs[1..];
      [xs[0]] + InsertDesc(x, xs[1..], key)
  }

  /** Insertion sort, largest key first. */
  function SortDesc<T(==)>(xs: seq<T>, key: T -> string): (r: seq<T>)
    ensures Descending(r, key)
    ensures multiset(r) == multiset(xs)
    decreases |xs|
  {
    if |xs| == 0 then
      []
    else
      assert xs == [xs[0]] + xs[1..];
      InsertDesc(xs[0], SortDesc(xs[1..], key), key)
  }

  /** Sorting keeps the elements, each as often as before. */
  lemma SortDescElements<T>(xs: seq<T>, key: T -> string)
    ensures |SortDesc(xs, key)| == |xs|
    ensures forall x :: x in SortDesc(xs, key) <==> x in xs
  {
    var r := SortDesc(xs, key);
    assert |r| == |multiset(r)| == |multiset(xs)| == |xs|;
    forall x
      ensures x in r <==> x in xs
    {
      assert x in r <==> x in multiset(r);
      assert x in xs <==> x in multiset(xs);
    }
  }

  // ---------------------------------------------------------------------------------
  // `group by sessionID`, one group per ID.

  /** Every record of the table is readable. */
  predicate AllReadable(rows: seq<SessionRow>)
  {
    forall x :: x in rows ==> Sessionizable(x.rec)
  }

  /** A group of readable rows of the table, with at least one row. */
  predicate Readable(g: seq<SessionRow>, rows: seq<SessionRow>)
  {
    |g| > 0 && forall x :: x in g ==> x in rows && Sessionizable(x.rec)
  }

  /** The groups of sessions 1..count, in ID order. */
  function Groups(rows: seq<SessionRow>, count: nat): (gs: seq<seq<SessionRow>>)
    ensures |gs| == count
    ensures forall i :: 0 <= i < count ==> gs[i] == Members(rows, i + 1)
  {
    seq(count, i requires 0 <= i < count => Members(rows, i + 1))
  }

  lemma GroupsReadable(rows: seq<SessionRow>, count: nat)
    requires Numbered(rows, count)
    ensures forall i :: 0 <= i < count ==> Readable(Groups(rows, count)[i], rows)
  {
    forall i | 0 <= i < count
      ensures Readable(Groups(rows, count)[i], rows)
    {
      MembersNonEmpty(rows, count, i + 1);
    }
  }

  // ---------------------------------------------------------------------------------
  // The session-time table (sessionize.py:81).

  datatype SessionTime = SessionTime(id: nat, time: string)

  /** One row per group: its ID and its duration. */
  function TimeRows(rows: seq<SessionRow>, gs: seq<seq<SessionRow>>): (t: seq<SessionTime>)
    requires forall i {:trigger gs[i]} :: 0 <= i < |gs| ==> Readable(gs[i], rows)
    ensures |t| == |gs|
    ensures forall i :: 0 <= i < |gs| ==>
              Readable(gs[i], rows) && t[i] == SessionTime(gs[i][0].id, GroupTime(gs[i]))
  {
    seq(|gs|, i requires 0 <= i < |gs| =>
      assert Readable(gs[i], rows);
      SessionTime(gs[i][0].id, GroupTime(gs[i])))
  }

  /** One row per session, in ID order. */
  function SessionTimeTable(rows: seq<SessionRow>, count: nat): seq<SessionTime>
    requires Sessionized(rows, count)
  {
    SessionizedIsNumbered(rows, count);
    GroupsReadable(rows, count);
    TimeRows(rows, Groups(rows, count))
  }

  /** `select sessionID, TIMETAKEN(max(..), min(..)) time from session group by sessionID
      order by time DESC`. */
  function SessionTimes(rows: seq<SessionRow>, count: nat): (t: seq<SessionTime>)
    requires Sessionized(rows, count)
    ensures multiset(t) == multiset(SessionTimeTable(rows, count))
    ensures Descending(t, (x: SessionTime) => x.time)
  {
    SortDesc(SessionTimeTable(rows, count), (x: SessionTime) => x.time)
  }

  /** A row of the session-time table is a session's ID and its duration. */
  lemma SessionTimeRow(rows: seq<SessionRow>, count: nat, x: SessionTime)
    requires Sessionized(rows, count) && x in SessionTimeTable(rows, count)
    ensures 1 <= x.id <= count && |Members(rows, x.id)| > 0
    ensures x.time == GroupTime(Members(rows, x.id))
  {
    SessionizedIsNumbered(rows, count);
    GroupsReadable(rows, count);
  }

  /** Every session has its row in the session-time table. */
  lemma SessionTimeListed(rows: seq<SessionRow>, count: nat, id: nat)
    requires Sessionized(rows, count) && 1 <= id <= count
    ensures |Members(rows, id)| > 0
    ensures SessionTime(id, GroupTime(Members(rows, id))) in SessionTimeTable(rows, count)
  {
    var gs, table := Groups(rows, count), SessionTimeTable(rows, count);
    SessionizedIsNumbered(rows, count);
    GroupsReadable(rows, count);
    assert gs[id - 1][0] in gs[id - 1];
    assert table[id - 1] == SessionTime(id, GroupTime(Members(rows, id)));
  }

  /** The session-time listing has one row per session, carrying the session's ID and
      the duration of its rows. */
  lemma SessionTimesRows(rows: seq<SessionRow>, count: nat)
    requires Sessionized(rows, count)
    ensures |SessionTimes(rows, count)| == count
    ensures forall x :: x in SessionTimes(rows, count) <==>
              1 <= x.id <= count && |Members(rows, x.id)| > 0
              && x.time == GroupTime(Members(rows, x.id))
  {
    var table := SessionTimeTable(rows, count);
    SortDescElements(table, (x: SessionTime) => x.time);
    forall x
      ensures x in table <==>
              1 <= x.id <= count && |Members(rows, x.id)| > 0
              && x.time == GroupTime(Members(rows, x.id))
    {
      if x in table {
        SessionTimeRow(rows, count, x);
      }
      if 1 <= x.id <= count && |Members(rows, x.id)| > 0
         && x.time == GroupTime(Members(rows, x.id)) {
        SessionTimeListed(rows, count, x.id);
      }
    }
  }

  // ---------------------------------------------------------------------------------
  // The engagement table (sessionize.py:114).

  /** The rows of one `group by sessionID, ip, useragent` group. */
  function EngagementMembers(rows: seq<SessionRow>, id: nat, ip: string, agent: string)
    : (ms: seq<SessionRow>)
    ensures forall x :: x in ms <==>
              x in rows && x.id == id && ClientIp(x.rec.clientAddr) == Some(ip)
              && x.rec.userAgent == agent
  {
    if |rows| == 0 then
      []
    else
      var x := rows[0];
      var rest := EngagementMembers(rows[1..], id, ip, agent);
      assert rows == [x] + rows[1..];
      if x.id == id && ClientIp(x.rec.clientAddr) == Some(ip) && x.rec.userAgent == agent then
        [x] + rest
      else
        rest
  }

  /** When every row of session `id` has one IP and agent, grouping by the three columns
      keeps the session's rows in their order. */
  lemma {:induction false} EngagementFilterIsMembers(rows: seq<SessionRow>, id: nat,
                                                     ip: string, agent: string)
    requires forall x :: x in rows && x.id == id ==>
               ClientIp(x.rec.clientAddr) == Some(ip) && x.rec.userAgent == agent
    ensures EngagementMembers(rows, id, ip, agent) == Members(rows, id)
  {
    if |rows| > 0 {
      assert forall x :: x in rows[1..] ==> x in rows;
      EngagementFilterIsMembers(rows[1..], id, ip, agent);
    }
  }

  /** In a session table, the engagement group of a row is its whole session. */
  lemma EngagementGroupIsSession(rows: seq<SessionRow>, count: nat, x: SessionRow)
    requires Sessionized(rows, count) && x in rows
    ensures EngagementMembers(rows, x.id, ClientIp(x.rec.clientAddr).value, x.rec.userAgent)
            == Members(rows, x.id)
  {
    EngagementFilterIsMembers(rows, x.id, ClientIp(x.rec.clientAddr).value, x.rec.userAgent);
  }

  datatype Engagement = Engagement(id: nat, ip: string, agent: string, time: string)

  /** The engagement row of the group of `x`: its ID, IP and agent, and the duration of
      the rows sharing all three. */
  function EngagementOf(rows: seq<SessionRow>, x: SessionRow): (e: Engagement)
    requires x in rows && AllReadable(rows)
    ensures e.id == x.id && e.agent == x.rec.userAgent
    ensures Some(e.ip) == ClientIp(x.rec.clientAddr)
  {
    var ip := ClientIp(x.rec.clientAddr).value;
    var group := EngagementMembers(rows, x.id, ip, x.rec.userAgent);
    assert x in group;
    Engagement(x.id, ip, x.rec.userAgent, GroupTime(group))
  }

  /** One row per group, taken from the group's first row. */
  function EngagementRows(rows: seq<SessionRow>, gs: seq<seq<SessionRow>>): (t: seq<Engagement>)
    requires AllReadable(rows)
    requires forall i {:trigger gs[i]} :: 0 <= i < |gs| ==> Readable(gs[i], rows)
    ensures |t| == |gs|
    ensures forall i :: 0 <= i < |gs| ==>
              Readable(gs[i], rows) && t[i] == EngagementOf(rows, gs[i][0])
  {
    seq(|gs|, i requires 0 <= i < |gs| =>
      assert Readable(gs[i], rows) && gs[i][0] in gs[i];
      EngagementOf(rows, gs[i][0]))
  }

  /** One engagement row per session, in ID order. */
  function EngagementTable(rows: seq<SessionRow>, count: nat): seq<Engagement>
    requires Sessionized(rows, count)
  {
    SessionizedIsNumbered(rows, count);
    GroupsReadable(rows, count);
    EngagementRows(rows, Groups(rows, count))
  }

  /** `select sessionID, ip, useragent, TIMETAKEN(..) time from session
      group by sessionID, ip, useragent order by time DESC`. */
  function MostEngagedUsers(rows: seq<SessionRow>, count: nat): (t: seq<Engagement>)
    requires Sessionized(rows, count)
    ensures multiset(t) == multiset(EngagementTable(rows, count))
    ensures Descending(t, (e: Engagement) => e.time)
  {
    SortDesc(EngagementTable(rows, count), (e: Engagement) => e.time)
  }

  function EngagementIds(t: seq<Engagement>): set<nat>
  {
    set e | e in t :: e.id
  }

  /** An engagement row is `EngagementOf` the first row of some session. */
  lemma EngagementRowSource(rows: seq<SessionRow>, count: nat, e: Engagement)
    returns (y: SessionRow)
    requires Sessionized(rows, count) && e in EngagementTable(rows, count)
    ensures y in rows && y.id == e.id && 1 <= e.id <= count
    ensures y in Members(rows, e.id) && e == EngagementOf(rows, y)
  {
    SessionizedIsNumbered(rows, count);
    GroupsReadable(rows, count);
    var gs := Groups(rows, count);
    var i :| 0 <= i < count && EngagementTable(rows, count)[i] == e;
    y := gs[i][0];
  }

  /** In a session table, an engagement row is a session's ID, the IP and agent that
      every record of the session has, and the session's duration. */
  lemma EngagementRow(rows: seq<SessionRow>, count: nat, e: Engagement)
    requires Sessionized(rows, count)
    requires e in EngagementTable(rows, count)
    ensures 1 <= e.id <= count && |Members(rows, e.id)| > 0
    ensures e.time == GroupTime(Members(rows, e.id))
    ensures forall x :: x in Members(rows, e.id) ==>
              ClientIp(x.rec.clientAddr) == Some(e.ip) && x.rec.userAgent == e.agent
  {
    var y := EngagementRowSource(rows, count, e);
    EngagementGroupIsSession(rows, count, y);
    forall x | x in Members(rows, e.id)
      ensures ClientIp(x.rec.clientAddr) == Some(e.ip) && x.rec.userAgent == e.agent
    {
      assert KeyOf(x.rec) == KeyOf(y.rec);
    }
  }

  /** Every session has an engagement row. */
  lemma EngagementListed(rows: seq<SessionRow>, count: nat, id: nat)
    requires Sessionized(rows, count) && 1 <= id <= count
    ensures id in EngagementIds(EngagementTable(rows, count))
  {
    var gs, table := Groups(rows, count), EngagementTable(rows, count);
    SessionizedIsNumbered(rows, count);
    GroupsReadable(rows, count);
    var g := gs[id - 1];
    assert Readable(g, rows) && g == Members(rows, id);
    assert g[0] in g;
    assert table[id - 1] in table;
  }

  /** The engagement table names sessions 1..count, each once. */
  lemma EngagementTableIds(rows: seq<SessionRow>, count: nat)
    requires Sessionized(rows, count)
    ensures |EngagementTable(rows, count)| == count
    ensures EngagementIds(EngagementTable(rows, count)) == UpTo(count)
  {
    forall id: nat | 1 <= id <= count
      ensures id in EngagementIds(EngagementTable(rows, count))
    {
      EngagementListed(rows, count, id);
    }
    forall e | e in EngagementTable(rows, count)
      ensures 1 <= e.id <= count
    {
      var _ := EngagementRowSource(rows, count, e);
    }
  }

  /** Tables with the same rows name the same sessions. */
  lemma EngagementIdsOfSameRows(t: seq<Engagement>, u: seq<Engagement>)
    requires forall e :: e in t <==> e in u
    ensures EngagementIds(t) == EngagementIds(u)
  {
  }

  /** In a session table every engagement row describes its session. */
  lemma EngagementRowsDescribeSessions(rows: seq<SessionRow>, count: nat)
    requires Sessionized(rows, count)
    ensures Numbered(rows, count)
    ensures forall e :: e in EngagementTable(rows, count) ==>
              && 1 <= e.id <= count && |Members(rows, e.id)| > 0
              && e.time == GroupTime(Members(rows, e.id))
              && forall x :: x in Members(rows, e.id) ==>
                   ClientIp(x.rec.clientAddr) == Some(e.ip) && x.rec.userAgent == e.agent
  {
    forall e | e in EngagementTable(rows, count)
      ensures 1 <= e.id <= count && |Members(rows, e.id)| > 0
      ensures e.time == GroupTime(Members(rows, e.id))
      ensures forall x :: x in Members(rows, e.id) ==>
                ClientIp(x.rec.clientAddr) == Some(e.ip) && x.rec.userAgent == e.agent
    {
      EngagementRow(rows, count, e);
    }
  }

  /** In a session table there is one engagement row per session. It carries the IP and
      agent that every record of the session has, and the session's duration. */
  lemma MostEngagedUsersRows(rows: seq<SessionRow>, count: nat)
    requires Sessionized(rows, count)
    ensures Numbered(rows, count)
    ensures |MostEngagedUsers(rows, count)| == count
    ensures forall e :: e in MostEngagedUsers(rows, count) ==>
              && 1 <= e.id <= count && |Members(rows, e.id)| > 0
              && e.time == GroupTime(Members(rows, e.id))
              && forall x :: x in Members(rows, e.id) ==>
                   ClientIp(x.rec.clientAddr) == Some(e.ip) && x.rec.userAgent == e.agent
    ensures EngagementIds(MostEngagedUsers(rows, count)) == UpTo(count)
  {
    var table := EngagementTable(rows, count);
    SortDescElements(table, (e: Engagement) => e.time);
    EngagementTableIds(rows, count);
    EngagementRowsDescribeSessions(rows, count);
    EngagementIdsOfSameRows(MostEngagedUsers(rows, count), table);
  }
}
