/** The fields of one access-log record that the core reads, and what it derives from them
    for each record: the client IP, the session key of sessionize.py:46 and the URL of
    sessionize.py:96-98. */
module WebLog {

  import opened Wrappers
  import opened LexOrder
  import opened Numerals
  import opened Text
  import opened Clock

  /** One parsed log line, reduced to the columns the queries use. */
  datatype WebLogRecord = WebLogRecord(
    timestamp: string,   // "YYYY-MM-DDTHH:MM:SS.ffffffZ"
    clientAddr: string,  // "ip:port"
    userAgent: string,
    request: string      // "METHOD URL PROTOCOL"
  )

  /** A timestamp whose characters 11..19 read "HH:MM:SS". */
  predicate IsTimestamp(ts: string)
  {
    |ts| >= 19 && IsClock(ts[11..19])
  }

  /** What the sessionizing query needs of a record: a readable time and an "ip:port". */
  predicate Sessionizable(r: WebLogRecord)
  {
    IsTimestamp(r.timestamp) && ':' in r.clientAddr
  }

  /** What `EXTRACTURL` needs: a request with at least two space-separated fields. */
  predicate HasUrl(r: WebLogRecord)
  {
    ' ' in r.request
  }

  /** `SUBSTR(clientip, 0, CHARINDEX(':', clientip))`: the text before the first ':'.
      Without a ':' the SQL value is NULL. */
  function ClientIp(addr: string): (ip: Option<string>)
    ensures ip.None? <==> ':' !in addr
    ensures ip.Some? ==> |ip.value| < |addr| && addr[..|ip.value|] == ip.value
                         && addr[|ip.value|] == ':' && ':' !in ip.value
  {
    match CharIndex(':', addr)
    case None => None
    case Some(i) => Some(addr[..i])
  }

  /** An "ip:port" text yields the ip. */
  lemma ClientIpOfHostPort(ip: string, port: string)
    requires ':' !in ip
    ensures ClientIp(ip + ":" + port) == Some(ip)
  {
    var addr := ip + ":" + port;
    assert addr[|ip|] == ':';
    var r := ClientIp(addr);
    assert r.Some?;
    assert r.value == ip;
  }

  /** `substr(timestamp,1,10)` */
  function Date(ts: string): string
    requires IsTimestamp(ts)
  {
    ts[..10]
  }

  /** `substr(timestamp,12,2)` */
  function Hour(ts: string): string
    requires IsTimestamp(ts)
  {
    ts[11..13]
  }

  /** `substr(timestamp,12,8)`, the "HH:MM:SS" part. */
  function ClockText(ts: string): (t: string)
    requires IsTimestamp(ts)
    ensures IsClock(t)
  {
    ts[11..19]
  }

  /** `int(substr(timestamp,15,2))` */
  function Minute(ts: string): nat
    requires IsTimestamp(ts)
  {
    var t := ts[11..19];
    assert ts[14..16] == [t[3], t[4]];
    ParseNat(ts[14..16])
  }

  /** The hour text and the minute of a timestamp are the first two fields of its clock. */
  lemma ClockOfTimestamp(ts: string)
    requires IsTimestamp(ts)
    ensures ParseClock(ClockText(ts)).h == ParseNat(Hour(ts))
    ensures ParseClock(ClockText(ts)).m == Minute(ts)
  {
    var t := ClockText(ts);
    ClockFields(t);
    assert t[..2] == Hour(ts);
    assert t[3..5] == ts[14..16];
  }

  /** `round(int(minute) / 15)`: the engine divides as doubles and rounds half up. No minute
      makes minute/15 end in exactly .5, so this is the integer (2 * minute + 15) / 30. */
  function MinuteBucket(minute: nat): (b: nat)
    ensures 15 * (2 * b - 1) <= 2 * minute < 15 * (2 * b + 1)
  {
    (2 * minute + 15) / 30
  }

  /** The five buckets of an hour are 0-7, 8-22, 23-37, 38-52 and 53-59. */
  lemma BucketRanges(minute: nat)
    requires minute <= 59
    ensures MinuteBucket(minute) <= 4
    ensures MinuteBucket(minute) == 0 <==> minute <= 7
    ensures MinuteBucket(minute) == 1 <==> 8 <= minute <= 22
    ensures MinuteBucket(minute) == 2 <==> 23 <= minute <= 37
    ensures MinuteBucket(minute) == 3 <==> 38 <= minute <= 52
    ensures MinuteBucket(minute) == 4 <==> 53 <= minute
  {
  }

  lemma BucketMonotone(a: nat, b: nat)
    requires a <= b
    ensures MinuteBucket(a) <= MinuteBucket(b)
  {
  }

  /** Minutes in one bucket are at most 14 apart. */
  lemma BucketWidth(a: nat, b: nat)
    requires MinuteBucket(a) == MinuteBucket(b)
    ensures a - b <= 14
  {
  }

  /** Neighbouring minutes that the rounding puts in different sessions. */
  lemma BucketEdges()
    ensures MinuteBucket(7) != MinuteBucket(8)
    ensures MinuteBucket(22) != MinuteBucket(23)
    ensures MinuteBucket(37) != MinuteBucket(38)
    ensures MinuteBucket(52) != MinuteBucket(53)
  {
  }

  /** The ORDER BY of the dense_rank window: ip, user agent, date, hour, minute bucket. */
  datatype SessionKey = SessionKey(ip: string, agent: string, date: string, hour: string, bucket: nat)

  function KeyOf(r: WebLogRecord): SessionKey
    requires Sessionizable(r)
  {
    var ts := r.timestamp;
    SessionKey(ClientIp(r.clientAddr).value, r.userAgent, Date(ts), Hour(ts),
               MinuteBucket(Minute(ts)))
  }

  /** Ascending lexicographic order on the key columns, in the order they are listed. */
  predicate KeyLess(a: SessionKey, b: SessionKey)
  {
    || StrLess(a.ip, b.ip)
    || (a.ip == b.ip && StrLess(a.agent, b.agent))
    || (a.ip == b.ip && a.agent == b.agent && StrLess(a.date, b.date))
    || (a.ip == b.ip && a.agent == b.agent && a.date == b.date && StrLess(a.hour, b.hour))
    || (a.ip == b.ip && a.agent == b.agent && a.date == b.date && a.hour == b.hour
        && a.bucket < b.bucket)
  }

  predicate KeyLe(a: SessionKey, b: SessionKey)
  {
    a == b || KeyLess(a, b)
  }

  lemma KeyLessIrreflexive(a: SessionKey)
    ensures !KeyLess(a, a)
  {
    StrLessIrreflexive(a.ip);
    StrLessIrreflexive(a.agent);
    StrLessIrreflexive(a.date);
    StrLessIrreflexive(a.hour);
  }

  lemma KeyLessTransitive(a: SessionKey, b: SessionKey, c: SessionKey)
    requires KeyLess(a, b) && KeyLess(b, c)
    ensures KeyLess(a, c)
  {
    StrLessIrreflexive(a.ip);
    StrLessIrreflexive(a.agent);
    StrLessIrreflexive(a.date);
    StrLessIrreflexive(a.hour);
    if StrLess(a.ip, b.ip) && StrLess(b.ip, c.ip) { StrLessTransitive(a.ip, b.ip, c.ip); }
    if StrLess(a.agent, b.agent) && StrLess(b.agent, c.agent) {
      StrLessTransitive(a.agent, b.agent, c.agent);
    }
    if StrLess(a.date, b.date) && StrLess(b.date, c.date) {
      StrLessTransitive(a.date, b.date, c.date);
    }
    if StrLess(a.hour, b.hour) && StrLess(b.hour, c.hour) {
      StrLessTransitive(a.hour, b.hour, c.hour);
    }
  }

  lemma KeyLessTotal(a: SessionKey, b: SessionKey)
    ensures a == b || KeyLess(a, b) || KeyLess(b, a)
  {
    StrLessTotal(a.ip, b.ip);
    StrLessTotal(a.agent, b.agent);
    StrLessTotal(a.date, b.date);
    StrLessTotal(a.hour, b.hour);
  }

  lemma KeyLessAsymmetric(a: SessionKey, b: SessionKey)
    requires KeyLess(a, b)
    ensures !KeyLess(b, a)
  {
    if KeyLess(b, a) {
      KeyLessTransitive(a, b, a);
      KeyLessIrreflexive(a);
    }
  }

  /** `EXTRACTURL(request)`, that is `request.split(" ")[1]`: the text after the first space,
      up to the next space or the end. */
  function ExtractUrl(request: string): (url: string)
    requires ' ' in request
    ensures ' ' !in url
    ensures var i := CharIndex(' ', request).value;
            && i + 1 + |url| <= |request|
            && request[i + 1..i + 1 + |url|] == url
            && (i + 1 + |url| == |request| || request[i + 1 + |url|] == ' ')
  {
    var i := CharIndex(' ', request).value;
    var rest := request[i + 1..];
    assert Split(request, ' ') == [request[..i]] + Split(rest, ' ');
    var url := Split(rest, ' ')[0];
    assert rest[..|url|] == request[i + 1..i + 1 + |url|];
    url
  }

  /** The URL of "VERB URL" followed by nothing or by " PROTOCOL" is URL. */
  lemma ExtractUrlOfRequest(verb: string, url: string, rest: string)
    requires ' ' !in verb && ' ' !in url
    requires |rest| == 0 || rest[0] == ' '
    ensures ' ' in verb + " " + url + rest
    ensures ExtractUrl(verb + " " + url + rest) == url
  {
    var request := verb + " " + url + rest;
    assert request[|verb|] == ' ';
    var i := CharIndex(' ', request).value;
    assert i == |verb|;
    assert request[i + 1..] == url + rest;
    assert forall k :: 0 <= k < |url| ==> request[i + 1 + k] == url[k];
    assert |rest| > 0 ==> request[i + 1 + |url|] == ' ';
    var u := ExtractUrl(request);
    assert forall k :: 0 <= k < |u| ==> u[k] == request[i + 1 + k];
  }
}
