# Web-log sessionizer, modelled in Dafny

`sessionize.py` reads an Elastic Load Balancer access log and answers four questions with
Spark SQL:

1. It sessionizes the log. Every record gets a `sessionID`, the `dense_rank` of the key
   (client IP, user agent, date, hour, minute bucket), and the query counts the distinct
   session IDs.
2. It computes the length of every session with the `TIMETAKEN` helper, and the field-wise
   average of those lengths.
3. It counts the distinct URLs of each session, using the `EXTRACTURL` helper.
4. It lists the "most engaged users", one row per session with its IP, user agent and
   length, in descending order of length.

This project restates that core as pure Dafny functions over a finite sequence of records,
and proves what each query computes.

Modules, in dependency order:

- `Wrappers` has `Option`, which stands for SQL `NULL` and for Python's `None`.
- `LexOrder` has the string order that `max`, `min` and `ORDER BY` use on text.
- `Numerals` covers decimal digits, `str(n)` and `zfill(2)`.
- `Text` covers `CHARINDEX`, `split` and `join` on one character.
- `Clock` covers durations as (hours, minutes, seconds) triples.
  - It models `TIMETAKEN` exactly as written, rendering each field with `zfill(2)` (`Numerals.Pad2`, joined by `Clock.Render`).
  - It also has a borrow-correct subtraction, `Elapsed`, against which `TIMETAKEN` is measured.
- `WebLog` has the record, the client-IP prefix, the minute bucket, the session key and
  `EXTRACTURL`.
- `Sessionizer` models the `dense_rank` query and `count(distinct sessionID)`.
  - The dense rank is computed in two phases: sort the distinct keys, then look each key up.
  - It is proved equal to SQL's definition, which is the number of distinct keys at or below a key.
- `Aggregator` covers grouping by session, `max`/`min` of the clock text and the per-session
  `TIMETAKEN`. It also builds the session-time table ordered by `time DESC` and the
  engagement table.
- `Reports` covers the average session time, the unique-URL counts, and the facts that tie
  the reports back to the sessions.

Spark's string comparison orders strings by their UTF-8 bytes. That is the same order as
comparing code points one by one, which is how `LexOrder` compares `char`s.

The record fields the core never reads are not modelled. These are the ELB name, the
back-end address, the processing times, the status codes, the byte counts and the SSL
fields. Records arrive already parsed, as `WebLog.WebLogRecord`.

## Model

| member | source | states |
|---|---|---|
| Text.CharIndex | sessionize.py:36-39 | `None` exactly when the character is absent; otherwise the first index holding it (no earlier occurrence) |
| WebLog.ClientIp | sessionize.py:46 | `SUBSTR(clientip, 0, CHARINDEX(':', clientip))` is `NULL` exactly when there is no `:`; otherwise it is the prefix before the first `:`, which contains no `:` |
| WebLog.ClientIpOfHostPort | sessionize.py:46 | for an `ip:port` text whose ip has no `:`, the extracted IP is that ip |
| WebLog.ClockOfTimestamp | sessionize.py:46 | the hour and minute parsed from the clock text `substr(timestamp,12,8)` are the key's `substr(timestamp,12,2)` and `substr(timestamp,15,2)` |
| WebLog.MinuteBucket | sessionize.py:46 | `round(minute/15)` with half-up rounding: the bucket b is the one with `15(2b-1) <= 2·minute < 15(2b+1)` |
| WebLog.BucketRanges | sessionize.py:46 | minutes 0-59 fall into buckets 0..4, namely 0-7, 8-22, 23-37, 38-52 and 53-59, each an if-and-only-if |
| WebLog.BucketMonotone | sessionize.py:46 | the bucket never decreases as the minute grows |
| WebLog.BucketWidth | sessionize.py:46 | two minutes in the same bucket are at most 14 apart |
| WebLog.BucketEdges | sessionize.py:46 | minutes 7/8, 22/23, 37/38 and 52/53 land in different buckets |
| WebLog.KeyLessTransitive | sessionize.py:46 | the `ORDER BY` of the window (ip, agent, date, hour, bucket) is transitive |
| WebLog.KeyLessTotal | sessionize.py:46 | any two distinct keys are ordered one way or the other |
| Sessionizer.InsertKey | sessionize.py:46 | inserting a key into a strictly increasing key list keeps it strictly increasing and adds exactly that key |
| Sessionizer.SortedKeys | sessionize.py:46 | the distinct keys, strictly increasing, with the same elements as the input keys |
| Sessionizer.IncreasingCard | sessionize.py:46 | a strictly increasing key list has no repeats: its set has its length |
| Sessionizer.RankIsDenseRank | sessionize.py:46 | the 1-based position of a key in the sorted distinct keys is its `dense_rank`, the number of distinct keys at or below it |
| Sessionizer.LabelIsDenseRank | sessionize.py:46 | labelling every record by its key's position in the sorted keys gives each record the `dense_rank` of its key |
| Sessionizer.Sessionize | sessionize.py:46 | the session rows are the dense-ranked records, as a multiset, ordered by `clientip, timestamp` |
| Sessionizer.RowsOfSessionize | sessionize.py:46 | every output row is an input record, labelled with the dense rank of its key |
| Sessionizer.EveryRecordOnce | sessionize.py:46 | there is one output row per input record, and every record appears with its rank |
| Sessionizer.SessionIdsInRange | sessionize.py:46 | every session ID lies in 1..K, where K is the number of distinct keys |
| Sessionizer.SessionIdsCovered | sessionize.py:46 | every ID in 1..K is used by some row |
| Sessionizer.SessionIdsFollowKeys | sessionize.py:46 | two rows share an ID if and only if their records share a key, and a smaller key gets a smaller ID |
| Sessionizer.SessionIdsIgnoreInputOrder | sessionize.py:46 | a record's session ID does not depend on the order of the input records |
| Sessionizer.SessionizeIsSessionized | sessionize.py:46 | the output satisfies `Sessionized`: IDs exactly 1..K and one key per ID |
| Sessionizer.TotalSessionsOfTable | sessionize.py:50 | `count(distinct sessionID)` of a sessionized table is its number of sessions |
| Sessionizer.TotalSessionsCountsKeys | sessionize.py:50 | `count(distinct sessionID)` equals the number of distinct session keys |
| Text.JoinSplit | sessionize.py:61-62 | joining the parts of `split(':')` with `:` gives back the text |
| Text.SplitJoin | sessionize.py:61-62 | splitting a `:`-join of colon-free parts gives back the parts |
| Numerals.ParseShowNat | sessionize.py:85 | `int(str(n)) == n` for every non-negative n, so each field of the concatenated average reads back as its mean |
| Numerals.Pad2Order | sessionize.py:68-74 | on 0..99, `zfill(2)` texts compare as their numbers do, and are equal only for equal numbers |
| Numerals.Pad2Parse | sessionize.py:68-74 | every two-digit text is `zfill(2)` of its value |
| Clock.TimeDelta | sessionize.py:60-74 | the four-branch borrow of `TIMETAKEN`; its seconds value is `end - start`, plus 120 in the branch where seconds and minutes are both negative |
| Clock.TimeTakenOfRendered | sessionize.py:60-74 | `TIMETAKEN` on two zero-padded clock texts is the zero-padded rendering of `TimeDelta` on their fields |
| Clock.TimeTakenSelf | sessionize.py:60-74 | `TIMETAKEN(t, t) == "00:00:00"` |
| Clock.TimeDeltaNoBorrow | sessionize.py:73-74 | with no negative minute or second delta, the result is the field-wise difference and equals the correct elapsed time |
| Clock.TimeDeltaSecondsBorrow | sessionize.py:69-70 | in the same hour, with minute delta at least 1 and a negative second delta, the result is the correct borrowed difference |
| Clock.TimeDeltaIsElapsedIff | sessionize.py:60-74 | `TIMETAKEN` agrees with the correct subtraction exactly when it is not the case that the seconds are negative and the minutes are not positive |
| Clock.Elapsed | sessionize.py:60-74 | the borrow-correct subtraction: its seconds value is `end - start`, and minutes and seconds stay in 0..59 for on-dial inputs |
| Clock.RenderParse | sessionize.py:60-74 | parsing the zero-padded rendering of a two-digit triple gives the triple back |
| Clock.ParseRender | sessionize.py:60-74 | rendering the fields of a `HH:MM:SS` text gives the text back |
| Clock.RenderOrder | sessionize.py:81 | on two-digit fields, rendered texts compare as the (h, m, s) triples do |
| Clock.ClockOrder | sessionize.py:81 | on `HH:MM:SS` texts, string order is the (h, m, s) order of their fields |
| Clock.DialOrder | sessionize.py:81 | with minutes and seconds in 0..59, the (h, m, s) order is the order of elapsed seconds |
| Clock.DoubleBorrowOvercounts | sessionize.py:66-68 | in the both-negative branch the result is the correct difference with two extra minutes |
| Clock.DoubleBorrowExample | sessionize.py:66-68 | `TIMETAKEN("10:05:10", "09:58:50")` is `"00:08:20"`, while the elapsed time is `"00:06:20"` |
| Clock.MinuteUnderflow | sessionize.py:69-70 | with equal minutes and a negative second delta, the minute field is -1 and the result is wrong |
| Clock.MinuteUnderflowExample | sessionize.py:69-70 | `TIMETAKEN("10:00:10", "09:00:50")` is `"01:-1:20"`, while the elapsed time is `"00:59:20"` |
| Aggregator.Members | sessionize.py:81 | the rows of one `group by sessionID` group: exactly the rows with that ID |
| Aggregator.MaxText | sessionize.py:81 | `max(...)` of a non-empty group is one of its values and no value is greater |
| Aggregator.MinText | sessionize.py:81 | `min(...)` of a non-empty group is one of its values and no value is smaller |
| Aggregator.MembersOneSession | sessionize.py:81 | each ID 1..K has a non-empty group whose records share one session key |
| Aggregator.SameKeyClocks | sessionize.py:46 | two records with the same key read the same hour, and their minutes are at most 14 apart |
| Aggregator.SessionBounds | sessionize.py:81 | a session's latest and earliest clock share the hour, are ordered, and are at most 14 minutes apart |
| Aggregator.WindowDelta | sessionize.py:60-74 | on such a pair `TIMETAKEN` is correct: hour 0, minutes 0..14, and seconds equal to the elapsed time |
| Aggregator.SessionDuration | sessionize.py:81 | a session's time is the rendered elapsed time between its latest and earliest clock, with hour 0 and at most 14 minutes |
| Aggregator.SortDesc | sessionize.py:81 | `order by time DESC`: the result is non-increasing in the time text and a permutation of the input |
| Aggregator.SortDescElements | sessionize.py:81 | sorting keeps the length and the set of elements |
| Aggregator.SessionTimes | sessionize.py:81 | `group by sessionID order by time DESC`: a permutation of the per-session table, non-increasing in the time text |
| Aggregator.SessionTimesRows | sessionize.py:81 | the session-time table has K rows, and a row is in it exactly when it is (id, time of that session's group) for some ID 1..K |
| Aggregator.SessionTimeRow | sessionize.py:81 | every table row's time is its group's `TIMETAKEN(max, min)` |
| Aggregator.SessionTimeListed | sessionize.py:81 | every session ID has its row |
| Aggregator.EngagementFilterIsMembers | sessionize.py:114 | grouping by (sessionID, ip, useragent) gives the same group as grouping by sessionID when the ID determines ip and agent |
| Aggregator.EngagementGroupIsSession | sessionize.py:114 | on the sessionized table, each (sessionID, ip, useragent) group is the whole session |
| Aggregator.EngagementOf | sessionize.py:114 | an engagement row carries the session ID, the user agent and the IP prefix of its record |
| Aggregator.EngagementRow | sessionize.py:114 | every engagement row describes its session: its time is the session's time, and every member has its IP and user agent |
| Aggregator.EngagementTableIds | sessionize.py:114 | the engagement table has one row per session, and its IDs are exactly 1..K |
| Aggregator.MostEngagedUsers | sessionize.py:114 | the most-engaged-users listing is the engagement table, non-increasing in the time text |
| Aggregator.MostEngagedUsersRows | sessionize.py:114 | the listing has K rows with IDs 1..K, and each row's time, IP and agent are those of its session |
| Reports.Mean | sessionize.py:85 | `int(avg(...))` of non-negative values is the floor of their mean: `n·m <= sum < n·(m+1)` |
| Reports.MeanBetween | sessionize.py:85 | the mean lies between any lower and upper bounds of the values, in particular between their minimum and maximum |
| Reports.FieldsOfClock | sessionize.py:85 | `int(substr(time,1,2))`, `(4,2)` and `(7,2)` are the hour, minute and second of the time text |
| Reports.AverageSessionTime | sessionize.py:85 | `NULL` exactly when there are no sessions |
| Reports.AverageFields | sessionize.py:85 | a non-NULL average splits at `:` into three digit strings that read back as the three truncated field means |
| Reports.AverageOfShortSessions | sessionize.py:85 | times with hour 0, minutes at most 14 and seconds at most 59 average to hour 0, minutes at most 14 and seconds at most 59 |
| Reports.ShortSession | sessionize.py:81 | on wall-clock readings, every session's time has hour 0, minutes at most 14 and seconds at most 59 |
| Reports.SessionTimesShort | sessionize.py:81 | every row of the session-time table has those bounds |
| Reports.DescendingByDuration | sessionize.py:81 | any listing descending in a wall-clock text key is descending in elapsed seconds |
| Reports.LongestSessionsFirst | sessionize.py:81 | `order by time DESC` lists the sessions from the longest to the shortest elapsed time |
| Reports.EngagedTimeOnDial | sessionize.py:114 | on wall-clock readings, every row of the most-engaged-users listing has a wall-clock duration |
| Reports.MostEngagedLongestFirst | sessionize.py:113-114 | the most-engaged-users listing puts the longest session times first: each row lasts at least as long, in elapsed seconds, as the next |
| Reports.AverageOfSessionTable | sessionize.py:85 | on the session-time table, the average is `NULL` only when there are no sessions, and otherwise it has hour 0, minutes at most 14 and seconds at most 59 |
| WebLog.ExtractUrl | sessionize.py:96-98 | `split(" ")[1]`: the text after the first space, up to the next space or the end; it has no space |
| WebLog.ExtractUrlOfRequest | sessionize.py:96-98 | the URL of `VERB URL` followed by nothing or by ` PROTOCOL` is URL |
| Reports.UniqueUrlsAppend | sessionize.py:104 | adding a row raises `count(distinct EXTRACTURL(request))` by one exactly when its URL is new |
| Reports.UniqueUrlsBounds | sessionize.py:104 | a group's distinct-URL count is at most its size, and at least 1 when it is non-empty |
| Reports.UniqueUrlRow | sessionize.py:104 | the row for session i+1 counts the distinct URLs of exactly that session's records, and that count lies in 1..size |

## Left out

- The Spark session, file loading, temp views, `.show()` and `sc.stop()` (sessionize.py:9-29, 41, 51, 76, 86, 101, 105, 115, 120). These are engine plumbing and output.
- The regular-expression tokenizer and the `Row` construction (sessionize.py:23-25). Records are taken as already parsed, with the four fields the queries read.
- Distributed execution. `dense_rank`, `group by`, `count(distinct ...)` and `avg` are explicit sequence operations here.
- The double arithmetic of `avg` and of `minute/15`.
  - The average is an exact integer mean, truncated. For non-negative values that is the same as `int()` of the double mean, as long as rounding error is ignored.
  - The bucket is the integer `(2·minute + 15) / 30`, because no minute makes `minute/15` end in exactly .5.
- `CHARINDEX` is registered without a return type, so Spark hands its result to `SUBSTR` as a string and casts it back. The model uses the integer directly.
- WebLog.Sessionizable: a record whose address has no `:` gets a `NULL` IP in Spark and still takes part in the ranking. The model requires the `:`.
- WebLog.IsTimestamp: requires characters 11..18 of a timestamp to be `DD:DD:DD`. Python's `int()` also accepts signs and surrounding blanks. A timestamp shorter than 19 characters is still ranked by sessionize.py:46. `TIMETAKEN` then raises `IndexError` or `ValueError` on most such clock texts, and silently reads an 18-character one. Such records are outside the model.
- WebLog.HasUrl: a request without a space makes `EXTRACTURL` raise `IndexError`, which fails the whole query. The URL operations require every request to have a space instead of modelling the failure.
- Clock.TimeTaken: carries no contract of its own. Its meaning is stated by `Clock.TimeTakenOfRendered`, which covers two-digit fields only. On texts with wider or unpadded fields, `TIMETAKEN`'s `int()` parses them, but the model only proves the parse.
- Sessionizer.Sessionize: only the multiset of rows and the `clientip, timestamp` order are stated. Spark leaves the order of rows that tie on both columns undefined, and the model's insertion order is not a promise.
- Aggregator.SortDesc: the order among sessions with equal time text is not stated, for the same reason. This also applies to `Aggregator.SessionTimes` and `Aggregator.MostEngagedUsers`.
- The per-session views (`Aggregator.SessionTimes`, `Aggregator.EngagementTable`, `Aggregator.MostEngagedUsers`, `Reports.UniqueUrlTable`) are defined on session tables only (`Sessionizer.Sessionized`: IDs exactly 1..K, one session key per ID), which is what sessionize.py:46 produces. They build one group per ID 1..K, which is what `group by` yields there. They are not a model of those queries on an arbitrary table.
- Reports.UniqueUrlTable: `group by sessionID` has no defined output order. The model lists sessions by ID, and the contract is stated row by row through `Reports.UniqueUrlRow`.
- Reports.LongestSessionsFirst: requires every timestamp's minutes and seconds to be below 60. `Reports.MostEngagedLongestFirst`, `Reports.AverageOfSessionTable` and `Reports.ShortSession` require the same. These are wall-clock readings. A log with minute or second fields of 60-99 is parsed by the code but not covered by these lemmas.
- `TIMETAKEN("10:05:10", "09:58:50")` yields `"00:08:20"`, while the borrow-correct difference (`Clock.Elapsed`) is `"00:06:20"`. The model computes what the code computes and records the difference under Findings.
- The comment at sessionize.py:45 speaks of "aggregating minutes under the 15 minutes group". The query rounds `minute/15` rather than truncating it, so the five groups of an hour are 8, 15, 15, 15 and 7 minutes wide. The model follows the query.

## Findings

| source | as written | input that shows it | evidently intended | confidence | as-written member | corrected member |
|---|---|---|---|---|---|---|
| sessionize.py:66-68 | when both the second and the minute delta are negative, the minute field becomes `mindelta + 61` | `TIMETAKEN("10:05:10", "09:58:50")` gives `"00:08:20"` | `"00:06:20"`: a borrow of one minute for the seconds and one hour for the minutes, that is `mindelta + 59` | not executed | Clock.DoubleBorrowOvercounts, Clock.DoubleBorrowExample | Clock.Elapsed |
| sessionize.py:69-70 | when only the second delta is negative, the minute field is `mindelta - 1` with no hour borrow, so equal minutes give minute `-1` | `TIMETAKEN("10:00:10", "09:00:50")` gives `"01:-1:20"` | `"00:59:20"` | not executed | Clock.MinuteUnderflow, Clock.MinuteUnderflowExample | Clock.Elapsed |

Neither branch is reached by the program's own queries. All records of a session share the
hour, and their minutes lie within one minute bucket, at most 14 minutes apart
(`WebLog.BucketWidth`). So the latest and earliest clock of a
session never have a negative minute delta together with a negative second delta, and never
have equal minutes with a negative second delta. `Aggregator.WindowDelta` and
`Aggregator.SessionDuration` prove that on those pairs `TIMETAKEN` equals `Clock.Elapsed`.
