/** Time arithmetic on "HH:MM:SS" text: `TIMETAKEN` (sessionize.py:60-74) as written, its
    zero-padded rendering, and the borrow-correct subtraction it was meant to compute. */
module Clock {

  import opened LexOrder
  import opened Numerals
  import opened Text

  /** An hours/minutes/seconds triple. TIMETAKEN's raw fields may be negative or exceed 59. */
  datatype Duration = Hms(h: int, m: int, s: int)

  function Seconds(d: Duration): int
  {
    3600 * d.h + 60 * d.m + d.s
  }

  /** Lexicographic order on (h, m, s). */
  predicate DurLess(a: Duration, b: Duration)
  {
    a.h < b.h || (a.h == b.h && (a.m < b.m || (a.m == b.m && a.s < b.s)))
  }

  /** Every field renders as exactly two digits. */
  predicate Fits(d: Duration)
  {
    0 <= d.h < 100 && 0 <= d.m < 100 && 0 <= d.s < 100
  }

  /** A wall-clock reading: minutes and seconds in 0..59. */
  predicate OnDial(d: Duration)
  {
    0 <= d.h && 0 <= d.m < 60 && 0 <= d.s < 60
  }

  /** What `int()` accepts after `split(":")`: at least three fields, the first three
      non-empty runs of decimal digits. */
  predicate IsTimeText(t: string)
  {
    var f := Split(t, ':');
    && |f| >= 3
    && |f[0]| > 0 && AllDigits(f[0])
    && |f[1]| > 0 && AllDigits(f[1])
    && |f[2]| > 0 && AllDigits(f[2])
  }

  /** The fixed-width shape "HH:MM:SS" that `substr(timestamp,12,8)` yields on ISO timestamps. */
  predicate IsClockShape(t: string)
  {
    && |t| == 8 && t[2] == ':' && t[5] == ':'
    && IsDigit(t[0]) && IsDigit(t[1]) && IsDigit(t[3]) && IsDigit(t[4])
    && IsDigit(t[6]) && IsDigit(t[7])
  }

  /** A clock text. The shape alone implies `IsTimeText` (lemma `ClockFields`); the
      conjunct is kept so that TIMETAKEN's precondition is at hand wherever a clock is. */
  predicate IsClock(t: string)
  {
    IsClockShape(t) && IsTimeText(t)
  }

  /** `t.split(":")` followed by `int()` of the first three fields. */
  function ParseClock(t: string): Duration
    requires IsTimeText(t)
  {
    var f := Split(t, ':');
    Hms(ParseNat(f[0]), ParseNat(f[1]), ParseNat(f[2]))
  }

  /** `str(h).zfill(2) + ":" + str(m).zfill(2) + ":" + str(s).zfill(2)`: the three padded
      fields joined by ':' (lemma `RenderIsConcat`). */
  function Render(d: Duration): string
  {
    Join([Pad2(d.h), Pad2(d.m), Pad2(d.s)], ':')
  }

  lemma RenderIsConcat(d: Duration)
    ensures Render(d) == Pad2(d.h) + ":" + Pad2(d.m) + ":" + Pad2(d.s)
  {
    var parts := [Pad2(d.h), Pad2(d.m), Pad2(d.s)];
    assert parts[1..][1..] == [Pad2(d.s)];
    assert Join(parts[1..], ':') == Pad2(d.m) + ":" + Pad2(d.s);
  }

  /** "HH:MM:SS" is its three fields joined by ':'. */
  lemma ClockIsJoin(t: string)
    requires IsClockShape(t)
    ensures Join([t[..2], t[3..5], t[6..]], ':') == t
  {
    var parts := [t[..2], t[3..5], t[6..]];
    assert parts[2..] == [t[6..]];
    assert Join(parts[2..], ':') == t[6..];
    assert parts[1..][1..] == parts[2..];
    assert Join(parts[1..], ':') == t[3..5] + [':'] + t[6..];
    assert t == t[..2] + [':'] + (t[3..5] + [':'] + t[6..]);
  }

  /** On "HH:MM:SS", splitting yields the three two-digit fields. */
  lemma ClockFields(t: string)
    requires IsClockShape(t)
    ensures Split(t, ':') == [t[..2], t[3..5], t[6..]]
    ensures IsClock(t)
    ensures ParseClock(t) == Hms(ParseNat(t[..2]), ParseNat(t[3..5]), ParseNat(t[6..]))
  {
    var parts := [t[..2], t[3..5], t[6..]];
    ClockIsJoin(t);
    assert t[..2] == [t[0], t[1]] && t[3..5] == [t[3], t[4]] && t[6..] == [t[6], t[7]];
    assert forall i :: 0 <= i < 3 ==> ':' !in parts[i];
    SplitJoin(parts, ':');
  }

  /** Rendering then parsing is the identity on two-digit fields. */
  lemma RenderParse(d: Duration)
    requires Fits(d)
    ensures IsClock(Render(d))
    ensures ParseClock(Render(d)) == d
  {
    var t := Render(d);
    RenderIsConcat(d);
    ParsePad2(d.h);
    ParsePad2(d.m);
    ParsePad2(d.s);
    assert t[..2] == Pad2(d.h) && t[3..5] == Pad2(d.m) && t[6..] == Pad2(d.s);
    ClockFields(t);
  }

  /** Parsing then rendering gives back the clock text. */
  lemma ParseRender(t: string)
    requires IsClock(t)
    ensures Fits(ParseClock(t))
    ensures Render(ParseClock(t)) == t
  {
    ClockFields(t);
    RenderIsConcat(ParseClock(t));
    ParseTwoDigits(t[..2]);
    ParseTwoDigits(t[3..5]);
    ParseTwoDigits(t[6..]);
    Pad2Parse(t[..2]);
    Pad2Parse(t[3..5]);
    Pad2Parse(t[6..]);
    assert t == t[..2] + ":" + t[3..5] + ":" + t[6..];
  }

  /** Comparing "x:v" with "y:w" for two-character x and y. */
  lemma FieldThenRest(x: string, v: string, y: string, w: string)
    requires |x| == 2 && |y| == 2
    ensures StrLess(x + ":" + v, y + ":" + w) <==> StrLess(x, y) || (x == y && StrLess(v, w))
  {
    assert x + ":" + v == x + (":" + v) && y + ":" + w == y + (":" + w);
    StrLessConcat(x, ":" + v, y, ":" + w);
    StrLessConcat(":", v, ":", w);
    StrLessIrreflexive(":");
  }

  /** Comparing "x1:x2:x3" with "y1:y2:y3" for two-character fields. */
  lemma ThreeFieldOrder(x1: string, x2: string, x3: string, y1: string, y2: string, y3: string)
    requires |x1| == 2 && |x2| == 2 && |y1| == 2 && |y2| == 2
    ensures StrLess(x1 + ":" + x2 + ":" + x3, y1 + ":" + y2 + ":" + y3)
            <==> StrLess(x1, y1) || (x1 == y1 && (StrLess(x2, y2) || (x2 == y2 && StrLess(x3, y3))))
  {
    var tx, ty := x2 + ":" + x3, y2 + ":" + y3;
    assert x1 + ":" + x2 + ":" + x3 == x1 + ":" + tx;
    assert y1 + ":" + y2 + ":" + y3 == y1 + ":" + ty;
    FieldThenRest(x1, tx, y1, ty);
    FieldThenRest(x2, x3, y2, y3);
  }

  /** On two-digit fields, rendering is injective. */
  lemma RenderInjective(a: Duration, b: Duration)
    requires Fits(a) && Fits(b)
    ensures Render(a) == Render(b) <==> a == b
  {
    RenderParse(a);
    RenderParse(b);
  }

  /** On two-digit fields, the text order of rendered durations is the (h, m, s) order. */
  lemma RenderOrder(a: Duration, b: Duration)
    requires Fits(a) && Fits(b)
    ensures StrLess(Render(a), Render(b)) <==> DurLess(a, b)
  {
    RenderIsConcat(a);
    RenderIsConcat(b);
    ParsePad2(a.h); ParsePad2(b.h);
    ParsePad2(a.m); ParsePad2(b.m);
    Pad2Order(a.h, b.h);
    Pad2Order(a.m, b.m);
    Pad2Order(a.s, b.s);
    ThreeFieldOrder(Pad2(a.h), Pad2(a.m), Pad2(a.s), Pad2(b.h), Pad2(b.m), Pad2(b.s));
  }

  /** On wall-clock readings the field-by-field order is the order of elapsed seconds. */
  lemma DialOrder(a: Duration, b: Duration)
    requires OnDial(a) && OnDial(b)
    ensures DurLess(a, b) <==> Seconds(a) < Seconds(b)
  {
    if a.h < b.h {
      assert Seconds(a) < 3600 * a.h + 3600 <= Seconds(b);
    } else if b.h < a.h {
      assert Seconds(b) < 3600 * b.h + 3600 <= Seconds(a);
    }
  }

  /** Two clock texts compare as text exactly as their (h, m, s) readings do. */
  lemma ClockOrder(a: string, b: string)
    requires IsClock(a) && IsClock(b)
    ensures StrLess(a, b) <==> DurLess(ParseClock(a), ParseClock(b))
  {
    ParseRender(a);
    ParseRender(b);
    RenderOrder(ParseClock(a), ParseClock(b));
    RenderInjective(ParseClock(a), ParseClock(b));
  }

  /** The fields TIMETAKEN computes, branch for branch as written (sessionize.py:63-74).
      The first branch adds 61 to the minute delta, so its result is two minutes longer
      than the true difference; the second never borrows from the hour. */
  function TimeDelta(end: Duration, start: Duration): (r: Duration)
    ensures Seconds(r) == Seconds(end) - Seconds(start)
                          + (if end.s < start.s && end.m < start.m then 120 else 0)
  {
    var hourdelta := end.h - start.h;
    var mindelta := end.m - start.m;
    var secdelta := end.s - start.s;
    if secdelta < 0 && mindelta < 0 then
      Hms(hourdelta - 1, (mindelta + 1) + 60, secdelta + 60)
    else if secdelta < 0 then
      Hms(hourdelta, mindelta - 1, secdelta + 60)
    else if mindelta < 0 then
      Hms(hourdelta - 1, mindelta + 60, secdelta)
    else
      Hms(hourdelta, mindelta, secdelta)
  }

  /** `TIMETAKEN(str1, str2)`, with the maximum passed first and the minimum second. */
  function TimeTaken(end: string, start: string): string
    requires IsTimeText(end) && IsTimeText(start)
  {
    Render(TimeDelta(ParseClock(end), ParseClock(start)))
  }

  /** Borrow-correct subtraction: seconds borrow from minutes, minutes from hours. */
  function Elapsed(end: Duration, start: Duration): (r: Duration)
    ensures Seconds(r) == Seconds(end) - Seconds(start)
    ensures OnDial(end) && OnDial(start) ==> 0 <= r.m < 60 && 0 <= r.s < 60
  {
    var secdelta := end.s - start.s;
    var secborrow := if secdelta < 0 then 1 else 0;
    var mindelta := end.m - start.m - secborrow;
    var minborrow := if mindelta < 0 then 1 else 0;
    Hms(end.h - start.h - minborrow, mindelta + 60 * minborrow, secdelta + 60 * secborrow)
  }

  /** TIMETAKEN agrees with the borrow-correct difference exactly when it is not the case
      that the seconds borrow and the minute delta is zero or negative. */
  lemma TimeDeltaIsElapsedIff(end: Duration, start: Duration)
    ensures TimeDelta(end, start) == Elapsed(end, start)
            <==> !(end.s < start.s && end.m <= start.m)
  {
  }

  /** With no field to borrow for, TIMETAKEN is the componentwise difference. */
  lemma TimeDeltaNoBorrow(end: Duration, start: Duration)
    requires end.m >= start.m && end.s >= start.s
    ensures TimeDelta(end, start) == Hms(end.h - start.h, end.m - start.m, end.s - start.s)
    ensures TimeDelta(end, start) == Elapsed(end, start)
  {
  }

  /** A seconds borrow within one hour, with at least one whole minute between the
      minute fields, gives the borrow-correct result. */
  lemma TimeDeltaSecondsBorrow(end: Duration, start: Duration)
    requires end.h == start.h && end.m - start.m >= 1 && end.s < start.s
    ensures TimeDelta(end, start) == Hms(0, end.m - start.m - 1, end.s - start.s + 60)
    ensures TimeDelta(end, start) == Elapsed(end, start)
  {
  }

  lemma TimeDeltaSelf(d: Duration)
    ensures TimeDelta(d, d) == Hms(0, 0, 0)
  {
  }

  /** Each field renders as its two digits. */
  lemma RenderDigits(d: Duration)
    requires Fits(d)
    ensures Render(d) == [DigitChar(d.h / 10), DigitChar(d.h % 10), ':',
                          DigitChar(d.m / 10), DigitChar(d.m % 10), ':',
                          DigitChar(d.s / 10), DigitChar(d.s % 10)]
  {
    RenderIsConcat(d);
    Pad2Digits(d.h);
    Pad2Digits(d.m);
    Pad2Digits(d.s);
  }

  /** Any time minus itself is "00:00:00". */
  lemma TimeTakenSelf(t: string)
    requires IsTimeText(t)
    ensures TimeTaken(t, t) == "00:00:00"
  {
    TimeDeltaSelf(ParseClock(t));
    RenderDigits(Hms(0, 0, 0));
  }

  /** On two-digit texts, TIMETAKEN is the rendering of TimeDelta on the fields. */
  lemma TimeTakenOfRendered(e: Duration, s: Duration)
    requires Fits(e) && Fits(s)
    ensures IsClock(Render(e)) && IsClock(Render(s))
    ensures TimeTaken(Render(e), Render(s)) == Render(TimeDelta(e, s))
  {
    RenderParse(e);
    RenderParse(s);
  }

  /** Both borrows at once: TIMETAKEN reports two minutes more than the true difference. */
  lemma DoubleBorrowOvercounts(end: Duration, start: Duration)
    requires end.s < start.s && end.m < start.m
    ensures TimeDelta(end, start) == Hms(Elapsed(end, start).h, Elapsed(end, start).m + 2,
                                         Elapsed(end, start).s)
    ensures Seconds(TimeDelta(end, start)) == Seconds(end) - Seconds(start) + 120
  {
  }

  /** "10:05:10" minus "09:58:50": TIMETAKEN gives "00:08:20", the true difference is "00:06:20". */
  lemma DoubleBorrowExample()
    ensures Render(Hms(10, 5, 10)) == "10:05:10" && Render(Hms(9, 58, 50)) == "09:58:50"
    ensures Render(TimeDelta(Hms(10, 5, 10), Hms(9, 58, 50))) == "00:08:20"
    ensures Render(Elapsed(Hms(10, 5, 10), Hms(9, 58, 50))) == "00:06:20"
  {
    assert TimeDelta(Hms(10, 5, 10), Hms(9, 58, 50)) == Hms(0, 8, 20);
    assert Elapsed(Hms(10, 5, 10), Hms(9, 58, 50)) == Hms(0, 6, 20);
    RenderDigits(Hms(10, 5, 10));
    RenderDigits(Hms(9, 58, 50));
    RenderDigits(Hms(0, 8, 20));
    RenderDigits(Hms(0, 6, 20));
  }

  /** A seconds borrow with equal minute fields: TIMETAKEN gives minute -1 and does not
      borrow the hour. */
  lemma MinuteUnderflow(end: Duration, start: Duration)
    requires end.s < start.s && end.m == start.m
    ensures TimeDelta(end, start) == Hms(end.h - start.h, -1, end.s - start.s + 60)
    ensures TimeDelta(end, start) != Elapsed(end, start)
  {
  }

  /** "10:00:10" minus "09:00:50": TIMETAKEN gives "01:-1:20", the true difference is "00:59:20". */
  lemma MinuteUnderflowExample()
    ensures Render(Hms(10, 0, 10)) == "10:00:10" && Render(Hms(9, 0, 50)) == "09:00:50"
    ensures Render(TimeDelta(Hms(10, 0, 10), Hms(9, 0, 50))) == "01:-1:20"
    ensures Render(Elapsed(Hms(10, 0, 10), Hms(9, 0, 50))) == "00:59:20"
  {
    assert TimeDelta(Hms(10, 0, 10), Hms(9, 0, 50)) == Hms(1, -1, 20);
    assert Elapsed(Hms(10, 0, 10), Hms(9, 0, 50)) == Hms(0, 59, 20);
    RenderDigits(Hms(10, 0, 10));
    RenderDigits(Hms(9, 0, 50));
    RenderDigits(Hms(0, 59, 20));
    Pad2Digits(1);
    Pad2Digits(20);
    assert Pad2(-1) == "-1";
  }
}
