/** Instants, clock fields and the three text formats the downloaders use.

    An instant is a whole number of seconds since the Unix epoch, UTC.  The
    Gregorian calendar is not modelled: the day number is written as eight
    zero-padded decimal digits, standing for the `%Y%m%d` part of a
    timestamp.  Like the real date text it is fixed-width, injective and
    order-preserving on the instants this module calls the era, which is all
    the downloaders rely on.  Hours, minutes and seconds are the real ones.
 */
module Clock {
  import opened Decimal
  import opened Wrappers

  type Instant = int

  const MINUTE: int := 60
  const HOUR: int := 3600
  const DAY: int := 86400

  /** First instant whose day number no longer fits the eight date digits. */
  const ERA_END: int := 8640000000000

  predicate InEra(t: Instant) {
    0 <= t < ERA_END
  }

  lemma Pow10Constants()
    ensures Pow10(2) == 100 && Pow10(4) == 10000 && Pow10(8) == 100000000
  {
    assert Pow10(1) == 10;
    assert Pow10(2) == 100;
    assert Pow10(3) == 1000;
    assert Pow10(4) == 10000;
    assert Pow10(5) == 100000;
    assert Pow10(6) == 1000000;
    assert Pow10(7) == 10000000;
  }

  // Clock fields, all derived from the minute index t / 60.

  function DayOf(t: Instant): int {
    t / MINUTE / 1440
  }

  function HourOf(t: Instant): int {
    t / MINUTE % 1440 / 60
  }

  function MinuteOf(t: Instant): int {
    t / MINUTE % 60
  }

  function SecondOf(t: Instant): int {
    t % MINUTE
  }

  /** The fields put back together give the instant. */
  lemma Fields(t: Instant)
    ensures t == DayOf(t) * DAY + HourOf(t) * HOUR + MinuteOf(t) * MINUTE + SecondOf(t)
    ensures 0 <= HourOf(t) < 24 && 0 <= MinuteOf(t) < 60 && 0 <= SecondOf(t) < 60
    ensures t / MINUTE == DayOf(t) * 1440 + HourOf(t) * 60 + MinuteOf(t)
    ensures InEra(t) ==> 0 <= DayOf(t) < 100000000
  {
    var k, sec := t / MINUTE, t % MINUTE;
    var d, r := k / 1440, k % 1440;
    var h, m := r / 60, r % 60;
    assert k == 60 * (d * 24 + h) + m;
    DivModUnique(k, 60, d * 24 + h, m);
    assert t == MINUTE * k + sec;
    assert k == d * 1440 + h * 60 + m;
    assert t == d * DAY + h * HOUR + m * MINUTE + sec;
    if InEra(t) {
      assert k < 144000000000;
    }
  }

  /** Fields given separately determine the instant and are read back from it. */
  lemma FieldsOf(d: int, h: int, m: int, sec: int)
    requires 0 <= h < 24 && 0 <= m < 60 && 0 <= sec < 60
    ensures var r := d * DAY + h * HOUR + m * MINUTE + sec;
      DayOf(r) == d && HourOf(r) == h && MinuteOf(r) == m && SecondOf(r) == sec
  {
    var r := d * DAY + h * HOUR + m * MINUTE + sec;
    var k := d * 1440 + h * 60 + m;
    assert r == MINUTE * k + sec;
    DivModUnique(r, MINUTE, k, sec);
    assert k == 1440 * d + (h * 60 + m);
    DivModUnique(k, 1440, d, h * 60 + m);
    assert h * 60 + m == 60 * h + m;
    DivModUnique(h * 60 + m, 60, h, m);
    assert k == 60 * (d * 24 + h) + m;
    DivModUnique(k, 60, d * 24 + h, m);
  }

  /** `dt.replace(hour=h, minute=m, second=0, microsecond=0)`. */
  function AtClock(t: Instant, h: int, m: int): (r: Instant)
    requires 0 <= h < 24 && 0 <= m < 60
    ensures DayOf(r) == DayOf(t) && HourOf(r) == h && MinuteOf(r) == m && SecondOf(r) == 0
  {
    FieldsOf(DayOf(t), h, m, 0);
    DayOf(t) * DAY + h * HOUR + m * MINUTE
  }

  /** `dt.replace(minute=m, second=0, microsecond=0)`. */
  function AtMinute(t: Instant, m: int): (r: Instant)
    requires 0 <= m < 60
    ensures DayOf(r) == DayOf(t) && HourOf(r) == HourOf(t) && MinuteOf(r) == m && SecondOf(r) == 0
    ensures r == t - t % HOUR + m * MINUTE
  {
    Fields(t);
    AtClock(t, HourOf(t), m)
  }

  /** Minute `m` of the hour numbered `hour` since the epoch, second zero. */
  function Slot(hour: int, m: int): Instant {
    hour * HOUR + m * MINUTE
  }

  /** Every instant is a slot of its own hour plus its seconds. */
  lemma HourOffset(t: Instant)
    ensures t == Slot(t / HOUR, MinuteOf(t)) + SecondOf(t)
    ensures 0 <= MinuteOf(t) < 60 && 0 <= SecondOf(t) < 60
  {
    var q := t / MINUTE;
    assert t == MINUTE * q + t % MINUTE;
    assert q == 60 * (q / 60) + q % 60;
    DivModUnique(t, HOUR, q / 60, MINUTE * (q % 60) + t % MINUTE);
  }

  /** A slot reads back as its hour and minute. */
  lemma SlotFields(hour: int, m: int)
    requires 0 <= m < 60
    ensures var u := Slot(hour, m); u / HOUR == hour && MinuteOf(u) == m && SecondOf(u) == 0
  {
    var u := Slot(hour, m);
    DivModUnique(u, HOUR, hour, m * MINUTE);
    DivModUnique(u, MINUTE, hour * 60 + m, 0);
    DivModUnique(hour * 60 + m, 60, hour, m);
  }

  /** `replace(minute=m, second=0)` picks a slot of the instant's own hour. */
  lemma AtMinuteSlot(t: Instant, m: int)
    requires 0 <= m < 60
    ensures AtMinute(t, m) == Slot(t / HOUR, m)
  {
  }

  /** One hour earlier or later is the neighbouring hour. */
  lemma HourShift(t: Instant, k: int)
    ensures (t + k * HOUR) / HOUR == t / HOUR + k
  {
    DivModUnique(t + k * HOUR, HOUR, t / HOUR + k, t % HOUR);
  }

  // The text formats.

  /** Stands for `%Y%m%d`. */
  function DateText(t: Instant): string {
    Pad(DayOf(t), 8)
  }

  /** `%Y%m%d%H%M`: the FY-4B ledger key. */
  function Stamp12(t: Instant): (s: string)
    ensures |s| == 12 && AllDigits(s)
  {
    DateText(t) + Pad(HourOf(t), 2) + Pad(MinuteOf(t), 2)
  }

  /** `%Y%m%d%H%M%S`. */
  function Stamp14(t: Instant): (s: string)
    ensures |s| == 14 && AllDigits(s)
  {
    Stamp12(t) + Pad(SecondOf(t), 2)
  }

  /** Puts the separators of `YYYY-MM-DD HH:MM:SS` into fourteen digits. */
  function Layout(s: string): (r: string)
    requires |s| == 14
    ensures |r| == 19
  {
    Insert(Insert(Insert(Insert(Insert(s, 4, '-'), 7, '-'), 10, ' '), 13, ':'), 16, ':')
  }

  /** `%Y-%m-%d %H:%M:%S`: the checkpoint fields of both ledgers and the colour ledger key. */
  function Iso(t: Instant): (s: string)
    ensures |s| == 19
  {
    Layout(Stamp14(t))
  }

  // Order: on the era, comparing the texts as Python strings compares the instants.

  lemma AppendInjective(a: string, b: string, x: string, y: string)
    requires |a| == |b|
    ensures a + x == b + y <==> a == b && x == y
  {
    if a + x == b + y {
      assert a == (a + x)[..|a|] && b == (b + y)[..|b|];
      assert x == (a + x)[|a|..] && y == (b + y)[|b|..];
    }
  }

  lemma MinuteIndexOrder(a: Instant, b: Instant)
    ensures a / MINUTE <= b / MINUTE <==>
      DayOf(a) < DayOf(b) ||
      (DayOf(a) == DayOf(b) && (HourOf(a) < HourOf(b) || (HourOf(a) == HourOf(b) && MinuteOf(a) <= MinuteOf(b))))
  {
    Fields(a);
    Fields(b);
  }

  lemma {:induction false} Stamp12Order(a: Instant, b: Instant)
    requires InEra(a) && InEra(b)
    ensures LexLe(Stamp12(a), Stamp12(b)) <==> a / MINUTE <= b / MINUTE
    ensures Stamp12(a) == Stamp12(b) <==> a / MINUTE == b / MINUTE
  {
    Fields(a);
    Fields(b);
    Pow10Constants();
    var da, db := DateText(a), DateText(b);
    var ha, hb := Pad(HourOf(a), 2), Pad(HourOf(b), 2);
    var ma, mb := Pad(MinuteOf(a), 2), Pad(MinuteOf(b), 2);
    PadOrder(DayOf(a), DayOf(b), 8);
    PadInjective(DayOf(a), DayOf(b), 8);
    PadOrder(HourOf(a), HourOf(b), 2);
    PadInjective(HourOf(a), HourOf(b), 2);
    PadOrder(MinuteOf(a), MinuteOf(b), 2);
    PadInjective(MinuteOf(a), MinuteOf(b), 2);
    LexAppend(da, db, ha, hb);
    AppendInjective(da, db, ha, hb);
    LexAppend(da + ha, db + hb, ma, mb);
    AppendInjective(da + ha, db + hb, ma, mb);
    MinuteIndexOrder(a, b);
    MinuteIndexOrder(b, a);
  }

  lemma {:induction false} Stamp14Order(a: Instant, b: Instant)
    requires InEra(a) && InEra(b)
    ensures LexLe(Stamp14(a), Stamp14(b)) <==> a <= b
    ensures Stamp14(a) == Stamp14(b) <==> a == b
  {
    Fields(a);
    Fields(b);
    Pow10Constants();
    Stamp12Order(a, b);
    PadOrder(SecondOf(a), SecondOf(b), 2);
    PadInjective(SecondOf(a), SecondOf(b), 2);
    LexAppend(Stamp12(a), Stamp12(b), Pad(SecondOf(a), 2), Pad(SecondOf(b), 2));
    AppendInjective(Stamp12(a), Stamp12(b), Pad(SecondOf(a), 2), Pad(SecondOf(b), 2));
  }

  lemma InsertInjective(s: string, t: string, k: nat, c: char)
    requires |s| == |t| && k <= |s|
    ensures Insert(s, k, c) == Insert(t, k, c) <==> s == t
  {
    if Insert(s, k, c) == Insert(t, k, c) {
      assert s == s[..k] + s[k..] && t == t[..k] + t[k..];
    }
  }

  lemma LayoutOrder(s: string, t: string)
    requires |s| == 14 && |t| == 14
    ensures LexLe(Layout(s), Layout(t)) <==> LexLe(s, t)
    ensures Layout(s) == Layout(t) <==> s == t
  {
    var s1, t1 := Insert(s, 4, '-'), Insert(t, 4, '-');
    var s2, t2 := Insert(s1, 7, '-'), Insert(t1, 7, '-');
    var s3, t3 := Insert(s2, 10, ' '), Insert(t2, 10, ' ');
    var s4, t4 := Insert(s3, 13, ':'), Insert(t3, 13, ':');
    InsertOrder(s, t, 4, '-');
    InsertOrder(s1, t1, 7, '-');
    InsertOrder(s2, t2, 10, ' ');
    InsertOrder(s3, t3, 13, ':');
    InsertOrder(s4, t4, 16, ':');
    InsertInjective(s, t, 4, '-');
    InsertInjective(s1, t1, 7, '-');
    InsertInjective(s2, t2, 10, ' ');
    InsertInjective(s3, t3, 13, ':');
    InsertInjective(s4, t4, 16, ':');
  }

  /** The colour ledger prunes with `p >= thirty_days_ago` on these strings:
      on the era that is exactly comparing the instants. */
  lemma IsoOrder(a: Instant, b: Instant)
    requires InEra(a) && InEra(b)
    ensures LexLe(Iso(a), Iso(b)) <==> a <= b
    ensures Iso(a) == Iso(b) <==> a == b
  {
    LayoutOrder(Stamp14(a), Stamp14(b));
    Stamp14Order(a, b);
  }

  /** A later instant's text is not below an earlier one's. */
  lemma IsoMonotone(a: Instant, b: Instant)
    requires InEra(a) && InEra(b) && a <= b
    ensures LexLe(Iso(a), Iso(b))
  {
    IsoOrder(a, b);
  }

  // Parsing: the inverses of the formats, as `strptime` with the same format string.

  /** The fourteen digits of a `YYYY-MM-DD HH:MM:SS` text, separators dropped. */
  function Unlayout(s: string): (d: string)
    requires |s| == 19
    ensures |d| == 14
  {
    s[..4] + s[5..7] + s[8..10] + s[11..13] + s[14..16] + s[17..]
  }

  /** The first sixteen characters of the Iso text, `%Y-%m-%d %H:%M`, are the
      minute stamp with its separators. */
  lemma MinuteText(t: Instant)
    ensures var s := Iso(t)[..16];
      |s| == 16 && s[4] == '-' && s[7] == '-' && s[10] == ' ' && s[13] == ':' &&
      s[..4] + s[5..7] + s[8..10] + s[11..13] + s[14..16] == Stamp12(t)
  {
    LayoutPrefix(Stamp14(t));
  }

  /** The first sixteen characters of a layout are its first twelve digits
      with the separators between them. */
  lemma LayoutPrefix(d: string)
    requires |d| == 14
    ensures var s := Layout(d)[..16];
      |s| == 16 && s[4] == '-' && s[7] == '-' && s[10] == ' ' && s[13] == ':' &&
      s[..4] + s[5..7] + s[8..10] + s[11..13] + s[14..16] == d[..12]
  {
    LayoutSpelled(d);
    var s := Layout(d)[..16];
    assert s == d[..4] + "-" + d[4..6] + "-" + d[6..8] + " " + d[8..10] + ":" + d[10..12];
    assert s[..4] == d[..4] && s[5..7] == d[4..6] && s[8..10] == d[6..8] && s[11..13] == d[8..10] && s[14..16] == d[10..12];
    assert d[..12] == d[..4] + d[4..6] + d[6..8] + d[8..10] + d[10..12];
  }

  /** The separators of `Layout` sit at positions 4, 7, 10, 13 and 16. */
  lemma LayoutSpelled(d: string)
    requires |d| == 14
    ensures Layout(d) == d[..4] + "-" + d[4..6] + "-" + d[6..8] + " " + d[8..10] + ":" + d[10..12] + ":" + d[12..]
  {
    var s1 := Insert(d, 4, '-');
    var p1 := d[..4] + "-";
    assert s1 == p1 + d[4..];
    var s2 := Insert(s1, 7, '-');
    assert s1[..7] == p1 + d[4..6] && s1[7..] == d[6..];
    var p2 := p1 + d[4..6] + "-";
    assert s2 == p2 + d[6..];
    var s3 := Insert(s2, 10, ' ');
    assert s2[..10] == p2 + d[6..8] && s2[10..] == d[8..];
    var p3 := p2 + d[6..8] + " ";
    assert s3 == p3 + d[8..];
    var s4 := Insert(s3, 13, ':');
    assert s3[..13] == p3 + d[8..10] && s3[13..] == d[10..];
    var p4 := p3 + d[8..10] + ":";
    assert s4 == p4 + d[10..];
    var s5 := Insert(s4, 16, ':');
    assert s4[..16] == p4 + d[10..12] && s4[16..] == d[12..];
  }

  lemma UnlayoutLayout(d: string)
    requires |d| == 14
    ensures Unlayout(Layout(d)) == d
  {
    LayoutSpelled(d);
    var s := Layout(d);
    assert s[..4] == d[..4] && s[5..7] == d[4..6] && s[8..10] == d[6..8];
    assert s[11..13] == d[8..10] && s[14..16] == d[10..12] && s[17..] == d[12..];
    assert d == d[..4] + d[4..6] + d[6..8] + d[8..10] + d[10..12] + d[12..];
  }

  predicate Separated(s: string) {
    |s| == 19 && s[4] == '-' && s[7] == '-' && s[10] == ' ' && s[13] == ':' && s[16] == ':'
  }

  lemma LayoutUnlayout(s: string)
    requires Separated(s)
    ensures Layout(Unlayout(s)) == s
  {
    var d := Unlayout(s);
    LayoutSpelled(d);
    assert d[..4] == s[..4] && d[4..6] == s[5..7] && d[6..8] == s[8..10];
    assert d[8..10] == s[11..13] && d[10..12] == s[14..16] && d[12..] == s[17..];
    assert s == s[..4] + [s[4]] + s[5..7] + [s[7]] + s[8..10] + [s[10]] + s[11..13] + [s[13]] + s[14..16] + [s[16]] + s[17..];
  }

  lemma LayoutSeparated(d: string)
    requires |d| == 14
    ensures Separated(Layout(d))
  {
    LayoutSpelled(d);
  }

  /** Reads a date and the hour, minute and second fields, each checked against its range. */
  function ParseFields(date: string, hh: string, mm: string, ss: string): Option<Instant>
    requires AllDigits(date) && AllDigits(hh) && AllDigits(mm) && AllDigits(ss)
  {
    var h, m, sec := Value(hh), Value(mm), Value(ss);
    if h < 24 && m < 60 && sec < 60 then Some(Value(date) * DAY + h * HOUR + m * MINUTE + sec) else None
  }

  /** `strptime(d, "%Y%m%d%H%M%S")`. */
  function ParseStamp14(d: string): Option<Instant> {
    if |d| == 14 && AllDigits(d) then
      assert AllDigits(d[..8]) && AllDigits(d[8..10]) && AllDigits(d[10..12]) && AllDigits(d[12..]);
      ParseFields(d[..8], d[8..10], d[10..12], d[12..])
    else None
  }

  /** `strptime(s, "%Y-%m-%d %H:%M:%S")`. */
  function ParseIso(s: string): Option<Instant> {
    if Separated(s) then ParseStamp14(Unlayout(s)) else None
  }

  /** `strptime(s, "%Y%m%d%H%M")`. */
  function ParseStamp12(s: string): Option<Instant> {
    ParseStamp14(s + "00")
  }

  lemma Stamp14Parts(t: Instant)
    ensures Stamp14(t)[..8] == DateText(t) && Stamp14(t)[8..10] == Pad(HourOf(t), 2)
    ensures Stamp14(t)[10..12] == Pad(MinuteOf(t), 2) && Stamp14(t)[12..] == Pad(SecondOf(t), 2)
  {
  }

  /** `ParseStamp14` reads fourteen digits as a date and three two-digit fields. */
  lemma ParseStamp14Of(a: string, b: string, c: string, e: string)
    requires |a| == 8 && |b| == 2 && |c| == 2 && |e| == 2
    requires AllDigits(a) && AllDigits(b) && AllDigits(c) && AllDigits(e)
    ensures ParseStamp14(a + b + c + e) == ParseFields(a, b, c, e)
  {
    var d := a + b + c + e;
    assert d[..8] == a && d[8..10] == b && d[10..12] == c && d[12..] == e;
    assert AllDigits(d);
  }

  lemma ParseFieldsOf(a: string, b: string, c: string, e: string, dd: int, h: int, m: int, sec: int)
    requires AllDigits(a) && AllDigits(b) && AllDigits(c) && AllDigits(e)
    requires Value(a) == dd && Value(b) == h && Value(c) == m && Value(e) == sec
    requires h < 24 && m < 60 && sec < 60
    ensures ParseFields(a, b, c, e) == Some(dd * DAY + h * HOUR + m * MINUTE + sec)
  {
  }

  lemma ParsePadded(dd: int, h: int, m: int, sec: int)
    requires 0 <= dd < 100000000 && 0 <= h < 24 && 0 <= m < 60 && 0 <= sec < 60
    ensures ParseStamp14(Pad(dd, 8) + Pad(h, 2) + Pad(m, 2) + Pad(sec, 2)) == Some(dd * DAY + h * HOUR + m * MINUTE + sec)
  {
    Pow10Constants();
    ValuePadExact(dd, 8);
    ValuePadExact(h, 2);
    ValuePadExact(m, 2);
    ValuePadExact(sec, 2);
    ParseStamp14Of(Pad(dd, 8), Pad(h, 2), Pad(m, 2), Pad(sec, 2));
    ParseFieldsOf(Pad(dd, 8), Pad(h, 2), Pad(m, 2), Pad(sec, 2), dd, h, m, sec);
  }

  /** Every era instant is read back from its `%Y%m%d%H%M%S` text. */
  lemma ParseStamp14Stamp14(t: Instant)
    requires InEra(t)
    ensures ParseStamp14(Stamp14(t)) == Some(t)
  {
    Fields(t);
    ParsePadded(DayOf(t), HourOf(t), MinuteOf(t), SecondOf(t));
  }

  lemma ParseFieldsSome(a: string, b: string, c: string, e: string, t: Instant)
    requires AllDigits(a) && AllDigits(b) && AllDigits(c) && AllDigits(e)
    requires ParseFields(a, b, c, e) == Some(t)
    ensures Value(b) < 24 && Value(c) < 60 && Value(e) < 60
    ensures t == Value(a) * DAY + Value(b) * HOUR + Value(c) * MINUTE + Value(e)
  {
  }

  lemma DayInEra(dd: int, h: int, m: int, sec: int)
    requires 0 <= dd < 100000000 && 0 <= h < 24 && 0 <= m < 60 && 0 <= sec < 60
    ensures InEra(dd * DAY + h * HOUR + m * MINUTE + sec)
  {
    assert dd * DAY <= 99999999 * 86400;
  }

  lemma Stamp14OfFields(t: Instant, dd: int, h: int, m: int, sec: int)
    requires 0 <= h < 24 && 0 <= m < 60 && 0 <= sec < 60
    requires t == dd * DAY + h * HOUR + m * MINUTE + sec
    ensures Stamp14(t) == Pad(dd, 8) + Pad(h, 2) + Pad(m, 2) + Pad(sec, 2)
  {
    FieldsOf(dd, h, m, sec);
    assert DayOf(t) == dd && HourOf(t) == h && MinuteOf(t) == m && SecondOf(t) == sec;
    Stamp14Spelled(t);
  }

  lemma Stamp14Spelled(t: Instant)
    ensures Stamp14(t) == Pad(DayOf(t), 8) + Pad(HourOf(t), 2) + Pad(MinuteOf(t), 2) + Pad(SecondOf(t), 2)
  {
  }

  lemma PadsOfDigits(a: string, b: string, c: string, e: string)
    requires |a| == 8 && |b| == 2 && |c| == 2 && |e| == 2
    requires AllDigits(a) && AllDigits(b) && AllDigits(c) && AllDigits(e)
    ensures a + b + c + e == Pad(Value(a), 8) + Pad(Value(b), 2) + Pad(Value(c), 2) + Pad(Value(e), 2)
    ensures Value(a) < 100000000
  {
    PadValue(a);
    PadValue(b);
    PadValue(c);
    PadValue(e);
    Pow10Constants();
    ValuePad(Value(a), 8);
  }

  lemma ParseStamp14Some(d: string, t: Instant)
    requires ParseStamp14(d) == Some(t)
    ensures |d| == 14 && AllDigits(d[..8]) && AllDigits(d[8..10]) && AllDigits(d[10..12]) && AllDigits(d[12..])
    ensures d == d[..8] + d[8..10] + d[10..12] + d[12..]
    ensures ParseFields(d[..8], d[8..10], d[10..12], d[12..]) == Some(t)
  {
  }

  /** Whatever parses is the text of the instant it parses to. */
  lemma Stamp14ParseStamp14(d: string, t: Instant)
    requires ParseStamp14(d) == Some(t)
    ensures Stamp14(t) == d && InEra(t)
  {
    ParseStamp14Some(d, t);
    var a, b, c, e := d[..8], d[8..10], d[10..12], d[12..];
    ParseFieldsSome(a, b, c, e, t);
    PadsOfDigits(a, b, c, e);
    Stamp14OfFields(t, Value(a), Value(b), Value(c), Value(e));
    DayInEra(Value(a), Value(b), Value(c), Value(e));
  }

  lemma ParseIsoIso(t: Instant)
    requires InEra(t)
    ensures ParseIso(Iso(t)) == Some(t)
  {
    LayoutSeparated(Stamp14(t));
    UnlayoutLayout(Stamp14(t));
    ParseStamp14Stamp14(t);
  }

  lemma IsoParseIso(s: string, t: Instant)
    requires ParseIso(s) == Some(t)
    ensures Iso(t) == s && InEra(t)
  {
    Stamp14ParseStamp14(Unlayout(s), t);
    LayoutUnlayout(s);
  }

  lemma ParseStamp12Stamp12(t: Instant)
    requires InEra(t)
    ensures ParseStamp12(Stamp12(t)) == Some(t - SecondOf(t))
  {
    MinuteFloor(t);
    Stamp12Spelled(t);
    ParseKeyPadded(DayOf(t), HourOf(t), MinuteOf(t), Stamp12(t), t - SecondOf(t));
  }

  /** A key spelled from a day, an hour and a minute parses back to their instant. */
  lemma ParseKeyPadded(dd: int, h: int, m: int, key: string, w: int)
    requires 0 <= dd < 100000000 && 0 <= h < 24 && 0 <= m < 60
    requires key == Pad(dd, 8) + Pad(h, 2) + Pad(m, 2) && w == dd * DAY + h * HOUR + m * MINUTE
    ensures ParseStamp12(key) == Some(w)
  {
    assert Pad(0, 2) == "00";
    assert key + "00" == Pad(dd, 8) + Pad(h, 2) + Pad(m, 2) + Pad(0, 2);
    ParsePadded(dd, h, m, 0);
  }

  /** `%Y%m%d%H%M` is the day and the two-digit hour and minute. */
  lemma Stamp12Spelled(t: Instant)
    ensures Stamp12(t) == Pad(DayOf(t), 8) + Pad(HourOf(t), 2) + Pad(MinuteOf(t), 2)
  {
  }

  /** The instant with its seconds cleared, from its day, hour and minute. */
  lemma MinuteFloor(t: Instant)
    ensures t - SecondOf(t) == DayOf(t) * DAY + HourOf(t) * HOUR + MinuteOf(t) * MINUTE
    ensures 0 <= HourOf(t) < 24 && 0 <= MinuteOf(t) < 60
    ensures InEra(t) ==> 0 <= DayOf(t) < 100000000
  {
    Fields(t);
  }

  lemma Stamp12ParseStamp12(s: string, t: Instant)
    requires ParseStamp12(s) == Some(t)
    ensures Stamp12(t) == s && SecondOf(t) == 0 && InEra(t)
  {
    Stamp14ParseStamp14(s + "00", t);
    AppendInjective(Stamp12(t), s, Pad(SecondOf(t), 2), "00");
    PadZero(SecondOf(t));
  }

  /** Only zero is rendered as `00`. */
  lemma PadZero(x: int)
    requires 0 <= x < 100 && Pad(x, 2) == "00"
    ensures x == 0
  {
    Pow10Constants();
    ValuePadExact(x, 2);
    assert Value("00") == 0;
  }
}
