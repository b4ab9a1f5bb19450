/**
Event-file names: flooring a time to its window, printing the window start and the overflow
ordinal as a name, and reading a name back. Times are milliseconds since 1970-01-01T00:00Z and
a window is a positive number of milliseconds.
*/
module PartitionNames {
  import opened Results
  import opened TextOrder
  import opened Digits
  import opened Calendar

  const MAX_OVERFLOW_ORDINAL: nat := 999_999
  const MINUTE_MS: int := 60_000
  const HOUR_MS: int := 3_600_000
  const DAY_MS: int := 86_400_000

  // ----- windows

  /** Rust's `/`, which truncates toward zero. */
  function TruncatedDiv(a: int, b: int): int
    requires b > 0
  {
    if a >= 0 then a / b else -((-a) / b)
  }

  function FloorToWindow(now: int, window: int): int
    requires window > 0
  {
    TruncatedDiv(now, window) * window
  }

  /** How much of a start time the label of a window of this length can show. */
  function Granule(window: int): (g: int)
    requires window > 0
    ensures g == DAY_MS || g == HOUR_MS || g == MINUTE_MS
  {
    var secs := window / 1000;
    if secs >= 86400 then DAY_MS else if secs >= 3600 then HOUR_MS else MINUTE_MS
  }

  /** A time cut down to the units that a label shows. */
  function CutTo(ms: int, granule: int): int
  {
    if granule == DAY_MS then ms - ms % DAY_MS
    else if granule == HOUR_MS then ms - ms % HOUR_MS
    else ms - ms % MINUTE_MS
  }

  /** The label of a window shows all of this time. */
  predicate ShownInFull(ms: int, window: int)
    requires window > 0
  {
    CutTo(ms, Granule(window)) == ms
  }

  /** The window is a whole number of the units its label shows. */
  predicate AlignedWindow(window: int) { window > 0 && ShownInFull(window, window) }

  // ----- printing

  predicate TimestampInRange(ms: int) { DayInRange(ms / DAY_MS) }

  function DateAt(ms: int): (d: Date)
    requires TimestampInRange(ms)
    ensures ValidDate(d)
  {
    DateOf(ms / DAY_MS)
  }

  function HourAt(ms: int): (h: nat)
    ensures h < 24
  {
    ms % DAY_MS / HOUR_MS
  }

  function MinuteAt(ms: int): (m: nat)
    ensures m < 60
  {
    ms % HOUR_MS / MINUTE_MS
  }

  /** `{:04}` counts the minus sign of a negative year in the width. */
  function YearText(year: int): (s: string)
    requires MIN_YEAR <= year <= MAX_YEAR
    ensures |s| >= 4
    ensures year < 0 ==> s[0] == '-'
  {
    Widths();
    if year >= 0 then Pad(year, 4)
    else if year > -1000 then "-" + Pad(-year, 3)
    else "-" + Pad(-year, 4)
  }

  function DateText(d: Date): (s: string)
    requires ValidDate(d)
    ensures |s| >= 8
  {
    Widths();
    YearText(d.year) + Pad(d.month, 2) + Pad(d.day, 2)
  }

  function TimeText(hour: nat, minute: nat, granule: int): string
    requires hour < 24 && minute < 60
  {
    Widths();
    if granule == DAY_MS then ""
    else if granule == HOUR_MS then "T" + Pad(hour, 2)
    else "T" + Pad(hour, 2) + Pad(minute, 2)
  }

  function TimeTextAt(ms: int, granule: int): string { TimeText(HourAt(ms), MinuteAt(ms), granule) }

  function LabelFor(start: int, window: int): Result<string>
    requires window > 0
  {
    if TimestampInRange(start) then Ok(DateText(DateAt(start)) + TimeTextAt(start, Granule(window)))
    else Err(Migration)
  }

  predicate ValidOrdinal(ordinal: Option<nat>)
  {
    ordinal.Some? ==> 1 <= ordinal.value <= MAX_OVERFLOW_ORDINAL
  }

  function OrdinalText(ordinal: Option<nat>): string
    requires ValidOrdinal(ordinal)
  {
    Widths();
    if ordinal.Some? then "_" + Pad(ordinal.value, 6) else ""
  }

  function GeneratePartitionName(start: int, window: int, ordinal: Option<nat>): Result<string>
    requires window > 0
  {
    var text := LabelFor(start, window);
    if text.Err? then Err(text.error)
    else if ValidOrdinal(ordinal) then Ok("events_" + text.value + OrdinalText(ordinal) + ".db")
    else Err(InvalidPartition)
  }

  // ----- reading

  /**
  What may follow the eight date digits in `^events_(\d{8})(?:T(\d{2}|\d{4}))?(?:_(\d{6}))?\.db$`:
  the digits of the time group and of the ordinal group, each empty when its group is absent.
  */
  function MatchTail(tail: string): Option<(string, string)>
  {
    var n := |tail|;
    if n == 0 then Some(("", ""))
    else if (n == 3 || n == 5) && tail[0] == 'T' && AllDigits(tail[1..]) then Some((tail[1..], ""))
    else if n == 7 && tail[0] == '_' && AllDigits(tail[1..]) then Some(("", tail[1..]))
    else if (n == 10 || n == 12) && tail[0] == 'T' && AllDigits(tail[1..n - 7])
            && tail[n - 7] == '_' && AllDigits(tail[n - 6..])
    then Some((tail[1..n - 7], tail[n - 6..]))
    else None
  }

  /** The start time written by eight date digits and zero, two or four time digits. */
  function StartOf(date: string, time: string): Result<int>
    requires |date| == 8 && AllDigits(date)
    requires AllDigits(time) && (|time| == 0 || |time| == 2 || |time| == 4)
  {
    Widths();
    var d := Date(ParseNat(date[..4]), ParseNat(date[4..6]), ParseNat(date[6..]));
    var hour := if time == "" then 0 else ParseNat(time[..2]);
    var minute := if |time| == 4 then ParseNat(time[2..]) else 0;
    if !ValidDate(d) || hour >= 24 || minute >= 60 then Err(InvalidPartition)
    else Ok(DayNumber(d) * DAY_MS + hour * HOUR_MS + minute * MINUTE_MS)
  }

  function ParsePartitionName(name: string): Result<(int, Option<nat>)>
  {
    if |name| < 18 || name[..7] != "events_" || name[|name| - 3..] != ".db" then Err(InvalidPartition)
    else
      var body := name[7..|name| - 3];
      var tail := MatchTail(body[8..]);
      if !AllDigits(body[..8]) || tail.None? then Err(InvalidPartition)
      else
        var (time, ordinalDigits) := tail.value;
        var ordinal := if ordinalDigits == "" then None else Some(ParseNat(ordinalDigits));
        if ordinal == Some(0) then Err(InvalidPartition)
        else
          var start := StartOf(body[..8], time);
          if start.Err? then Err(start.error) else Ok((start.value, ordinal))
  }

  function NextOrdinal(current: Option<nat>): Option<nat>
  {
    if current.None? then Some(1)
    else if current.value < MAX_OVERFLOW_ORDINAL then Some(current.value + 1)
    else None
  }

  // ----- arithmetic

  lemma Widths()
    ensures Pow10(2) == 100 && Pow10(3) == 1000 && Pow10(4) == 10_000 && Pow10(6) == 1_000_000
  {
    assert Pow10(1) == 10;
    assert Pow10(5) == 100_000;
  }

  /**
  The multiple of the window that is at or before a time from 1970 on, and at or after an earlier
  time, less than a window away; the label of an aligned window shows either in full.
  */
  lemma FloorIsWindowStart(now: int, window: int)
    requires window > 0
    ensures now >= 0 ==> FloorToWindow(now, window) == now - now % window
    ensures now <= 0 ==> FloorToWindow(now, window) == now + -now % window
    ensures now >= 0 ==> 0 <= FloorToWindow(now, window) <= now < FloorToWindow(now, window) + window
    ensures now <= 0 ==> FloorToWindow(now, window) - window < now <= FloorToWindow(now, window) <= 0
    ensures AlignedWindow(window) ==> ShownInFull(FloorToWindow(now, window), window)
  {
    if now >= 0 { FloorDivides(now, window); } else { FloorDivides(-now, window); }
    if AlignedWindow(window) { MultipleAligned(TruncatedDiv(now, window), window, Granule(window)); }
  }

  /** A time is floored to exactly the window start that it follows by less than a window. */
  lemma FloorIsTheStart(now: int, start: int, window: int)
    requires window > 0 && now >= 0 && start >= 0 && start % window == 0
    ensures FloorToWindow(now, window) == start <==> start <= now < start + window
  {
    FloorIsWindowStart(now, window);
    var floor := FloorToWindow(now, window);
    var p, q := start / window, now / window;
    assert start == p * window && floor == q * window;
    if p < q { Apart(p, q, window); }
    if q < p { Apart(q, p, window); }
  }

  lemma Apart(p: int, q: int, window: int)
    requires window > 0 && p < q
    ensures p * window + window <= q * window
  {
    var d := q - p;
    Distributes(p, d, window);
    assert (d - 1) * window >= 0;
    Distributes(d - 1, 1, window);
  }

  lemma Distributes(a: int, b: int, window: int)
    ensures (a + b) * window == a * window + b * window
  {
  }

  /** Windows are aligned when they are whole days from one day on, whole hours from one hour on, or whole minutes. */
  lemma AlignedExactly(window: int)
    ensures AlignedWindow(window) <==>
              && window > 0
              && window % (if window >= 86_400_000 then 86_400_000
                           else if window >= 3_600_000 then 3_600_000 else 60_000) == 0
  {
  }

  lemma FloorDivides(now: nat, window: int)
    requires window > 0
    ensures 0 <= now / window * window <= now < now / window * window + window
    ensures now / window * window == now - now % window
  {
    assert now == now / window * window + now % window;
  }

  lemma MultipleAligned(k: int, window: int, g: int)
    requires g == DAY_MS || g == HOUR_MS || g == MINUTE_MS
    requires CutTo(window, g) == window
    ensures CutTo(k * window, g) == k * window
  {
    var q := window / g;
    SwapFactors(k, g, q);
    MultipleShown(k * q, g);
  }

  lemma SwapFactors(k: int, g: int, q: int)
    ensures k * (g * q) == g * (k * q)
  {
  }

  lemma MultipleShown(j: int, g: int)
    requires g == DAY_MS || g == HOUR_MS || g == MINUTE_MS
    ensures CutTo(g * j, g) == g * j
  {
    if g == DAY_MS {
      DivideDay(j, 0);
    } else if g == HOUR_MS {
      DivideHour(j, 0);
    } else {
      assert (j * MINUTE_MS) % MINUTE_MS == 0;
    }
  }

  lemma TruncatedStart(ms: int, g: int)
    requires g == DAY_MS || g == HOUR_MS || g == MINUTE_MS
    ensures CutTo(ms, g) == ms / DAY_MS * DAY_MS
                           + (if g == DAY_MS then 0 else HourAt(ms) * HOUR_MS)
                           + (if g == MINUTE_MS then MinuteAt(ms) * MINUTE_MS else 0)
  {
    SplitDay(ms);
    SplitHour(ms);
  }

  lemma SplitDay(ms: int)
    ensures ms % DAY_MS == HourAt(ms) * HOUR_MS + ms % HOUR_MS
  {
    var q, r := ms / DAY_MS, ms % DAY_MS;
    assert ms == (24 * q + r / HOUR_MS) * HOUR_MS + r % HOUR_MS;
  }

  lemma SplitHour(ms: int)
    ensures ms % HOUR_MS == MinuteAt(ms) * MINUTE_MS + ms % MINUTE_MS
  {
    var q, r := ms / HOUR_MS, ms % HOUR_MS;
    assert ms == (60 * q + r / MINUTE_MS) * MINUTE_MS + r % MINUTE_MS;
  }

  /**
  A printed year has four characters, the minus sign counted, or five; read without the sign it is
  the year again.
  */
  lemma YearReads(year: int)
    requires MIN_YEAR <= year <= MAX_YEAR
    ensures |YearText(year)| == if year > -1000 then 4 else 5
    ensures var digits := if year < 0 then YearText(year)[1..] else YearText(year);
            && AllDigits(digits) && ParseNat(digits) == (if year < 0 then -year else year)
            && YearText(year) == (if year < 0 then "-" else "") + digits
  {
    Widths();
    if year >= 0 { ParsePad(year, 4); } else { ParsePad(-year, if year > -1000 then 3 else 4); }
  }

  // ----- printing then reading

  /** The regular expression's tail accepts exactly the concatenations of its two optional groups. */
  lemma MatchTailAccepts(tail: string, time: string, ordinal: string)
    ensures MatchTail(tail) == Some((time, ordinal)) <==>
            && AllDigits(time) && (|time| == 0 || |time| == 2 || |time| == 4)
            && AllDigits(ordinal) && (|ordinal| == 0 || |ordinal| == 6)
            && tail == (if time == "" then "" else "T" + time) + (if ordinal == "" then "" else "_" + ordinal)
  {
    var whole := (if time == "" then "" else "T" + time) + (if ordinal == "" then "" else "_" + ordinal);
    if MatchTail(tail) == Some((time, ordinal)) { MatchTailSound(tail); }
    if tail == whole {
      if ordinal == "" {
        assert time != "" ==> tail[1..] == time;
      } else if time == "" {
        assert tail[1..] == ordinal;
      } else if |ordinal| == 6 {
        assert tail[1..|tail| - 7] == time && tail[|tail| - 6..] == ordinal;
      }
    }
  }

  lemma MatchTailSound(tail: string)
    requires MatchTail(tail).Some?
    ensures var (time, ordinal) := MatchTail(tail).value;
            && AllDigits(time) && (|time| == 0 || |time| == 2 || |time| == 4)
            && AllDigits(ordinal) && (|ordinal| == 0 || |ordinal| == 6)
            && tail == (if time == "" then "" else "T" + time) + (if ordinal == "" then "" else "_" + ordinal)
  {
    var n := |tail|;
    if n == 3 || n == 5 {
      assert tail == ("T" + tail[1..]) + "";
    } else if n == 7 {
      assert tail == "" + ("_" + tail[1..]);
    } else if n > 7 {
      assert tail == ("T" + tail[1..n - 7]) + ("_" + tail[n - 6..]);
    }
  }

  /** Reading a name splits off the fixed prefix and suffix. */
  lemma ParseBody(date: string, tail: string)
    requires |date| == 8
    ensures var name := "events_" + (date + tail) + ".db";
            |name| >= 18 && name[..7] == "events_" && name[|name| - 3..] == ".db"
            && name[7..|name| - 3] == date + tail && (date + tail)[..8] == date && (date + tail)[8..] == tail
  {
  }

  lemma DatePrinted(d: Date)
    requires ValidDate(d) && d.year >= 0
    ensures var date := DateText(d);
            && |date| == 8 && AllDigits(date)
            && Date(ParseNat(date[..4]), ParseNat(date[4..6]), ParseNat(date[6..])) == d
  {
    Widths();
    var date, y, m, dd := DateText(d), Pad(d.year, 4), Pad(d.month, 2), Pad(d.day, 2);
    assert date == y + m + dd;
    assert date[..4] == y && date[4..6] == m && date[6..] == dd;
    ParsePad(d.year, 4);
    ParsePad(d.month, 2);
    ParsePad(d.day, 2);
  }

  /** The digits of a printed time group, and what they say. */
  lemma TimePrinted(hour: nat, minute: nat, g: int)
    requires hour < 24 && minute < 60
    requires g == DAY_MS || g == HOUR_MS || g == MINUTE_MS
    ensures var time := TimeText(hour, minute, g);
            && |time| == (if g == DAY_MS then 0 else if g == HOUR_MS then 3 else 5)
            && (time != "" ==> time[0] == 'T' && AllDigits(time[1..]) && ParseNat(time[1..][..2]) == hour)
            && (|time| == 5 ==> ParseNat(time[1..][2..]) == minute)
  {
    hide ParseNat, Pad;
    Widths();
    var time, h, m := TimeText(hour, minute, g), Pad(hour, 2), Pad(minute, 2);
    ParsePad(hour, 2);
    ParsePad(minute, 2);
    if g == HOUR_MS {
      assert time[1..] == h && h[..2] == h;
    } else if g == MINUTE_MS {
      assert time[1..] == h + m && (h + m)[..2] == h && (h + m)[2..] == m;
    }
  }

  function TimeDigits(time: string): string { if time == "" then "" else time[1..] }

  lemma StartOfPrinted(ms: int, g: int)
    requires TimestampInRange(ms) && DateAt(ms).year >= 0
    requires g == DAY_MS || g == HOUR_MS || g == MINUTE_MS
    ensures var date, digits := DateText(DateAt(ms)), TimeDigits(TimeTextAt(ms, g));
            && |date| == 8 && AllDigits(date)
            && AllDigits(digits) && (|digits| == 0 || |digits| == 2 || |digits| == 4)
            && TimeTextAt(ms, g) == (if digits == "" then "" else "T" + digits)
            && StartOf(date, digits) == Ok(CutTo(ms, g))
  {
    hide HourAt, MinuteAt, DateText, TimeText, ParseNat, DateOf, TimestampInRange, CutTo, DayNumber, DaysBeforeYear;
    DatePrinted(DateAt(ms));
    TimePrinted(HourAt(ms), MinuteAt(ms), g);
    TruncatedStart(ms, g);
    var time := TimeTextAt(ms, g);
    if time != "" { assert time == [time[0]] + time[1..]; }
  }

  lemma OrdinalPrinted(ordinal: Option<nat>)
    requires ValidOrdinal(ordinal)
    ensures var digits := TimeDigits(OrdinalText(ordinal));
            && AllDigits(digits) && (|digits| == 0 || |digits| == 6)
            && OrdinalText(ordinal) == (if digits == "" then "" else "_" + digits)
            && ordinal == (if digits == "" then None else Some(ParseNat(digits)))
  {
    Widths();
    if ordinal.Some? {
      ParsePad(ordinal.value, 6);
      assert OrdinalText(ordinal)[1..] == Pad(ordinal.value, 6);
    }
  }

  /**
  Every printable start is printed, and reading the name gives the start cut to the label's
  granule together with the ordinal; a year before 0 prints a minus sign and cannot be read.
  */
  lemma PrintThenParse(start: int, window: int, ordinal: Option<nat>)
    requires window > 0 && TimestampInRange(start) && ValidOrdinal(ordinal)
    ensures GeneratePartitionName(start, window, ordinal).Ok?
    ensures ParsePartitionName(GeneratePartitionName(start, window, ordinal).value)
         == if DateAt(start).year >= 0 then Ok((CutTo(start, Granule(window)), ordinal))
            else Err(InvalidPartition)
  {
    var name := GeneratePartitionName(start, window, ordinal).value;
    if DateAt(start).year >= 0 {
      PrintedNameParses(start, window, ordinal);
    } else {
      assert name[7] == '-';
      if |name| >= 18 { assert name[7..|name| - 3][..8][0] == '-'; }
    }
  }

  /** Reading a name put together from a date, a time group and an ordinal group. */
  lemma PartsParse(date: string, time: string, ordinal: string)
    requires |date| == 8 && AllDigits(date)
    requires AllDigits(time) && (|time| == 0 || |time| == 2 || |time| == 4)
    requires AllDigits(ordinal) && (|ordinal| == 0 || |ordinal| == 6) && (ordinal != "" ==> ParseNat(ordinal) != 0)
    requires StartOf(date, time).Ok?
    ensures var tail := (if time == "" then "" else "T" + time) + (if ordinal == "" then "" else "_" + ordinal);
            ParsePartitionName("events_" + (date + tail) + ".db")
            == Ok((StartOf(date, time).value, if ordinal == "" then None else Some(ParseNat(ordinal))))
  {
    hide StartOf, MatchTail, ParseNat;
    var tail := (if time == "" then "" else "T" + time) + (if ordinal == "" then "" else "_" + ordinal);
    ParseBody(date, tail);
    MatchTailAccepts(tail, time, ordinal);
  }

  lemma PrintedNameParses(start: int, window: int, ordinal: Option<nat>)
    requires window > 0 && TimestampInRange(start) && ValidOrdinal(ordinal)
    requires DateAt(start).year >= 0
    ensures ParsePartitionName(GeneratePartitionName(start, window, ordinal).value)
         == Ok((CutTo(start, Granule(window)), ordinal))
  {
    hide ParsePartitionName, GeneratePartitionName, DateText, TimeText, TimeTextAt, OrdinalText, StartOf, DateOf;
    hide TimestampInRange, ParseNat;
    var g := Granule(window);
    var date, time, ord := DateText(DateAt(start)), TimeTextAt(start, g), OrdinalText(ordinal);
    StartOfPrinted(start, g);
    OrdinalPrinted(ordinal);
    PartsParse(date, TimeDigits(time), TimeDigits(ord));
    SplitName(start, ordinal, window);
    assert "events_" + (date + (time + (ord + ".db"))) == "events_" + (date + (time + ord)) + ".db";
  }

  /** A name gives back exactly the start it was printed from when the year has no sign and the label shows it all. */
  lemma RoundTripExactly(start: int, window: int, ordinal: Option<nat>)
    requires window > 0 && TimestampInRange(start) && ValidOrdinal(ordinal)
    ensures ParsePartitionName(GeneratePartitionName(start, window, ordinal).value) == Ok((start, ordinal))
       <==> DateAt(start).year >= 0 && ShownInFull(start, window)
  {
    hide ParsePartitionName, GeneratePartitionName, DateAt, Granule;
    PrintThenParse(start, window, ordinal);
  }

  lemma SomeDigits()
    ensures Pow10(2) == 100 && Pow10(4) == 10_000 && Pow10(6) == 1_000_000
    ensures Pad(2026, 4) == "2026" && Pad(5, 2) == "05" && Pad(21, 2) == "21" && Pad(10, 2) == "10"
    ensures Pad(1, 6) == "000001"
  {
    Widths();
    assert Pad(20, 2) == "20" && Pad(202, 3) == "202";
    assert Pad(0, 2) == "00" && Pad(0, 4) == "0000" && Pad(0, 5) == "00000";
  }

  lemma SomeDay()
    ensures DayNumber(Date(1970, 1, 1)) == 0 && DayNumber(Date(2026, 5, 21)) == 20_594
    ensures DayInRange(20_594) && DateOf(20_594) == Date(2026, 5, 21)
  {
    assert DaysBeforeMonth(2026, 3) == 59;
    DateOfDayNumber(Date(2026, 5, 21));
  }

  /** The documented name of the first overflow file of 21 May 2026, 10:00. */
  lemma DocumentedName()
    ensures DayNumber(Date(1970, 1, 1)) == 0 && DayNumber(Date(2026, 5, 21)) == 20_594
    ensures GeneratePartitionName(20_594 * DAY_MS + 10 * HOUR_MS, HOUR_MS, Some(1))
         == Ok("events_20260521T10_000001.db")
  {
    hide DateOf, DayNumber, DayInRange, HourAt, MinuteAt, Pad, DateText, TimeTextAt, OrdinalText, GeneratePartitionName;
    SomeDay();
    SplitTime(20_594, 10, 0, 0);
    var ms := 20_594 * DAY_MS + 10 * HOUR_MS;
    SplitName(ms, Some(1), HOUR_MS);
    DocumentedParts(ms);
    DocumentedText();
  }

  lemma DocumentedParts(ms: int)
    requires TimestampInRange(ms) && DateAt(ms) == Date(2026, 5, 21) && HourAt(ms) == 10
    ensures DateText(DateAt(ms)) == "20260521" && TimeTextAt(ms, Granule(HOUR_MS)) == "T10"
    ensures OrdinalText(Some(1)) == "_000001"
  {
    hide Pad, DateAt, HourAt, MinuteAt, TimestampInRange;
    SomeDigits();
    assert "2026" + "05" + "21" == "20260521";
    assert "T" + "10" == "T10";
    assert "_" + "000001" == "_000001";
  }

  lemma DocumentedText()
    ensures "events_" + ("20260521" + ("T10" + ("_000001" + ".db"))) == "events_20260521T10_000001.db"
  {
  }

  /** Times from 1970 on have years that print without a sign. */
  lemma NonNegativeYear(ms: int)
    requires ms >= 0 && TimestampInRange(ms)
    ensures DateAt(ms).year >= 1970
  {
    var year := DateAt(ms).year;
    if year < 1970 {
      YearsAscend(year + 1, 1970);
      assert false;
    }
  }

  /**
  All window starts survive a print and a read exactly when the window is aligned. The first
  window start, the window itself, is already a counterexample when it is not.
  */
  lemma WindowsRoundTripExactlyWhenAligned(window: int, ordinal: Option<nat>)
    requires window > 0 && TimestampInRange(window) && ValidOrdinal(ordinal)
    ensures (forall now: nat | TimestampInRange(FloorToWindow(now, window)) ::
               ParsePartitionName(GeneratePartitionName(FloorToWindow(now, window), window, ordinal).value)
               == Ok((FloorToWindow(now, window), ordinal)))
       <==> AlignedWindow(window)
  {
    if AlignedWindow(window) {
      forall now: nat | TimestampInRange(FloorToWindow(now, window))
        ensures ParsePartitionName(GeneratePartitionName(FloorToWindow(now, window), window, ordinal).value)
             == Ok((FloorToWindow(now, window), ordinal))
      {
        FloorIsWindowStart(now, window);
        NonNegativeYear(FloorToWindow(now, window));
        RoundTripExactly(FloorToWindow(now, window), window, ordinal);
      }
    } else {
      assert FloorToWindow(window, window) == window;
      RoundTripExactly(window, window, ordinal);
    }
  }

  // ----- reading then printing

  function WindowForTime(time: string): (window: int)
    ensures window > 0
  {
    if |time| == 0 then DAY_MS else if |time| == 2 then HOUR_MS else MINUTE_MS
  }

  lemma PrintedStart(date: string, time: string)
    requires |date| == 8 && AllDigits(date)
    requires AllDigits(time) && (|time| == 0 || |time| == 2 || |time| == 4)
    requires StartOf(date, time).Ok?
    ensures var ms := StartOf(date, time).value;
            && TimestampInRange(ms)
            && DateText(DateAt(ms)) == date
            && TimeTextAt(ms, WindowForTime(time)) == if time == "" then "" else "T" + time
  {
    hide Pad, ParseNat, DateOf, DateText, TimeText, DayNumber, DaysBeforeYear, DaysBeforeMonth, HourAt, MinuteAt;
    Widths();
    var ms := StartOf(date, time).value;
    var d := Date(ParseNat(date[..4]), ParseNat(date[4..6]), ParseNat(date[6..]));
    var hour := if time == "" then 0 else ParseNat(time[..2]);
    var minute := if |time| == 4 then ParseNat(time[2..]) else 0;
    DateOfDayNumber(d);
    SplitTime(DayNumber(d), hour, minute, 0);
    DateReprinted(date);
    TimeReprinted(time, hour, minute);
  }

  lemma DateReprinted(date: string)
    requires |date| == 8 && AllDigits(date)
    requires ValidDate(Date(ParseNat(date[..4]), ParseNat(date[4..6]), ParseNat(date[6..])))
    ensures DateText(Date(ParseNat(date[..4]), ParseNat(date[4..6]), ParseNat(date[6..]))) == date
  {
    hide Pad, ParseNat, Pow10, DaysInMonth;
    Widths();
    PadParse(date[..4]);
    PadParse(date[4..6]);
    PadParse(date[6..]);
    assert date == date[..4] + date[4..6] + date[6..];
  }

  lemma TimeReprinted(time: string, hour: nat, minute: nat)
    requires AllDigits(time) && (|time| == 0 || |time| == 2 || |time| == 4)
    requires hour < 24 && minute < 60
    requires time != "" ==> hour == ParseNat(time[..2])
    requires |time| == 4 ==> minute == ParseNat(time[2..])
    ensures TimeText(hour, minute, WindowForTime(time)) == if time == "" then "" else "T" + time
  {
    hide Pad, ParseNat, Pow10;
    Widths();
    if time != "" {
      PadParse(time[..2]);
      if |time| == 2 {
        assert time[..2] == time;
      } else {
        PadParse(time[2..]);
        assert time == time[..2] + time[2..];
      }
    }
  }

  /** A time put together from its day, hour and minute gives them back. */
  lemma SplitTime(day: int, hour: nat, minute: nat, rest: nat)
    requires hour < 24 && minute < 60 && rest < MINUTE_MS
    ensures var ms := day * DAY_MS + hour * HOUR_MS + minute * MINUTE_MS + rest;
            ms / DAY_MS == day && HourAt(ms) == hour && MinuteAt(ms) == minute
  {
    DivideDay(day, hour * HOUR_MS + minute * MINUTE_MS + rest);
    DivideHour(hour, minute * MINUTE_MS + rest);
    DivideHour(24 * day + hour, minute * MINUTE_MS + rest);
    DivideMinute(minute, rest);
  }

  lemma DivideMinute(q: int, r: int)
    requires 0 <= r < MINUTE_MS
    ensures (q * MINUTE_MS + r) / MINUTE_MS == q
  {
  }

  lemma DivideDay(q: int, r: int)
    requires 0 <= r < DAY_MS
    ensures (q * DAY_MS + r) / DAY_MS == q && (q * DAY_MS + r) % DAY_MS == r
  {
  }

  lemma DivideHour(q: int, r: int)
    requires 0 <= r < HOUR_MS
    ensures (q * HOUR_MS + r) / HOUR_MS == q && (q * HOUR_MS + r) % HOUR_MS == r
  {
  }

  /** What an accepted name is made of, and what reading it gives. */
  lemma ParsedParts(name: string) returns (date: string, time: string, ordinal: string)
    requires ParsePartitionName(name).Ok?
    ensures |date| == 8 && AllDigits(date)
    ensures AllDigits(time) && (|time| == 0 || |time| == 2 || |time| == 4)
    ensures AllDigits(ordinal) && (|ordinal| == 0 || |ordinal| == 6) && (ordinal != "" ==> ParseNat(ordinal) != 0)
    ensures StartOf(date, time).Ok?
    ensures name == "events_" + (date + (if time == "" then "" else "T" + time))
                    + (if ordinal == "" then "" else "_" + ordinal) + ".db"
    ensures ParsePartitionName(name).value
         == (StartOf(date, time).value, if ordinal == "" then None else Some(ParseNat(ordinal)))
    ensures |name| >= 18 && MatchTail(name[15..|name| - 3]) == Some((time, ordinal))
  {
    hide StartOf, ParseNat, MatchTail;
    var body := name[7..|name| - 3];
    assert body[8..] == name[15..|name| - 3];
    date := body[..8];
    time, ordinal := MatchTail(body[8..]).value.0, MatchTail(body[8..]).value.1;
    MatchTailSound(body[8..]);
    NameParts(name);
    var timeText, ordText := if time == "" then "" else "T" + time, if ordinal == "" then "" else "_" + ordinal;
    assert "events_" + (date + (timeText + ordText)) + ".db" == "events_" + (date + timeText) + ordText + ".db";
  }

  /**
  Every accepted name is printed again from what was read, by every window whose label has the
  granule of the name's own time digits.
  */
  lemma ParseThenPrint(name: string, window: int)
    requires ParsePartitionName(name).Ok?
    requires window > 0 && Granule(window) == WindowForTime(MatchTail(name[15..|name| - 3]).value.0)
    ensures var (start, ordinal) := ParsePartitionName(name).value;
            GeneratePartitionName(start, window, ordinal) == Ok(name) && ValidOrdinal(ordinal)
  {
    hide *;
    var date, time, ordinal := ParsedParts(name);
    PartsPrinted(date, time, ordinal, window);
  }

  lemma PartsPrinted(date: string, time: string, digits: string, window: int)
    requires |date| == 8 && AllDigits(date)
    requires AllDigits(time) && (|time| == 0 || |time| == 2 || |time| == 4)
    requires AllDigits(digits) && (|digits| == 0 || |digits| == 6) && (digits != "" ==> ParseNat(digits) != 0)
    requires StartOf(date, time).Ok? && window > 0 && Granule(window) == WindowForTime(time)
    ensures var ordinal: Option<nat> := if digits == "" then None else Some(ParseNat(digits));
            && ValidOrdinal(ordinal)
            && GeneratePartitionName(StartOf(date, time).value, window, ordinal)
            == Ok("events_" + (date + (if time == "" then "" else "T" + time))
                  + (if digits == "" then "" else "_" + digits) + ".db")
  {
    hide StartOf, ParseNat, DateText, TimeTextAt, OrdinalText, TimestampInRange, Granule;
    PrintedStart(date, time);
    OrdinalReprinted(digits);
  }

  lemma NameParts(name: string)
    requires |name| >= 18
    ensures name == name[..7] + (name[7..|name| - 3][..8] + name[7..|name| - 3][8..]) + name[|name| - 3..]
  {
  }

  lemma OrdinalReprinted(digits: string)
    requires AllDigits(digits) && (|digits| == 0 || |digits| == 6)
    requires digits != "" ==> ParseNat(digits) != 0
    ensures var ordinal: Option<nat> := if digits == "" then None else Some(ParseNat(digits));
            ValidOrdinal(ordinal) && OrdinalText(ordinal) == (if digits == "" then "" else "_" + digits)
  {
    Widths();
    if digits != "" { PadParse(digits); }
  }

  // ----- text order

  lemma Blocks(p: string, q: string, a: string, b: string)
    requires |p| == |q|
    ensures Less(p + a, q + b) <==> Less(p, q) || (p == q && Less(a, b))
  {
    if p == q {
      SamePrefix(p, a, b);
      Irreflexive(p);
    } else {
      PrefixDecides(p, q, a, b);
    }
  }

  lemma PadSame(a: nat, b: nat, width: nat)
    requires a < Pow10(width) && b < Pow10(width)
    ensures Pad(a, width) == Pad(b, width) <==> a == b
    ensures Less(Pad(a, width), Pad(b, width)) <==> a < b
  {
    ParsePad(a, width);
    ParsePad(b, width);
    PadOrder(a, b, width);
  }

  lemma DateTextOrder(a: Date, b: Date)
    requires ValidDate(a) && ValidDate(b) && a.year >= 0 && b.year >= 0
    ensures |DateText(a)| == |DateText(b)| == 8
    ensures Less(DateText(a), DateText(b)) <==> DayNumber(a) < DayNumber(b)
    ensures DateText(a) == DateText(b) <==> DayNumber(a) == DayNumber(b)
  {
    hide Pad, ParseNat, Pow10, DayNumber;
    Widths();
    DayOrder(a, b);
    PadSame(a.year, b.year, 4);
    PadSame(a.month, b.month, 2);
    PadSame(a.day, b.day, 2);
    var ya, yb, ma, mb := Pad(a.year, 4), Pad(b.year, 4), Pad(a.month, 2), Pad(b.month, 2);
    var da, db := Pad(a.day, 2), Pad(b.day, 2);
    assert DateText(a) == ya + (ma + da) && DateText(b) == yb + (mb + db);
    Blocks(ya, yb, ma + da, mb + db);
    Blocks(ma, mb, da, db);
    if DateText(a) == DateText(b) {
      assert DateText(a)[..4] == ya && DateText(b)[..4] == yb;
      assert DateText(a)[4..6] == ma && DateText(b)[4..6] == mb;
      assert DateText(a)[6..] == da && DateText(b)[6..] == db;
    }
  }

  lemma TimeTextOrder(ha: nat, ma: nat, hb: nat, mb: nat, g: int)
    requires ha < 24 && hb < 24 && ma < 60 && mb < 60
    requires g == DAY_MS || g == HOUR_MS || g == MINUTE_MS
    ensures var (ta, tb) := (TimeText(ha, ma, g), TimeText(hb, mb, g));
            && |ta| == |tb|
            && (Less(ta, tb) <==> g != DAY_MS && (ha < hb || (ha == hb && g == MINUTE_MS && ma < mb)))
            && (ta == tb <==> g == DAY_MS || (ha == hb && (g == MINUTE_MS ==> ma == mb)))
  {
    Widths();
    PadSame(ha, hb, 2);
    PadSame(ma, mb, 2);
    Irreflexive("T");
    var pa, pb, qa, qb := Pad(ha, 2), Pad(hb, 2), Pad(ma, 2), Pad(mb, 2);
    if g == HOUR_MS {
      Blocks("T", "T", pa, pb);
      assert ("T" + pa)[1..] == pa && ("T" + pb)[1..] == pb;
    } else if g == MINUTE_MS {
      assert TimeText(ha, ma, g) == "T" + (pa + qa) && TimeText(hb, mb, g) == "T" + (pb + qb);
      Blocks("T", "T", pa + qa, pb + qb);
      Blocks(pa, pb, qa, qb);
      assert (pa + qa)[..2] == pa && (pa + qa)[2..] == qa && (pb + qb)[..2] == pb && (pb + qb)[2..] == qb;
      assert ("T" + (pa + qa))[1..] == pa + qa && ("T" + (pb + qb))[1..] == pb + qb;
    }
  }

  predicate OrdinalLess(a: Option<nat>, b: Option<nat>)
  {
    b.Some? && (a.None? || a.value < b.value)
  }

  lemma OrdinalTextOrder(a: Option<nat>, b: Option<nat>)
    requires ValidOrdinal(a) && ValidOrdinal(b)
    ensures Less(OrdinalText(a) + ".db", OrdinalText(b) + ".db") <==> OrdinalLess(a, b)
  {
    Widths();
    Irreflexive(".db");
    if a.None? && b.None? {
      assert OrdinalText(a) + ".db" == ".db";
    } else if a.Some? && b.Some? {
      PadSame(a.value, b.value, 6);
      var pa, pb := Pad(a.value, 6), Pad(b.value, 6);
      assert OrdinalText(a) + ".db" == "_" + (pa + ".db") && OrdinalText(b) + ".db" == "_" + (pb + ".db");
      SamePrefix("_", pa + ".db", pb + ".db");
      Blocks(pa, pb, ".db", ".db");
    } else if a.Some? {
      UnderscoreAfterDot(Pad(a.value, 6) + ".db");
      assert OrdinalText(a) + ".db" == "_" + (Pad(a.value, 6) + ".db") && OrdinalText(b) + ".db" == ".db";
    } else if b.Some? {
      UnderscoreAfterDot(Pad(b.value, 6) + ".db");
      assert OrdinalText(b) + ".db" == "_" + (Pad(b.value, 6) + ".db") && OrdinalText(a) + ".db" == ".db";
    }
  }

  lemma UnderscoreAfterDot(rest: string)
    ensures Less(".db", "_" + rest) && !Less("_" + rest, ".db")
  {
  }

  /** Starts in the order of what the label shows of them, ties broken by "no ordinal before 1 before 2 ...". */
  predicate EarlierFile(a: int, ao: Option<nat>, b: int, bo: Option<nat>, window: int)
    requires window > 0
  {
    var g := Granule(window);
    CutTo(a, g) < CutTo(b, g) || (CutTo(a, g) == CutTo(b, g) && OrdinalLess(ao, bo))
  }

  /** Names of one window compare as text exactly as their starts and ordinals do. */
  lemma TextOrderIsTimeOrder(a: int, ao: Option<nat>, b: int, bo: Option<nat>, window: int)
    requires window > 0 && TimestampInRange(a) && TimestampInRange(b)
    requires DateAt(a).year >= 0 && DateAt(b).year >= 0
    requires ValidOrdinal(ao) && ValidOrdinal(bo)
    ensures Less(GeneratePartitionName(a, window, ao).value, GeneratePartitionName(b, window, bo).value)
       <==> EarlierFile(a, ao, b, bo, window)
  {
    var g := Granule(window);
    var da, db, ta, tb := DateText(DateAt(a)), DateText(DateAt(b)), TimeTextAt(a, g), TimeTextAt(b, g);
    var oa, ob := OrdinalText(ao) + ".db", OrdinalText(bo) + ".db";
    SplitName(a, ao, window);
    SplitName(b, bo, window);
    SamePrefix("events_", da + (ta + oa), db + (tb + ob));
    DateTextOrder(DateAt(a), DateAt(b));
    Blocks(da, db, ta + oa, tb + ob);
    TimeTextOrder(HourAt(a), MinuteAt(a), HourAt(b), MinuteAt(b), g);
    Blocks(ta, tb, oa, ob);
    OrdinalTextOrder(ao, bo);
    DayThenTime(a, b, g);
  }

  lemma SplitName(start: int, ordinal: Option<nat>, window: int)
    requires window > 0 && TimestampInRange(start) && ValidOrdinal(ordinal)
    ensures GeneratePartitionName(start, window, ordinal).Ok?
    ensures GeneratePartitionName(start, window, ordinal).value
         == "events_"
            + (DateText(DateAt(start)) + (TimeTextAt(start, Granule(window)) + (OrdinalText(ordinal) + ".db")))
  {
    hide DateText, TimeTextAt, OrdinalText, DateAt, Granule, TimestampInRange;
    Together("events_", DateText(DateAt(start)), TimeTextAt(start, Granule(window)), OrdinalText(ordinal), ".db");
    Grouped(DateText(DateAt(start)), TimeTextAt(start, Granule(window)));
  }

  lemma Grouped(a: string, b: string)
    ensures "events_" + (a + b) == "events_" + a + b
  {
  }

  /**
  The name of every file, spelt out: year, month and day for windows of a day and more, also the hour
  for windows of an hour and more, and the minute for shorter ones; then the overflow ordinal, if any,
  from 1 to 999999.
  */
  lemma NameSpeltOut(d: Date, hour: nat, minute: nat, rest: nat, window: int, ordinal: Option<nat>)
    requires ValidDate(d) && hour < 24 && minute < 60 && rest < 60_000 && window > 0
    requires ordinal.Some? ==> 1 <= ordinal.value <= 999_999
    ensures Pow10(2) == 100 && Pow10(6) == 1_000_000
    ensures var start := DayNumber(d) * 86_400_000 + hour * 3_600_000 + minute * 60_000 + rest;
            var date := YearText(d.year) + Pad(d.month, 2) + Pad(d.day, 2);
            var time := if window >= 86_400_000 then "" else if window >= 3_600_000 then "T" + Pad(hour, 2)
                        else "T" + Pad(hour, 2) + Pad(minute, 2);
            var suffix := if ordinal.Some? then "_" + Pad(ordinal.value, 6) else "";
            GeneratePartitionName(start, window, ordinal) == Ok("events_" + date + time + suffix + ".db")
  {
    hide DayNumber, HourAt, MinuteAt, Pad, DateText, YearText, TimeTextAt, OrdinalText, GeneratePartitionName, Granule;
    hide DateAt, TimestampInRange, ValidOrdinal;
    Widths();
    var start := DayNumber(d) * 86_400_000 + hour * 3_600_000 + minute * 60_000 + rest;
    DaySpeltOut(d, hour, minute, rest);
    OrdinalSpeltOut(ordinal);
    SplitName(start, ordinal, window);
    DateSpeltOut(d);
    TimeSpeltOut(start, hour, minute, window);
    Together("events_", DateText(d), TimeTextAt(start, Granule(window)), OrdinalText(ordinal), ".db");
  }

  lemma DaySpeltOut(d: Date, hour: nat, minute: nat, rest: nat)
    requires ValidDate(d) && hour < 24 && minute < 60 && rest < 60_000
    ensures var start := DayNumber(d) * 86_400_000 + hour * 3_600_000 + minute * 60_000 + rest;
            TimestampInRange(start) && DateAt(start) == d && HourAt(start) == hour && MinuteAt(start) == minute
  {
    hide DateOf, DayNumber, HourAt, MinuteAt, DaysBeforeYear;
    DateOfDayNumber(d);
    SplitTime(DayNumber(d), hour, minute, rest);
  }

  lemma OrdinalSpeltOut(ordinal: Option<nat>)
    requires ordinal.Some? ==> 1 <= ordinal.value <= 999_999
    ensures Pow10(6) == 1_000_000 && ValidOrdinal(ordinal)
    ensures OrdinalText(ordinal) == if ordinal.Some? then "_" + Pad(ordinal.value, 6) else ""
  {
    Widths();
  }

  lemma TimeSpeltOut(start: int, hour: nat, minute: nat, window: int)
    requires HourAt(start) == hour < 24 && MinuteAt(start) == minute < 60 && window > 0
    ensures Pow10(2) == 100
    ensures TimeTextAt(start, Granule(window))
         == if window >= 86_400_000 then "" else if window >= 3_600_000 then "T" + Pad(hour, 2)
            else "T" + Pad(hour, 2) + Pad(minute, 2)
  {
    hide HourAt, MinuteAt, Pad;
    Widths();
  }

  lemma DateSpeltOut(d: Date)
    requires ValidDate(d)
    ensures Pow10(2) == 100 && DateText(d) == YearText(d.year) + Pad(d.month, 2) + Pad(d.day, 2)
  {
    hide YearText, Pad;
    Widths();
  }

  lemma Together(a: string, b: string, c: string, d: string, e: string)
    ensures a + (b + (c + (d + e))) == a + b + c + d + e
  {
  }

  /** Names are printed exactly for the times of the years -9999 to 9999 and the ordinals 1 to 999999 or none. */
  lemma NamesExactly(start: int, window: int, ordinal: Option<nat>)
    requires window > 0
    ensures var r := GeneratePartitionName(start, window, ordinal);
            var printable := -4_371_587 * 86_400_000 <= start < 2_932_897 * 86_400_000;
            && (r.Ok? <==> printable && (ordinal.None? || 1 <= ordinal.value <= 999_999))
            && (!printable ==> r == Err(Migration))
            && (printable && r.Err? ==> r == Err(InvalidPartition))
  {
    DayRange(start / DAY_MS);
  }

  /** Truncated times compare by day, then hour, then minute, as far as the granule shows them. */
  lemma DayThenTime(a: int, b: int, g: int)
    requires g == DAY_MS || g == HOUR_MS || g == MINUTE_MS
    ensures var (da, db, ha, hb) := (a / DAY_MS, b / DAY_MS, HourAt(a), HourAt(b));
            var later := da == db && g != DAY_MS
                         && (ha < hb || (ha == hb && g == MINUTE_MS && MinuteAt(a) < MinuteAt(b)));
            var same := da == db && (g == DAY_MS || (ha == hb && (g == MINUTE_MS ==> MinuteAt(a) == MinuteAt(b))));
            && (CutTo(a, g) < CutTo(b, g) <==> da < db || later)
            && (CutTo(a, g) == CutTo(b, g) <==> same)
  {
    TruncatedStart(a, g);
    TruncatedStart(b, g);
  }
}
