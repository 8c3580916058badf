/** "Add to Calendar" (scripts.js:76-105): the event as an iCalendar text whose start, end
    and stamp are written `YYYYMMDDTHHMMSSZ` in UTC, the end one hour after the start, and
    the file name the download gets. */
module Calendar {
  import opened Options
  import opened Text
  import opened Events
  import opened Countdown

  /** The fields `formattedDate` reads with `getUTCFullYear`, `getUTCMonth` (from 0),
      `getUTCDate`, `getUTCHours`, `getUTCMinutes` and `getUTCSeconds`. */
  datatype UtcFields = UtcFields(year: int, month0: int, day: int, hour: int, minute: int, second: int)

  /** The calendar part of a UTC date. */
  datatype CivilDate = CivilDate(year: int, month0: int, day: int)

  /** Fields a stamp can be read back from: a four-digit year and every field in range. */
  predicate Readable(f: UtcFields) {
    && 1000 <= f.year <= 9999 && 0 <= f.month0 < 12 && 1 <= f.day <= 31
    && 0 <= f.hour < 24 && 0 <= f.minute < 60 && 0 <= f.second < 60
  }

  /** `String(n).padStart(2, '0')`. */
  function Two(n: int): string {
    PadStart2(IntToString(n))
  }

  /** `formattedDate`: year, month, day, `T`, hours, minutes, seconds, `Z`; every field but
      the year padded to two digits, the year as `String` writes it. */
  function Stamp(f: UtcFields): string {
    DatePart(f) + "T" + TimePart(f) + "Z"
  }

  /** `${year}${month}${day}`. */
  function DatePart(f: UtcFields): string {
    IntToString(f.year) + Two(f.month0 + 1) + Two(f.day)
  }

  /** `${hour}${minute}${second}`. */
  function TimePart(f: UtcFields): string {
    Two(f.hour) + Two(f.minute) + Two(f.second)
  }

  /** The value of the digit at position `i`. */
  function DigitAt(s: string, i: nat): nat
    requires i < |s| && IsDigit(s[i])
  {
    DigitValue(s[i])
  }

  /** Sixteen characters: digits everywhere but the `T` at position 8 and the closing `Z`. */
  predicate StampShape(s: string) {
    && |s| == 16 && s[8] == 'T' && s[15] == 'Z'
    && forall i :: 0 <= i < 16 && i != 8 && i != 15 ==> IsDigit(s[i])
  }

  /** Reading a stamp back: four digits of year, then two each of month (counted from 1),
      day, hour, minute and second. */
  function ParseStamp(s: string): Option<UtcFields> {
    if !StampShape(s) then None
    else
      var month := 10 * DigitAt(s, 4) + DigitAt(s, 5);
      if month == 0 then None
      else Some(UtcFields(
        1000 * DigitAt(s, 0) + 100 * DigitAt(s, 1) + 10 * DigitAt(s, 2) + DigitAt(s, 3),
        month - 1,
        10 * DigitAt(s, 6) + DigitAt(s, 7),
        10 * DigitAt(s, 9) + DigitAt(s, 10),
        10 * DigitAt(s, 11) + DigitAt(s, 12),
        10 * DigitAt(s, 13) + DigitAt(s, 14)))
  }

  /** A number below 100, padded to two places, as its two digits. */
  lemma TwoDigits(n: int)
    requires 0 <= n < 100
    ensures Two(n) == [DigitChar(n / 10), DigitChar(n % 10)]
  {
    if n >= 10 {
      assert NatToDecimal(n / 10) == [DigitChar(n / 10)];
    } else {
      assert NatToDecimal(n) == [DigitChar(n % 10)];
    }
  }

  /** A year from 1000 to 9999 as its four digits. */
  lemma FourDigits(n: int)
    requires 1000 <= n <= 9999
    ensures IntToString(n) == [DigitChar(n / 1000), DigitChar(n / 100 % 10), DigitChar(n / 10 % 10), DigitChar(n % 10)]
  {
    assert n / 10 / 10 == n / 100;
    assert n / 100 / 10 == n / 1000;
    assert NatToDecimal(n) == NatToDecimal(n / 10) + [DigitChar(n % 10)];
    assert NatToDecimal(n / 10) == NatToDecimal(n / 100) + [DigitChar(n / 10 % 10)];
    assert NatToDecimal(n / 100) == NatToDecimal(n / 1000) + [DigitChar(n / 100 % 10)];
    assert NatToDecimal(n / 1000) == [DigitChar(n / 1000)];
  }

  /** Reading a digit back. */
  lemma DigitCharValue(d: nat)
    requires d < 10
    ensures DigitValue(DigitChar(d)) == d
  {
  }

  /** The characters of the date part of a readable stamp. */
  lemma DateChars(f: UtcFields)
    requires Readable(f)
    ensures var y, m := f.year, f.month0 + 1;
      DatePart(f)
        == [DigitChar(y / 1000), DigitChar(y / 100 % 10), DigitChar(y / 10 % 10), DigitChar(y % 10),
            DigitChar(m / 10), DigitChar(m % 10), DigitChar(f.day / 10), DigitChar(f.day % 10)]
  {
    FourDigits(f.year);
    TwoDigits(f.month0 + 1);
    TwoDigits(f.day);
  }

  /** The characters of the time part of a readable stamp. */
  lemma TimeChars(f: UtcFields)
    requires Readable(f)
    ensures TimePart(f)
        == [DigitChar(f.hour / 10), DigitChar(f.hour % 10), DigitChar(f.minute / 10), DigitChar(f.minute % 10),
            DigitChar(f.second / 10), DigitChar(f.second % 10)]
  {
    TwoDigits(f.hour);
    TwoDigits(f.minute);
    TwoDigits(f.second);
  }

  /** The fourteen digits of a readable stamp, most significant first: they make up the
      year, the month counted from 1, the day, the hour, the minute and the second. */
  function StampDigits(f: UtcFields): (ds: seq<nat>)
    requires Readable(f)
    ensures |ds| == 14 && forall k :: 0 <= k < 14 ==> ds[k] < 10
    ensures 1000 * ds[0] + 100 * ds[1] + 10 * ds[2] + ds[3] == f.year
    ensures 10 * ds[4] + ds[5] == f.month0 + 1 && 10 * ds[6] + ds[7] == f.day
    ensures 10 * ds[8] + ds[9] == f.hour && 10 * ds[10] + ds[11] == f.minute && 10 * ds[12] + ds[13] == f.second
  {
    var y, m := f.year, f.month0 + 1;
    YearFromDigits(y);
    TwoFromDigits(m);
    TwoFromDigits(f.day);
    TwoFromDigits(f.hour);
    TwoFromDigits(f.minute);
    TwoFromDigits(f.second);
    [y / 1000, y / 100 % 10, y / 10 % 10, y % 10, m / 10, m % 10, f.day / 10, f.day % 10,
     f.hour / 10, f.hour % 10, f.minute / 10, f.minute % 10, f.second / 10, f.second % 10]
  }

  /** Fourteen digits spelled as a stamp: eight, `T`, six, `Z`. */
  function Spell(ds: seq<nat>): (s: string)
    requires |ds| == 14 && forall k :: 0 <= k < 14 ==> ds[k] < 10
    ensures |s| == 16
  {
    seq(16, i requires 0 <= i < 16 =>
      if i == 8 then 'T' else if i == 15 then 'Z' else DigitChar(ds[if i < 8 then i else i - 1]))
  }

  /** A readable stamp spells its digits. */
  lemma StampSpells(f: UtcFields)
    requires Readable(f)
    ensures Stamp(f) == Spell(StampDigits(f))
  {
    var y, m := f.year, f.month0 + 1;
    var date := [DigitChar(y / 1000), DigitChar(y / 100 % 10), DigitChar(y / 10 % 10), DigitChar(y % 10),
      DigitChar(m / 10), DigitChar(m % 10), DigitChar(f.day / 10), DigitChar(f.day % 10)];
    var time := [DigitChar(f.hour / 10), DigitChar(f.hour % 10), DigitChar(f.minute / 10), DigitChar(f.minute % 10),
      DigitChar(f.second / 10), DigitChar(f.second % 10)];
    DateChars(f);
    TimeChars(f);
    var s, t := Stamp(f), Spell(StampDigits(f));
    assert s == date + "T" + time + "Z";
    forall i | 0 <= i < 16 ensures s[i] == t[i] {
      if i < 8 { assert s[i] == date[i]; }
      else if 8 < i < 15 { assert s[i] == time[i - 9]; }
    }
  }

  /** Spelled digits read back as the numbers they make up. */
  lemma ParseSpelled(ds: seq<nat>)
    requires |ds| == 14 && forall k :: 0 <= k < 14 ==> ds[k] < 10
    requires 10 * ds[4] + ds[5] > 0
    ensures ParseStamp(Spell(ds)) == Some(UtcFields(1000 * ds[0] + 100 * ds[1] + 10 * ds[2] + ds[3],
      10 * ds[4] + ds[5] - 1, 10 * ds[6] + ds[7], 10 * ds[8] + ds[9], 10 * ds[10] + ds[11], 10 * ds[12] + ds[13]))
  {
    var s := Spell(ds);
    forall i | 0 <= i < 16 && i != 8 && i != 15 ensures IsDigit(s[i]) && DigitAt(s, i) == ds[if i < 8 then i else i - 1] {
      DigitCharValue(ds[if i < 8 then i else i - 1]);
    }
  }

  /** The two digits of a number below 100 make up the number. */
  lemma TwoFromDigits(n: int)
    requires 0 <= n < 100
    ensures 10 * (n / 10) + n % 10 == n
  {
  }

  /** The four digits of a year make up the year. */
  lemma YearFromDigits(y: int)
    requires 1000 <= y <= 9999
    ensures 1000 * (y / 1000) + 100 * (y / 100 % 10) + 10 * (y / 10 % 10) + y % 10 == y
  {
    assert y == 10 * (y / 10) + y % 10;
    assert y / 10 == 10 * (y / 100) + y / 10 % 10;
    assert y / 100 == 10 * (y / 1000) + y / 100 % 10;
  }

  /** The spelled digits of readable fields read back as those fields. */
  lemma SpelledRoundTrip(f: UtcFields)
    requires Readable(f)
    ensures ParseStamp(Spell(StampDigits(f))) == Some(f)
  {
    ParseSpelled(StampDigits(f));
  }

  /** A readable set of fields gives a sixteen-character stamp that reads back as those fields. */
  lemma StampRoundTrip(f: UtcFields)
    requires Readable(f)
    ensures |Stamp(f)| == 16
    ensures ParseStamp(Stamp(f)) == Some(f)
  {
    SpelledRoundTrip(f);
    StampSpells(f);
  }

  /** Different readable fields give different stamps. */
  lemma StampInjective(f: UtcFields, g: UtcFields)
    requires Readable(f) && Readable(g)
    ensures Stamp(f) == Stamp(g) ==> f == g
  {
    StampRoundTrip(f);
    StampRoundTrip(g);
  }

  /** The UTC fields of the instant `ms` milliseconds after the epoch. The time of day is
      the remainder of a floor division by the day, as for `getUTCHours` and the rest;
      `civil` gives the calendar date of a day number (days since the epoch). */
  function UtcOf(ms: int, civil: int -> CivilDate): (f: UtcFields)
    ensures 0 <= f.hour < 24 && 0 <= f.minute < 60 && 0 <= f.second < 60
    ensures ClockTime(f) <= ms % MsPerDay < ClockTime(f) + MsPerSecond
    ensures CivilDate(f.year, f.month0, f.day) == civil(ms / MsPerDay)
  {
    var tod := ms % MsPerDay;
    var c := civil(ms / MsPerDay);
    TimeOfDay(tod);
    UtcFields(c.year, c.month0, c.day, tod / MsPerHour, (tod % MsPerHour) / MsPerMinute,
      (tod % MsPerMinute) / MsPerSecond)
  }

  /** Milliseconds since midnight at the whole second the fields give. */
  function ClockTime(f: UtcFields): int {
    f.hour * MsPerHour + f.minute * MsPerMinute + f.second * MsPerSecond
  }

  /** Hours, minutes and seconds taken from a time of day bracket it to the second. */
  lemma TimeOfDay(tod: int)
    requires 0 <= tod < MsPerDay
    ensures var h, m, s := tod / MsPerHour, (tod % MsPerHour) / MsPerMinute, (tod % MsPerMinute) / MsPerSecond;
      h * MsPerHour + m * MsPerMinute + s * MsPerSecond <= tod < h * MsPerHour + m * MsPerMinute + s * MsPerSecond + MsPerSecond
  {
    var h, inHour := tod / MsPerHour, tod % MsPerHour;
    var m, inMinute := inHour / MsPerMinute, inHour % MsPerMinute;
    assert tod == h * MsPerHour + inHour;
    assert inHour == m * MsPerMinute + inMinute;
    ModModAgree(tod, h, inHour);
    assert inMinute == (inMinute / MsPerSecond) * MsPerSecond + inMinute % MsPerSecond;
  }

  const HourMs: int := 60 * 60 * 1000

  /** The end one hour after the start falls on the same date and the next hour, unless the
      start is in the day's last hour; then it is on the next day's date at hour 0. Minutes
      and seconds are the start's. */
  lemma EndIsOneHourLater(startMs: int, civil: int -> CivilDate)
    ensures var s := UtcOf(startMs, civil);
      var e := UtcOf(startMs + HourMs, civil);
      && e.minute == s.minute && e.second == s.second
      && (s.hour < 23 ==> e == s.(hour := s.hour + 1))
      && (s.hour == 23 ==>
            e.hour == 0 && CivilDate(e.year, e.month0, e.day) == civil(startMs / MsPerDay + 1))
  {
    var d, tod := startMs / MsPerDay, startMs % MsPerDay;
    var h, inHour := tod / MsPerHour, tod % MsPerHour;
    assert tod == h * MsPerHour + inHour;
    if h < 23 {
      DivModUnique(startMs + HourMs, d, tod + HourMs, MsPerDay);
      DivModUnique(tod + HourMs, h + 1, inHour, MsPerHour);
    } else {
      assert h == 23;
      DivModUnique(startMs + HourMs, d + 1, inHour, MsPerDay);
      DivModUnique(inHour, 0, inHour, MsPerHour);
      DivModUnique(tod, 23 * 60 + inHour / MsPerMinute, inHour % MsPerMinute, MsPerMinute);
      DivModUnique(inHour, inHour / MsPerMinute, inHour % MsPerMinute, MsPerMinute);
    }
    ModModAgree(tod, h, inHour);
    ModModAgree(tod + HourMs, h + 1, inHour);
  }

  /** Within a day, the remainder by the minute is that of the remainder by the hour. */
  lemma ModModAgree(t: int, h: int, inHour: int)
    requires h >= 0 && 0 <= inHour < MsPerHour && t == h * MsPerHour + inHour
    ensures t % MsPerMinute == inHour % MsPerMinute
  {
    DivModUnique(t, h * 60 + inHour / MsPerMinute, inHour % MsPerMinute, MsPerMinute);
  }

  /** One line of the calendar text: a property name, a colon, the value. */
  datatype ContentLine = ContentLine(name: string, value: string)

  function LineText(c: ContentLine): string {
    c.name + ":" + c.value
  }

  function Texts(cs: seq<ContentLine>): (ls: seq<string>)
    ensures |ls| == |cs| && forall k :: 0 <= k < |cs| ==> ls[k] == LineText(cs[k])
  {
    seq(|cs|, k requires 0 <= k < |cs| => LineText(cs[k]))
  }

  /** When the event ends: one hour after it starts (scripts.js:90). */
  function EndMs(e: Event): int {
    e.startMs + HourMs
  }

  /** The values `icsContent` takes from the event and the clock. */
  datatype Values = Values(uid: string, stamp: string, start: string, end: string, summary: string,
    description: string)

  /** None of the values holds a line break. */
  predicate NoBreaks(v: Values) {
    && '\n' !in v.uid && '\n' !in v.stamp && '\n' !in v.start && '\n' !in v.end
    && '\n' !in v.summary && '\n' !in v.description
  }

  /** The thirteen lines of `icsContent` around the values. */
  function Properties(v: Values): seq<ContentLine>
  {
    [ ContentLine("BEGIN", "VCALENDAR"),
      ContentLine("VERSION", "2.0"),
      ContentLine("PRODID", "-//TechCon//Event Calendar//EN"),
      ContentLine("BEGIN", "VEVENT"),
      ContentLine("UID", v.uid),
      ContentLine("DTSTAMP", v.stamp),
      ContentLine("DTSTART", v.start),
      ContentLine("DTEND", v.end),
      ContentLine("SUMMARY", v.summary),
      ContentLine("DESCRIPTION", v.description),
      ContentLine("LOCATION", "Main Hall"),
      ContentLine("END", "VEVENT"),
      ContentLine("END", "VCALENDAR") ]
  }

  /** The lines of `icsContent`, as names and values; `nowMs` is the clock reading for
      `DTSTAMP`, and the end is one hour after the start. */
  function IcsProperties(e: Event, nowMs: int, civil: int -> CivilDate): seq<ContentLine> {
    Properties(EventValues(e, nowMs, civil))
  }

  /** The identifier with the domain, the clock stamp, the start, the end one hour later, the
      title, and the description with its speaker. */
  function EventValues(e: Event, nowMs: int, civil: int -> CivilDate): Values {
    Values(IntToString(e.id) + "@techcon2025.org", Stamp(UtcOf(nowMs, civil)),
      Stamp(UtcOf(e.startMs, civil)), Stamp(UtcOf(EndMs(e), civil)), e.title,
      e.description + " - Speaker: " + e.speaker)
  }

  function IcsLines(e: Event, nowMs: int, civil: int -> CivilDate): seq<string> {
    Texts(IcsProperties(e, nowMs, civil))
  }

  /** Lines joined with `\n`, as the template literal writes them. */
  function Join(lines: seq<string>): string {
    if lines == [] then []
    else if |lines| == 1 then lines[0]
    else lines[0] + "\n" + Join(lines[1..])
  }

  /** The text of the calendar file. */
  function IcsContent(e: Event, nowMs: int, civil: int -> CivilDate): string {
    Join(IcsLines(e, nowMs, civil))
  }

  /** Position of the first `\n` in `s`, if any. */
  function FirstBreak(s: string): (r: Option<nat>)
    ensures r.None? <==> '\n' !in s
    ensures r.Some? ==> r.value < |s| && s[r.value] == '\n' && '\n' !in s[..r.value]
  {
    if s == [] then None
    else if s[0] == '\n' then Some(0)
    else
      var t := FirstBreak(s[1..]);
      assert s == [s[0]] + s[1..];
      if t.None? then None
      else
        assert s[..t.value + 1] == [s[0]] + s[1..][..t.value];
        Some(t.value + 1)
  }

  /** `s.split('\n')`: the pieces between line breaks (the empty text is one empty line). */
  function SplitLines(s: string): seq<string>
    decreases |s|
  {
    match FirstBreak(s)
    case None => [s]
    case Some(i) => [s[..i]] + SplitLines(s[i + 1..])
  }

  /** Splitting joined lines at the breaks gives back the lines, when there is at least one
      and none of them holds a break. */
  lemma {:induction false} SplitJoin(lines: seq<string>)
    requires |lines| >= 1
    requires forall k :: 0 <= k < |lines| ==> '\n' !in lines[k]
    ensures SplitLines(Join(lines)) == lines
    decreases |lines|
  {
    if |lines| > 1 {
      var l, rest := lines[0], Join(lines[1..]);
      var s := l + "\n" + rest;
      assert s[..|l|] == l;
      assert s[|l|] == '\n';
      assert s[|l| + 1..] == rest;
      assert FirstBreak(s) == Some(|l|);
      SplitJoin(lines[1..]);
      assert lines == [l] + lines[1..];
    }
  }

  /** The value of the first line that starts with `name` and a colon. */
  function Property(lines: seq<string>, name: string): (r: Option<string>)
    ensures r.Some? ==> exists k :: 0 <= k < |lines| && lines[k] == name + ":" + r.value
  {
    if lines == [] then None
    else
      var p := name + ":";
      if p <= lines[0] then
        assert lines[0] == p + lines[0][|p|..];
        Some(lines[0][|p|..])
      else Property(lines[1..], name)
  }

  /** The value of the first content line with that name. */
  function Lookup(cs: seq<ContentLine>, name: string): Option<string> {
    if cs == [] then None
    else if cs[0].name == name then Some(cs[0].value)
    else Lookup(cs[1..], name)
  }

  /** With no colon in the names, a line starts with `name` and a colon exactly when its name
      is `name`. */
  lemma PrefixIffName(name: string, c: ContentLine)
    requires ':' !in name && ':' !in c.name
    ensures (name + ":" <= LineText(c)) <==> name == c.name
  {
    var t, p := LineText(c), name + ":";
    if |name| < |c.name| {
      assert p[|name|] != t[|name|];
    } else if |name| > |c.name| {
      assert p[|c.name|] != t[|c.name|];
    } else {
      assert t[..|p|] == c.name + ":";
      assert p[..|name|] == name;
      assert (c.name + ":")[..|name|] == c.name;
    }
  }

  /** Reading a property from the text lines finds the value the first line of that name has. */
  lemma {:induction false} PropertyOfTexts(cs: seq<ContentLine>, name: string)
    requires ':' !in name && forall k :: 0 <= k < |cs| ==> Plain(cs[k].name)
    ensures Property(Texts(cs), name) == Lookup(cs, name)
  {
    if cs != [] {
      PrefixIffName(name, cs[0]);
      var p := name + ":";
      if cs[0].name == name {
        assert Texts(cs)[0][|p|..] == cs[0].value;
      } else {
        PropertyOfTexts(cs[1..], name);
        assert Texts(cs)[1..] == Texts(cs[1..]);
      }
    }
  }

  /** The event's title, description and speaker carry no line break. */
  predicate SingleLine(e: Event) {
    '\n' !in e.title && '\n' !in e.description && '\n' !in e.speaker
  }

  /** Names and values without line breaks give text lines without them. */
  lemma TextsSingle(cs: seq<ContentLine>)
    requires forall k :: 0 <= k < |cs| ==> '\n' !in cs[k].name && '\n' !in cs[k].value
    ensures forall k :: 0 <= k < |cs| ==> '\n' !in Texts(cs)[k]
  {
  }

  /** No line break and no colon. */
  predicate Plain(s: string) {
    '\n' !in s && ':' !in s
  }

  /** The fixed names are plain. */
  lemma FixedNamesPlain()
    ensures Plain("BEGIN") && Plain("VERSION") && Plain("PRODID") && Plain("UID")
    ensures Plain("DTSTAMP") && Plain("DTSTART") && Plain("DTEND")
  {
  }

  /** The other fixed names are plain. */
  lemma MoreNamesPlain()
    ensures Plain("SUMMARY") && Plain("DESCRIPTION") && Plain("LOCATION") && Plain("END")
  {
  }

  /** The fixed values have no line break. */
  lemma FixedValuesSingle()
    ensures '\n' !in "VCALENDAR" && '\n' !in "2.0" && '\n' !in "VEVENT" && '\n' !in "Main Hall"
    ensures '\n' !in "-//TechCon//Event Calendar//EN" && '\n' !in "@techcon2025.org" && '\n' !in " - Speaker: "
  {
  }

  /** The lines carry no line break when the values put in do not, and no name has a colon. */
  lemma PropertiesSingle(v: Values)
    requires NoBreaks(v)
    ensures var cs := Properties(v);
      |cs| == 13 && forall k :: 0 <= k < |cs| ==> Plain(cs[k].name) && '\n' !in cs[k].value
  {
    FixedNamesPlain();
    MoreNamesPlain();
    FixedValuesSingle();
  }

  /** The first line of a name gives the value. */
  lemma {:induction false} LookupAt(cs: seq<ContentLine>, name: string, k: nat)
    requires k < |cs| && cs[k].name == name
    requires forall j :: 0 <= j < k ==> cs[j].name != name
    ensures Lookup(cs, name) == Some(cs[k].value)
  {
    if k > 0 {
      LookupAt(cs[1..], name, k - 1);
    }
  }

  /** The first three properties of the event are found by name. */
  lemma PropertiesFoundFirst(v: Values)
    ensures var cs := Properties(v);
      && Lookup(cs, "UID") == Some(v.uid) && Lookup(cs, "DTSTAMP") == Some(v.stamp)
      && Lookup(cs, "DTSTART") == Some(v.start)
  {
    var cs := Properties(v);
    LookupAt(cs, "UID", 4);
    LookupAt(cs, "DTSTAMP", 5);
    LookupAt(cs, "DTSTART", 6);
  }

  /** The other three properties of the event are found by name. */
  lemma PropertiesFoundLast(v: Values)
    ensures var cs := Properties(v);
      && Lookup(cs, "DTEND") == Some(v.end) && Lookup(cs, "SUMMARY") == Some(v.summary)
      && Lookup(cs, "DESCRIPTION") == Some(v.description)
  {
    var cs := Properties(v);
    LookupAt(cs, "DTEND", 7);
    LookupAt(cs, "SUMMARY", 8);
    LookupAt(cs, "DESCRIPTION", 9);
  }

  /** The first and the last line as text. */
  lemma EnvelopeText()
    ensures LineText(ContentLine("BEGIN", "VCALENDAR")) == "BEGIN:VCALENDAR"
    ensures LineText(ContentLine("END", "VCALENDAR")) == "END:VCALENDAR"
  {
  }

  /** Split back into lines, the text of the thirteen lines runs from `BEGIN:VCALENDAR` to
      `END:VCALENDAR`, and its properties give back the values put in. */
  lemma PropertiesText(v: Values)
    requires NoBreaks(v)
    ensures var lines := SplitLines(Join(Texts(Properties(v))));
      && |lines| == 13
      && lines[0] == "BEGIN:VCALENDAR" && lines[12] == "END:VCALENDAR"
      && Property(lines, "UID") == Some(v.uid) && Property(lines, "DTSTAMP") == Some(v.stamp)
      && Property(lines, "DTSTART") == Some(v.start) && Property(lines, "DTEND") == Some(v.end)
      && Property(lines, "SUMMARY") == Some(v.summary) && Property(lines, "DESCRIPTION") == Some(v.description)
  {
    var cs := Properties(v);
    PropertiesSingle(v);
    TextsSingle(cs);
    SplitJoin(Texts(cs));
    PropertiesFoundFirst(v);
    PropertiesFoundLast(v);
    EnvelopeText();
    FixedNamesPlain();
    MoreNamesPlain();
    PropertyOfTexts(cs, "UID");
    PropertyOfTexts(cs, "DTSTAMP");
    PropertyOfTexts(cs, "DTSTART");
    PropertyOfTexts(cs, "DTEND");
    PropertyOfTexts(cs, "SUMMARY");
    PropertyOfTexts(cs, "DESCRIPTION");
  }

  /** Split back into lines, the calendar text is thirteen lines from `BEGIN:VCALENDAR` to
      `END:VCALENDAR`, and its properties give the event's identifier, the clock stamp, the
      start, the end one hour later, the title, and the description with its speaker. */
  lemma IcsCarriesEvent(e: Event, nowMs: int, civil: int -> CivilDate)
    requires SingleLine(e)
    ensures var lines := SplitLines(IcsContent(e, nowMs, civil));
      && |lines| == 13
      && lines[0] == "BEGIN:VCALENDAR" && lines[12] == "END:VCALENDAR"
      && Property(lines, "UID") == Some(IntToString(e.id) + "@techcon2025.org")
      && Property(lines, "DTSTAMP") == Some(Stamp(UtcOf(nowMs, civil)))
      && Property(lines, "DTSTART") == Some(Stamp(UtcOf(e.startMs, civil)))
      && Property(lines, "DTEND") == Some(Stamp(UtcOf(EndMs(e), civil)))
      && Property(lines, "SUMMARY") == Some(e.title)
      && Property(lines, "DESCRIPTION") == Some(e.description + " - Speaker: " + e.speaker)
  {
    var v := EventValues(e, nowMs, civil);
    assert IcsContent(e, nowMs, civil) == Join(Texts(Properties(v)));
    EventValuesSingle(e, nowMs, civil);
    PropertiesText(v);
  }

  /** An event without line breaks gives values without them. */
  lemma EventValuesSingle(e: Event, nowMs: int, civil: int -> CivilDate)
    requires SingleLine(e)
    ensures NoBreaks(EventValues(e, nowMs, civil))
  {
    StampHasNoBreak(UtcOf(nowMs, civil));
    StampHasNoBreak(UtcOf(e.startMs, civil));
    StampHasNoBreak(UtcOf(EndMs(e), civil));
    IntHasNoBreak(e.id);
    FixedValuesSingle();
  }

  /** `String(n)` is a minus sign and digits: never a line break. */
  lemma IntHasNoBreak(n: int)
    ensures '\n' !in IntToString(n)
  {
    var s := IntToString(n);
    assert forall i :: 0 <= i < |s| ==> s[i] == '-' || IsDigit(s[i]);
  }

  /** A stamp is digits, a minus sign, `T` and `Z`: never a line break. */
  lemma StampHasNoBreak(f: UtcFields)
    ensures '\n' !in Stamp(f)
  {
    forall n: int ensures '\n' !in Two(n) && '\n' !in IntToString(n) {
      IntHasNoBreak(n);
    }
  }

  /** `event.title.replace(/\s/g, '_')`. */
  function Underscored(s: string): (r: string)
    ensures |r| == |s|
    ensures forall i :: 0 <= i < |s| ==> !IsWhitespace(r[i])
    ensures forall i :: 0 <= i < |s| ==> r[i] == (if IsWhitespace(s[i]) then '_' else s[i])
  {
    seq(|s|, i requires 0 <= i < |s| => if IsWhitespace(s[i]) then '_' else s[i])
  }

  /** The name the download gets: the title with every whitespace character made `_`, then
      `.ics`. */
  function DownloadName(title: string): (r: string)
    ensures |r| == |title| + 4 && r[|title|..] == ".ics"
    ensures forall i :: 0 <= i < |r| ==> !IsWhitespace(r[i])
    ensures forall i :: 0 <= i < |title| && !IsWhitespace(title[i]) ==> r[i] == title[i]
    ensures forall i :: 0 <= i < |title| && IsWhitespace(title[i]) ==> r[i] == '_'
  {
    Underscored(title) + ".ics"
  }

  /** Sanitising an already sanitised name changes nothing, and titles that differ only in
      which whitespace characters they use get the same name. */
  lemma DownloadNameStable(a: string, b: string)
    ensures DownloadName(Underscored(a)) == DownloadName(a)
    ensures |a| == |b| && (forall i :: 0 <= i < |a| ==> (a[i] == b[i] || (IsWhitespace(a[i]) && IsWhitespace(b[i]))))
      ==> DownloadName(a) == DownloadName(b)
  {
    assert Underscored(Underscored(a)) == Underscored(a);
    if |a| == |b| && (forall i :: 0 <= i < |a| ==> (a[i] == b[i] || (IsWhitespace(a[i]) && IsWhitespace(b[i])))) {
      assert Underscored(a) == Underscored(b);
    }
  }
}
