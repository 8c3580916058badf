/** The countdown arithmetic of `tick` (scripts.js:143-148): a positive number of
    milliseconds split into days, hours, minutes and seconds with floor division and
    remainder, and the text shown for it. */
module Countdown {
  import opened Text

  const MsPerSecond: nat := 1000
  const MsPerMinute: nat := 1000 * 60
  const MsPerHour: nat := 1000 * 60 * 60
  const MsPerDay: nat := 1000 * 60 * 60 * 24

  /** Whole days, hours, minutes and seconds left. */
  datatype TimeLeft = TimeLeft(days: nat, hours: nat, minutes: nat, seconds: nat)

  /** The milliseconds a `TimeLeft` stands for. */
  function Milliseconds(t: TimeLeft): nat {
    t.days * MsPerDay + t.hours * MsPerHour + t.minutes * MsPerMinute + t.seconds * MsPerSecond
  }

  /** The split `tick` computes. For a positive remainder it is the unique breakdown with
      hours below 24, minutes and seconds below 60, that stands for the remainder rounded
      down to the whole second. */
  function Split(remaining: int): (t: TimeLeft)
    requires remaining > 0
    ensures t.hours < 24 && t.minutes < 60 && t.seconds < 60
    ensures Milliseconds(t) <= remaining < Milliseconds(t) + MsPerSecond
  {
    var days := remaining / MsPerDay;
    var hours := (remaining % MsPerDay) / MsPerHour;
    var minutes := (remaining % MsPerHour) / MsPerMinute;
    var seconds := (remaining % MsPerMinute) / MsPerSecond;
    SplitArithmetic(remaining);
    TimeLeft(days, hours, minutes, seconds)
  }

  /** The remainders by hour and by minute can be taken after the remainder by day and by hour. */
  lemma SplitArithmetic(remaining: int)
    requires remaining > 0
    ensures var rd := remaining % MsPerDay;
      var rh := remaining % MsPerHour;
      var rm := remaining % MsPerMinute;
      && rd == (rd / MsPerHour) * MsPerHour + rh
      && rh == (rh / MsPerMinute) * MsPerMinute + rm
      && rm == (rm / MsPerSecond) * MsPerSecond + remaining % MsPerSecond
      && remaining == (remaining / MsPerDay) * MsPerDay + rd
  {
    var q := remaining / MsPerDay;
    var rd := remaining % MsPerDay;
    assert remaining == q * MsPerDay + rd;
    assert q * MsPerDay == (q * 24) * MsPerHour;
    ModAfterMultiple(q * 24, rd, MsPerHour);
    var rh := remaining % MsPerHour;
    var qh := remaining / MsPerHour;
    assert remaining == qh * MsPerHour + rh;
    assert qh * MsPerHour == (qh * 60) * MsPerMinute;
    ModAfterMultiple(qh * 60, rh, MsPerMinute);
    var qm := remaining / MsPerMinute;
    var rm := remaining % MsPerMinute;
    assert remaining == qm * MsPerMinute + rm;
    assert qm * MsPerMinute == (qm * 60) * MsPerSecond;
    ModAfterMultiple(qm * 60, rm, MsPerSecond);
  }

  /** Adding a multiple of `m` does not change the remainder by `m`. */
  lemma ModAfterMultiple(k: int, x: int, m: int)
    requires m > 0 && k >= 0 && x >= 0
    ensures (k * m + x) % m == x % m
  {
    var y := k * m + x;
    assert y == (k + x / m) * m + x % m;
    DivModUnique(y, k + x / m, x % m, m);
  }

  /** Division and remainder are the unique quotient and remainder. */
  lemma DivModUnique(a: int, q: int, r: int, m: int)
    requires m > 0 && 0 <= r < m && a == q * m + r
    ensures a / m == q && a % m == r
  {
    var q', r' := a / m, a % m;
    assert a == q' * m + r';
    assert (q - q') * m == r' - r;
    if q > q' {
      MulAtLeast(q - q', m);
    } else if q < q' {
      MulAtLeast(q' - q, m);
    }
  }

  lemma {:induction false} MulAtLeast(k: int, m: int)
    requires k >= 1 && m > 0
    ensures k * m >= m
    decreases k
  {
    if k > 1 {
      MulAtLeast(k - 1, m);
      assert k * m == (k - 1) * m + m;
    }
  }

  /** Any breakdown with those bounds that brackets the remainder is the split: the
      contract of `Split` pins down its result. */
  lemma SplitUnique(remaining: int, t: TimeLeft)
    requires remaining > 0
    requires t.hours < 24 && t.minutes < 60 && t.seconds < 60
    requires Milliseconds(t) <= remaining < Milliseconds(t) + MsPerSecond
    ensures t == Split(remaining)
  {
    var ms := remaining - Milliseconds(t);
    var belowDay := t.hours * MsPerHour + t.minutes * MsPerMinute + t.seconds * MsPerSecond + ms;
    var belowHour := t.minutes * MsPerMinute + t.seconds * MsPerSecond + ms;
    var belowMinute := t.seconds * MsPerSecond + ms;
    DivModUnique(remaining, t.days, belowDay, MsPerDay);
    DivModUnique(belowDay, t.hours, belowHour, MsPerHour);
    DivModUnique(remaining, t.days * 24 + t.hours, belowHour, MsPerHour);
    DivModUnique(belowHour, t.minutes, belowMinute, MsPerMinute);
    DivModUnique(remaining, (t.days * 24 + t.hours) * 60 + t.minutes, belowMinute, MsPerMinute);
    DivModUnique(belowMinute, t.seconds, ms, MsPerSecond);
  }

  /** `Starts in: ${days}d ${hours}h ${minutes}m ${seconds}s`. */
  function CountdownText(remaining: int): (s: string)
    requires remaining > 0
    ensures |s| > 11 && s[..11] == "Starts in: " && s[|s| - 1] == 's'
  {
    var t := Split(remaining);
    "Starts in: " + NatToDecimal(t.days) + "d " + NatToDecimal(t.hours) + "h "
      + NatToDecimal(t.minutes) + "m " + NatToDecimal(t.seconds) + "s"
  }

  /** A number, a unit letter and what follows. */
  function Unit(n: nat, u: char, more: string): string {
    NatToDecimal(n) + [u] + more
  }

  /** The countdown text as its four units. */
  lemma CountdownTextUnits(remaining: int)
    requires remaining > 0
    ensures var t := Split(remaining);
      CountdownText(remaining)
        == "Starts in: " + Unit(t.days, 'd', " " + Unit(t.hours, 'h', " " + Unit(t.minutes, 'm', " " + Unit(t.seconds, 's', []))))
  {
  }

  /** A number written before a letter that is not a digit is read back, and so is what
      follows the letter. */
  lemma LeadingNumber(a: nat, b: nat, u: char, x: string, y: string)
    requires !IsDigit(u) && Unit(a, u, x) == Unit(b, u, y)
    ensures a == b && x == y
  {
    var da, db := NatToDecimal(a), NatToDecimal(b);
    var s := Unit(a, u, x);
    assert s[|da|] == u && s[|db|] == u;
    assert forall i :: 0 <= i < |da| ==> s[i] == da[i];
    assert forall i :: 0 <= i < |db| ==> s[i] == db[i];
    assert |da| == |db|;
    assert da == s[..|da|] == db;
    DecimalInjective(a, b);
    assert x == s[|da| + 1..] == y;
  }

  /** The countdown text gives back the days, hours, minutes and seconds it shows. */
  lemma CountdownTextReadsBack(a: int, b: int)
    requires a > 0 && b > 0
    ensures CountdownText(a) == CountdownText(b) ==> Split(a) == Split(b)
  {
    if CountdownText(a) == CountdownText(b) {
      var t, v := Split(a), Split(b);
      CountdownTextUnits(a);
      CountdownTextUnits(b);
      var p := "Starts in: ";
      var st, sv := Unit(t.seconds, 's', []), Unit(v.seconds, 's', []);
      var mt, mv := Unit(t.minutes, 'm', " " + st), Unit(v.minutes, 'm', " " + sv);
      var ht, hv := Unit(t.hours, 'h', " " + mt), Unit(v.hours, 'h', " " + mv);
      var rt, rv := Unit(t.days, 'd', " " + ht), Unit(v.days, 'd', " " + hv);
      assert rt == (p + rt)[|p|..] == (p + rv)[|p|..] == rv;
      LeadingNumber(t.days, v.days, 'd', " " + ht, " " + hv);
      assert ht == (" " + ht)[1..] == (" " + hv)[1..] == hv;
      LeadingNumber(t.hours, v.hours, 'h', " " + mt, " " + mv);
      assert mt == (" " + mt)[1..] == (" " + mv)[1..] == mv;
      LeadingNumber(t.minutes, v.minutes, 'm', " " + st, " " + sv);
      assert st == (" " + st)[1..] == (" " + sv)[1..] == sv;
      LeadingNumber(t.seconds, v.seconds, 's', [], []);
    }
  }

  /** The split stands for the remainder rounded down to the whole second. */
  lemma SplitWholeSeconds(remaining: int)
    requires remaining > 0
    ensures Milliseconds(Split(remaining)) == remaining / MsPerSecond * MsPerSecond
  {
    var t := Split(remaining);
    var k := t.days * 86400 + t.hours * 3600 + t.minutes * 60 + t.seconds;
    assert Milliseconds(t) == k * MsPerSecond;
    DivModUnique(remaining, k, remaining - k * MsPerSecond, MsPerSecond);
  }

  /** The countdown text changes exactly when the whole number of seconds left changes: two
      remainders show the same text if and only if they fall in the same second. */
  lemma CountdownTextPerSecond(a: int, b: int)
    requires a > 0 && b > 0
    ensures CountdownText(a) == CountdownText(b) <==> a / MsPerSecond == b / MsPerSecond
  {
    SplitWholeSeconds(a);
    SplitWholeSeconds(b);
    CountdownTextReadsBack(a, b);
    if a / MsPerSecond == b / MsPerSecond {
      SplitUnique(b, Split(a));
    }
  }
}
