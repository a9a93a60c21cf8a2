/**
 SubRip timestamps `HH:MM:SS,mmm`, as `format_timestamp` renders them, over a
 time given as a whole number of milliseconds. Hours are zero-padded to two
 digits but never capped: 25 hours render as `25:...` and 100 hours as `100:...`.
 */
module Timestamp {
  import opened Wrappers
  import opened Decimal

  const MillisPerSecond: nat := 1000
  const MillisPerMinute: nat := 60000
  const MillisPerHour: nat := 3600000

  /** The four fields of a rendered timestamp. */
  datatype Clock = Clock(hours: nat, minutes: nat, seconds: nat, millis: nat)

  /** Minutes and seconds below 60, milliseconds below 1000; hours unbounded. */
  predicate ValidClock(c: Clock) {
    c.minutes < 60 && c.seconds < 60 && c.millis < 1000
  }

  function TotalMillis(c: Clock): nat {
    c.hours * MillisPerHour + c.minutes * MillisPerMinute + c.seconds * MillisPerSecond + c.millis
  }

  /**
   The field split of `format_timestamp`: whole hours, the minutes of the
   remaining hour, the seconds of the remaining minute and the milliseconds
   of the remaining second, each by integer division and remainder.
   */
  function Split(ms: nat): Clock {
    Clock(ms / MillisPerHour,
          (ms % MillisPerHour) / MillisPerMinute,
          (ms % MillisPerMinute) / MillisPerSecond,
          ms % MillisPerSecond)
  }

  /** The split is a valid clock reading of the same total, with the whole hours first. */
  lemma SplitSpec(ms: nat)
    ensures ValidClock(Split(ms))
    ensures TotalMillis(Split(ms)) == ms
    ensures Split(ms).hours == ms / MillisPerHour
  {
    HourModMinute(ms);
    MinuteModSecond(ms);
  }

  /** `format_timestamp`: `{hours:02d}:{minutes:02d}:{secs:02d},{millis:03d}`. */
  function Format(ms: nat): string {
    var c := Split(ms);
    PadNat(c.hours, 2) + ":" + PadNat(c.minutes, 2) + ":" + PadNat(c.seconds, 2) + "," + PadNat(c.millis, 3)
  }

  /**
   A timestamp is at least 12 characters long, exactly 12 below 100 hours;
   its last ten are `:MM:SS,mmm` and everything else is a digit.
   */
  lemma FormatLayout(ms: nat)
    ensures var s := Format(ms);
      && |s| >= 12
      && (|s| == 12 <==> ms / MillisPerHour < 100)
      && s[|s| - 10] == ':' && s[|s| - 7] == ':' && s[|s| - 4] == ','
      && (forall i :: 0 <= i < |s| - 10 ==> IsDigit(s[i]))
      && (forall i :: |s| - 10 < i < |s| && i != |s| - 7 && i != |s| - 4 ==> IsDigit(s[i]))
  {
    var c := Split(ms);
    SplitSpec(ms);
    NatToStringLength(c.hours, 2);
    NatToStringLength(c.minutes, 2);
    NatToStringLength(c.seconds, 2);
    NatToStringLength(c.millis, 3);
    FieldsLayout(PadNat(c.hours, 2), PadNat(c.minutes, 2), PadNat(c.seconds, 2), PadNat(c.millis, 3));
  }

  /** Digit fields of widths at least 2, then 2, 2 and 3, joined by `:`, `:` and `,`. */
  lemma FieldsLayout(hh: string, mm: string, ss: string, mmm: string)
    requires |hh| >= 2 && |mm| == 2 && |ss| == 2 && |mmm| == 3
    requires AllDigits(hh) && AllDigits(mm) && AllDigits(ss) && AllDigits(mmm)
    ensures var s := hh + ":" + mm + ":" + ss + "," + mmm;
      && |s| == |hh| + 10
      && s[|s| - 10] == ':' && s[|s| - 7] == ':' && s[|s| - 4] == ','
      && (forall i :: 0 <= i < |s| - 10 ==> IsDigit(s[i]))
      && (forall i :: |s| - 10 < i < |s| && i != |s| - 7 && i != |s| - 4 ==> IsDigit(s[i]))
  {
    var s := hh + ":" + mm + ":" + ss + "," + mmm;
    forall i | |s| - 10 < i < |s| && i != |s| - 7 && i != |s| - 4 ensures IsDigit(s[i]) {
      var k := i - |hh|;
      if k < 3 {
        assert s[i] == mm[k - 1];
      } else if k < 6 {
        assert s[i] == ss[k - 4];
      } else {
        assert s[i] == mmm[k - 7];
      }
    }
  }

  /**
   Reads a timestamp back: an hours field of at least two digits, then
   `:MM:SS,mmm` with minutes and seconds below 60.
   */
  function Parse(s: string): (r: Option<nat>)
    ensures r.Some? ==> |s| >= 12
  {
    if |s| < 12 || s[|s| - 10] != ':' || s[|s| - 7] != ':' || s[|s| - 4] != ',' then None
    else
      var h := ParseNat(s[..|s| - 10]);
      var m := ParseNat(s[|s| - 9..|s| - 7]);
      var sec := ParseNat(s[|s| - 6..|s| - 4]);
      var ms := ParseNat(s[|s| - 3..]);
      if h.None? || m.None? || sec.None? || ms.None? then None
      else if m.value >= 60 || sec.value >= 60 then None
      else Some(TotalMillis(Clock(h.value, m.value, sec.value, ms.value)))
  }

  /** Parsing a formatted timestamp gives back the same millisecond count. */
  lemma FormatParse(ms: nat)
    ensures Parse(Format(ms)) == Some(ms)
  {
    var c := Split(ms);
    SplitSpec(ms);
    NatToStringLength(c.hours, 2);
    NatToStringLength(c.minutes, 2);
    NatToStringLength(c.seconds, 2);
    NatToStringLength(c.millis, 3);
    ParseFields(PadNat(c.hours, 2), PadNat(c.minutes, 2), PadNat(c.seconds, 2), PadNat(c.millis, 3), c);
  }

  /** The timestamp layout, whatever its fields hold, reads back as the clock they spell. */
  lemma ParseFields(hh: string, mm: string, ss: string, mmm: string, c: Clock)
    requires ValidClock(c)
    requires |hh| >= 2 && ParseNat(hh) == Some(c.hours)
    requires |mm| == 2 && ParseNat(mm) == Some(c.minutes)
    requires |ss| == 2 && ParseNat(ss) == Some(c.seconds)
    requires |mmm| == 3 && ParseNat(mmm) == Some(c.millis)
    ensures Parse(hh + ":" + mm + ":" + ss + "," + mmm) == Some(TotalMillis(c))
  {
    var s := hh + ":" + mm + ":" + ss + "," + mmm;
    assert s[..|s| - 10] == hh;
    assert s[|s| - 9..|s| - 7] == mm;
    assert s[|s| - 6..|s| - 4] == ss;
    assert s[|s| - 3..] == mmm;
  }

  /** The split is the only valid clock reading with the given total. */
  lemma SplitUnique(ms: nat, c: Clock)
    requires ValidClock(c) && TotalMillis(c) == ms
    ensures Split(ms) == c
  {
    var rest := c.minutes * MillisPerMinute + c.seconds * MillisPerSecond + c.millis;
    assert rest < MillisPerHour;
    assert ms / MillisPerHour == c.hours && ms % MillisPerHour == rest by {
      DivModUnique(ms, MillisPerHour, c.hours, rest);
    }
    var rest2 := c.seconds * MillisPerSecond + c.millis;
    assert ms % MillisPerMinute == rest2 by {
      assert ms == (c.hours * 60 + c.minutes) * MillisPerMinute + rest2;
      DivModUnique(ms, MillisPerMinute, c.hours * 60 + c.minutes, rest2);
    }
    assert rest % MillisPerMinute == rest2 && rest / MillisPerMinute == c.minutes by {
      DivModUnique(rest, MillisPerMinute, c.minutes, rest2);
    }
    assert rest2 / MillisPerSecond == c.seconds by {
      DivModUnique(rest2, MillisPerSecond, c.seconds, c.millis);
    }
    assert ms % MillisPerSecond == c.millis by {
      assert ms == ((c.hours * 60 + c.minutes) * 60 + c.seconds) * MillisPerSecond + c.millis;
      DivModUnique(ms, MillisPerSecond, (c.hours * 60 + c.minutes) * 60 + c.seconds, c.millis);
    }
  }

  lemma DivModUnique(n: nat, d: nat, q: nat, r: nat)
    requires d > 0 && r < d && n == q * d + r
    ensures n / d == q && n % d == r
  {
    var q', r' := n / d, n % d;
    assert n == q' * d + r';
    if q' < q {
      MulMonotone(q' + 1, q, d);
    } else if q < q' {
      MulMonotone(q + 1, q', d);
    }
  }

  /** The minutes-and-below part of the remaining hour is the remaining minute's. */
  lemma HourModMinute(n: nat)
    ensures n % MillisPerHour % MillisPerMinute == n % MillisPerMinute
  {
    var q, r := n / MillisPerHour, n % MillisPerHour;
    DivModUnique(n, MillisPerMinute, q * 60 + r / MillisPerMinute, r % MillisPerMinute);
  }

  /** The milliseconds of the remaining minute are the remaining second's. */
  lemma MinuteModSecond(n: nat)
    ensures n % MillisPerMinute % MillisPerSecond == n % MillisPerSecond
  {
    var q, r := n / MillisPerMinute, n % MillisPerMinute;
    DivModUnique(n, MillisPerSecond, q * 60 + r / MillisPerSecond, r % MillisPerSecond);
  }

  lemma MulMonotone(a: nat, b: nat, d: nat)
    requires a <= b
    ensures a * d <= b * d
  {
    var k: nat := b - a;
    assert b * d == a * d + k * d;
  }

  /** Rendering is injective: distinct times never share a timestamp. */
  lemma FormatInjective(a: nat, b: nat)
    ensures Format(a) == Format(b) ==> a == b
  {
    FormatParse(a);
    FormatParse(b);
  }

  /** Hours are the whole number of hours, with no wrap at 24 (no day rollover). */
  lemma NoDayRollover(ms: nat)
    ensures Split(ms + 24 * MillisPerHour).hours == Split(ms).hours + 24
    ensures Split(ms + 24 * MillisPerHour).minutes == Split(ms).minutes
    ensures Split(ms + 24 * MillisPerHour).seconds == Split(ms).seconds
    ensures Split(ms + 24 * MillisPerHour).millis == Split(ms).millis
  {
    var c := Split(ms);
    SplitSpec(ms);
    SplitUnique(ms + 24 * MillisPerHour, Clock(c.hours + 24, c.minutes, c.seconds, c.millis));
  }

  /** The worked examples of the subtitle format. */
  lemma ExampleZero()
    ensures Format(0) == "00:00:00,000"
  {
  }

  lemma ExampleMinute()
    ensures Format(61250) == "00:01:01,250"
  {
  }

  lemma ExampleHour()
    ensures Format(3661999) == "01:01:01,999"
  {
  }

  lemma ExampleDay()
    ensures Format(86401000) == "24:00:01,000"
  {
  }
}
