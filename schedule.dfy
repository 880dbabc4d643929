/**
 * Validation of the daily check time against the pattern
 * `^([01]?[0-9]|2[0-3]):[0-5][0-9]$` as `re.match` applies it.
 */
module Schedule {
  import opened Prices

  const DefaultCheckTime: string := "09:00"

  /** `[01]?[0-9]|2[0-3]`: one digit, or two digits from 00 to 23. */
  predicate HourField(h: string)
  {
    || (|h| == 1 && IsDigit(h[0]))
    || (|h| == 2 && (h[0] == '0' || h[0] == '1') && IsDigit(h[1]))
    || (|h| == 2 && h[0] == '2' && '0' <= h[1] <= '3')
  }

  /** The whole pattern between its anchors: an hour field, a colon and two minute digits 00 to 59. */
  predicate ClockText(s: string)
  {
    (|s| == 4 || |s| == 5) && HourField(s[..|s| - 3]) && s[|s| - 3] == ':'
    && '0' <= s[|s| - 2] <= '5' && IsDigit(s[|s| - 1])
  }

  /**
   * `bool(re.match(pattern, s))`: the match is anchored at the start, and `$`
   * matches at the end of the text or just before a newline that ends it.
   */
  predicate ValidTimeFormat(s: string)
  {
    ClockText(s) || (s != [] && s[|s| - 1] == '\n' && ClockText(s[..|s| - 1]))
  }

  function Pad2(n: nat): string
    requires n < 100
  {
    [DigitChar(n / 10), DigitChar(n % 10)]
  }

  /**
   * A time of day as text: the hour with one digit when it is below ten and
   * `padHour` is false, else with two; the minute with two; and a final
   * newline when `newline` holds.
   */
  function TimeText(h: nat, m: nat, padHour: bool, newline: bool): string
    requires h < 24 && m < 60
  {
    (if padHour || h >= 10 then Pad2(h) else [DigitChar(h)]) + [':'] + Pad2(m)
    + (if newline then ['\n'] else [])
  }

  lemma TimeTextIsValid(h: nat, m: nat, padHour: bool, newline: bool)
    requires h < 24 && m < 60
    ensures ValidTimeFormat(TimeText(h, m, padHour, newline))
  {
    var core := (if padHour || h >= 10 then Pad2(h) else [DigitChar(h)]) + [':'] + Pad2(m);
    var hour := core[..|core| - 3];
    assert hour == if padHour || h >= 10 then Pad2(h) else [DigitChar(h)];
    assert HourField(hour) by {
      if padHour || h >= 10 {
        assert h / 10 <= 2;
        assert h / 10 == 2 ==> h % 10 <= 3;
      }
    }
    assert ClockText(core);
    if newline {
      assert TimeText(h, m, padHour, newline)[..|core|] == core;
    } else {
      assert TimeText(h, m, padHour, newline) == core;
    }
  }

  lemma ClockTextIsTime(core: string, newline: bool)
    requires ClockText(core)
    ensures exists h: nat, m: nat, padHour: bool ::
      h < 24 && m < 60 && core + (if newline then ['\n'] else []) == TimeText(h, m, padHour, newline)
  {
    var n := |core|;
    var hour := core[..n - 3];
    var m := 10 * DigitValue(core[n - 2]) + DigitValue(core[n - 1]);
    assert Pad2(m) == core[n - 2..];
    var h: nat;
    if n == 4 {
      h := DigitValue(core[0]);
      assert [DigitChar(h)] == hour;
    } else {
      h := 10 * DigitValue(core[0]) + DigitValue(core[1]);
      assert Pad2(h) == hour;
    }
    var padHour := n == 5;
    assert core == hour + [':'] + core[n - 2..];
    assert core + (if newline then ['\n'] else []) == TimeText(h, m, padHour, newline);
  }

  /**
   * The accepted texts are exactly H:MM and HH:MM for hours 0 to 23 (one digit
   * or with a leading zero) and minutes 00 to 59, optionally followed by one newline.
   */
  lemma ValidTimeFormatIff(s: string)
    ensures ValidTimeFormat(s) <==>
      exists h: nat, m: nat, padHour: bool, newline: bool ::
        h < 24 && m < 60 && s == TimeText(h, m, padHour, newline)
  {
    if ValidTimeFormat(s) {
      if ClockText(s) {
        ClockTextIsTime(s, false);
        assert s + [] == s;
      } else {
        var core := s[..|s| - 1];
        ClockTextIsTime(core, true);
        assert core + ['\n'] == s;
      }
    }
    if exists h: nat, m: nat, padHour: bool, newline: bool ::
         h < 24 && m < 60 && s == TimeText(h, m, padHour, newline) {
      var h: nat, m: nat, padHour: bool, newline: bool :|
        h < 24 && m < 60 && s == TimeText(h, m, padHour, newline);
      TimeTextIsValid(h, m, padHour, newline);
    }
  }

  /** Out-of-range hours and minutes and one-digit minutes are refused; both hour spellings are accepted. */
  lemma TimeFormatExamples()
    ensures !ValidTimeFormat("24:00") && !ValidTimeFormat("12:60") && !ValidTimeFormat("12:5")
    ensures ValidTimeFormat("9:05") && ValidTimeFormat("09:05") && ValidTimeFormat("23:59")
    ensures ValidTimeFormat(DefaultCheckTime)
  {
  }
}
