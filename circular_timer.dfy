/**
 * The `M:SS` text shown in the middle of the rest timer
 * (`formatTime` in components/CircularTimer.tsx).
 */
module CircularTimer {
  import opened Wrappers
  import opened Decimal

  /** `String.prototype.padStart(width, fill)` with a one-character fill. */
  function PadStart(s: string, width: nat, fill: char): (r: string)
    ensures |s| >= width ==> r == s
    ensures |s| < width ==> |r| == width
    ensures |r| >= |s|
    ensures forall i :: 0 <= i < |r| - |s| ==> r[i] == fill
    ensures forall i :: |r| - |s| <= i < |r| ==> r[i] == s[i - (|r| - |s|)]
    decreases width
  {
    if |s| >= width then s else [fill] + PadStart(s, width - 1, fill)
  }

  /** The seconds part: `remainingSeconds.toString().padStart(2, "0")`. */
  function SecondsText(sec: nat): (r: string)
    ensures |r| >= 2 && AllDigits(r)
    ensures sec >= 10 ==> r == NatToString(sec)
  {
    PadStart(NatToString(sec), 2, '0')
  }

  /** The two characters the seconds part turns into, for a value below 60. */
  lemma SecondsDigits(sec: nat)
    requires sec < 60
    ensures var p := SecondsText(sec);
      && |p| == 2 && IsDigit(p[0]) && IsDigit(p[1])
      && ParseDigits(p) == sec
      && (sec < 10 <==> p[0] == '0')
      && (sec >= 10 ==> p == NatToString(sec))
  {
    var s := NatToString(sec);
    var p := SecondsText(sec);
    if sec >= 10 {
      assert NatToString(sec / 10) == [DigitChar(sec / 10)];
      assert s == [DigitChar(sec / 10), DigitChar(sec % 10)];
      assert p == s;
      assert AllDigits(p) by {
        assert IsDigit(p[0]) && IsDigit(p[1]);
      }
      ParseTwoDigits(p);
      assert DigitValue(p[0]) == sec / 10 && DigitValue(p[1]) == sec % 10;
    } else {
      assert s == [DigitChar(sec)];
      assert PadStart(s, 1, '0') == s;
      assert p == ['0', DigitChar(sec)];
      assert AllDigits(p) by {
        assert IsDigit(p[0]) && IsDigit(p[1]);
      }
      ParseTwoDigits(p);
    }
  }

  /**
   * Reads `M:SS` back: the text before the last three characters must be
   * digits, then a colon, then exactly two digits.
   */
  function ParseTime(s: string): Option<(nat, nat)>
  {
    if |s| >= 4 && s[|s| - 3] == ':' && AllDigits(s[..|s| - 3]) && AllDigits(s[|s| - 2..])
    then Some((ParseDigits(s[..|s| - 3]), ParseDigits(s[|s| - 2..])))
    else None
  }

  /** Minutes, a colon and the padded seconds. */
  function Clock(mins: nat, sec: nat): (r: string)
    ensures |r| >= |NatToString(mins)| + 3 && r[|NatToString(mins)|] == ':'
  {
    NatToString(mins) + ":" + SecondsText(sec)
  }

  /** Parsing digits, a colon and two digits splits them at the colon. */
  lemma ParseJoined(m: string, p: string)
    requires |m| >= 1 && AllDigits(m)
    requires |p| == 2 && AllDigits(p)
    ensures ParseTime(m + [':'] + p) == Some((ParseDigits(m), ParseDigits(p)))
  {
    var r := m + [':'] + p;
    assert r[..|r| - 3] == m;
    assert r[|r| - 2..] == p;
  }

  /** Minutes and seconds below 60 are read back from their `Clock` text. */
  lemma ClockRoundTrip(mins: nat, sec: nat)
    requires sec < 60
    ensures ParseTime(Clock(mins, sec)) == Some((mins, sec))
  {
    var m := NatToString(mins);
    var p := SecondsText(sec);
    SecondsDigits(sec);
    ParseNatToString(mins);
    assert AllDigits(p) by {
      assert IsDigit(p[0]) && IsDigit(p[1]);
    }
    ParseJoined(m, p);
    assert Clock(mins, sec) == m + [':'] + p;
  }

  /** Whole minutes (unpadded), a colon, and the leftover seconds padded to two digits. */
  function FormatTime(secs: nat): (r: string)
    ensures |r| >= |NatToString(secs / 60)| + 3 && r[|NatToString(secs / 60)|] == ':'
  {
    Clock(secs / 60, secs % 60)
  }

  /**
   * Reading the text back gives `secs / 60` minutes and `secs % 60` seconds,
   * the seconds are below 60, and together they make up `secs`.
   */
  lemma FormatTimeRoundTrip(secs: nat)
    ensures ParseTime(FormatTime(secs)) == Some((secs / 60, secs % 60))
    ensures var t := ParseTime(FormatTime(secs)).value; t.1 < 60 && t.0 * 60 + t.1 == secs
  {
    ClockRoundTrip(secs / 60, secs % 60);
  }

  /** Minutes unpadded, then a colon, then two digits; below ten seconds the first is '0'. */
  lemma ClockShape(mins: nat, sec: nat)
    requires sec < 60
    ensures var r, m := Clock(mins, sec), NatToString(mins);
      && |r| == |m| + 3
      && r[..|m|] == m
      && r[|m|] == ':'
      && IsDigit(r[|m| + 1]) && IsDigit(r[|m| + 2])
      && (sec < 10 <==> r[|m| + 1] == '0')
      && (sec >= 10 ==> r[|m| + 1..] == NatToString(sec))
  {
    SecondsDigits(sec);
    var m, p := NatToString(mins), SecondsText(sec);
    JoinedShape(m, p);
    assert Clock(mins, sec) == m + [':'] + p;
  }

  /** Where the parts of `m + ":" + p` sit, for a two-character `p`. */
  lemma JoinedShape(m: string, p: string)
    requires |p| == 2
    ensures var r := m + [':'] + p;
      && |r| == |m| + 3 && r[..|m|] == m && r[|m|] == ':'
      && r[|m| + 1..] == p && r[|m| + 1] == p[0] && r[|m| + 2] == p[1]
  {
    var r := m + [':'] + p;
    assert r[..|m|] == m;
    assert r[|m| + 1..] == p;
  }

  /**
   * The minutes are printed unpadded, followed by a colon and exactly two
   * digits; seconds below ten get a leading zero, from ten on they are
   * printed as they are.
   */
  lemma FormatTimeShape(secs: nat)
    ensures var r, m := FormatTime(secs), NatToString(secs / 60);
      && |r| == |m| + 3
      && r[..|m|] == m
      && r[|m|] == ':'
      && IsDigit(r[|m| + 1]) && IsDigit(r[|m| + 2])
      && (secs % 60 < 10 <==> r[|m| + 1] == '0')
      && (secs % 60 >= 10 ==> r[|m| + 1..] == NatToString(secs % 60))
  {
    ClockShape(secs / 60, secs % 60);
  }

  /** The value of a two-digit string. */
  lemma ParseTwoDigits(p: string)
    requires |p| == 2 && AllDigits(p)
    ensures ParseDigits(p) == DigitValue(p[0]) * 10 + DigitValue(p[1])
  {
    var head := p[..1];
    assert head == [p[0]] && head[..0] == [];
    assert ParseDigits(head) == DigitValue(p[0]);
  }

  /** Two two-digit strings with the same value are the same string. */
  lemma TwoDigitsUnique(p: string, q: string)
    requires |p| == 2 && AllDigits(p) && |q| == 2 && AllDigits(q)
    requires ParseDigits(p) == ParseDigits(q)
    ensures p == q
  {
    ParseTwoDigits(p);
    ParseTwoDigits(q);
  }

  /** A canonical minutes string and a two-digit seconds string below 60 are what `Clock` prints. */
  lemma ClockOfParsed(m: string, p: string)
    requires Canonical(m) && |p| == 2 && AllDigits(p) && ParseDigits(p) < 60
    ensures Clock(ParseDigits(m), ParseDigits(p)) == m + [':'] + p
  {
    NatToStringParse(m);
    var sec := ParseDigits(p);
    SecondsDigits(sec);
    var q := SecondsText(sec);
    assert AllDigits(q) by {
      assert IsDigit(q[0]) && IsDigit(q[1]);
    }
    TwoDigitsUnique(q, p);
  }

  /**
   * Conversely, every text made of canonical minutes, a colon and two digits
   * worth less than 60 is the formatting of `secs = M * 60 + SS`: no such
   * text is missed and none has two readings.
   */
  lemma FormatParse(m: string, p: string, secs: nat)
    requires Canonical(m) && |p| == 2 && AllDigits(p) && ParseDigits(p) < 60
    requires secs == ParseDigits(m) * 60 + ParseDigits(p)
    ensures FormatTime(secs) == m + [':'] + p
  {
    ClockOfParsed(m, p);
    FormatTimeOfParts(secs, ParseDigits(m), ParseDigits(p));
  }

  /** Formatting `secs = mins * 60 + sec` prints exactly `mins` and `sec`. */
  lemma FormatTimeOfParts(secs: nat, mins: nat, sec: nat)
    requires sec < 60 && secs == mins * 60 + sec
    ensures FormatTime(secs) == Clock(mins, sec)
  {
    MinutesSeconds(mins, sec);
  }

  lemma MinutesSeconds(mins: nat, sec: nat)
    requires sec < 60
    ensures (mins * 60 + sec) / 60 == mins && (mins * 60 + sec) % 60 == sec
  {
  }

  /** The cases the timer shows most: under a minute, just over one, ten minutes. */
  lemma FormatTimeExamples()
    ensures FormatTime(5) == "0:05"
    ensures FormatTime(65) == "1:05"
    ensures FormatTime(600) == "10:00"
  {
    assert SecondsText(5) == "05" by {
      assert PadStart("5", 1, '0') == "5";
    }
    assert SecondsText(0) == "00" by {
      assert PadStart("0", 1, '0') == "0";
    }
    assert NatToString(10) == "10";
    FormatTimeOfParts(5, 0, 5);
    FormatTimeOfParts(65, 1, 5);
    FormatTimeOfParts(600, 10, 0);
  }
}
