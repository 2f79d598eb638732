/**
 * Finish-time parsing (`parseTime`): `minutes:seconds` with an optional decimal
 * fraction on the seconds, giving a number of seconds, or nothing for blank,
 * "DNS", "-" and any text of another shape. Values are exact reals.
 */
module RaceTime {
  import opened Wrappers
  import opened Text

  /** Exact value of fraction digits after the point: "4" is 0.4, "25" is 0.25, "" is 0. */
  function FractionValue(f: string): (v: real)
    requires AllDigits(f)
    ensures 0.0 <= v < 1.0
  {
    if f == [] then 0.0 else (DigitValue(f[0]) as real + FractionValue(f[1..])) / 10.0
  }

  /** The text `mins:whole` or `mins:whole.frac`. */
  function TimeText(mins: string, whole: string, frac: Option<string>): string {
    match frac
    case None => mins + ":" + whole
    case Some(f) => mins + ":" + whole + "." + f
  }

  /** The pieces of `^(\d+):(\d+\.?\d*)$`: one or more digits on both sides of the
      colon, then optionally a point followed by zero or more digits. */
  predicate ValidParts(mins: string, whole: string, frac: Option<string>) {
    && |mins| > 0 && AllDigits(mins)
    && |whole| > 0 && AllDigits(whole)
    && (frac.Some? ==> AllDigits(frac.value))
  }

  /** Seconds denoted by the pieces: minutes times sixty plus the seconds figure. */
  function PartsValue(mins: string, whole: string, frac: Option<string>): real
    requires ValidParts(mins, whole, frac)
  {
    (60 * Decimal(mins) + Decimal(whole)) as real + FractionValue(frac.GetOr(""))
  }

  /** `t` has exactly the shape the time pattern accepts. */
  ghost predicate IsTimeText(t: string) {
    exists mins, whole, frac :: ValidParts(mins, whole, frac) && t == TimeText(mins, whole, frac)
  }

  /** The trimmed cell is one of the explicit no-time markers: empty, "-" or "DNS"
      (spelled out character by character). */
  predicate IsNoTimeMarker(t: string) {
    || |t| == 0
    || (|t| == 1 && t[0] == '-')
    || (|t| == 3 && t[0] == 'D' && t[1] == 'N' && t[2] == 'S')
  }

  /** Seconds in a finish-time cell, or None when the cell holds no time. */
  function ParseTime(s: string): (r: Option<real>)
    ensures r.Some? ==> r.value >= 0.0
  {
    var t := Trim(s);
    if IsNoTimeMarker(t) then None else MatchClock(t)
  }

  /** The time pattern matched against the whole of `t`, and the value of the match. */
  function MatchClock(t: string): (r: Option<real>)
    ensures r.Some? ==> r.value >= 0.0
  {
    var i := DigitRun(t, 0);
    if i == 0 || i == |t| || t[i] != ':' then None
    else
      var j := DigitRun(t, i + 1);
      if j == i + 1 then None
      else if j == |t| then Some(PartsValue(t[..i], t[i + 1..j], None))
      else if t[j] != '.' || DigitRun(t, j + 1) != |t| then None
      else
        assert t[j + 1..] == t[j + 1..|t|];
        Some(PartsValue(t[..i], t[i + 1..j], Some(t[j + 1..])))
  }

  /** Every match of the time pattern is text of the time shape, valued by its pieces. */
  lemma MatchClockSound(t: string)
    requires MatchClock(t).Some?
    ensures exists mins, whole, frac ::
              ValidParts(mins, whole, frac) && t == TimeText(mins, whole, frac)
              && MatchClock(t).value == PartsValue(mins, whole, frac)
  {
    var i := DigitRun(t, 0);
    var j := DigitRun(t, i + 1);
    assert t[..i] == t[0..i];
    if j == |t| {
      TimeTextOf(t, i, j, None);
    } else {
      assert t[j + 1..] == t[j + 1..|t|];
      TimeTextOf(t, i, j, Some(t[j + 1..]));
    }
  }

  /** Cutting `t` at its colon `i` and, when there is a fraction, at its point `j`
      gives back `t`. */
  lemma TimeTextOf(t: string, i: nat, j: nat, frac: Option<string>)
    requires i < j <= |t| && t[i] == ':'
    requires frac.None? ==> j == |t|
    requires frac.Some? ==> j < |t| && t[j] == '.' && frac.value == t[j + 1..]
    ensures TimeText(t[..i], t[i + 1..j], frac) == t
  {
    var r := TimeText(t[..i], t[i + 1..j], frac);
    assert |r| == |t|;
    forall k | 0 <= k < |t|
      ensures r[k] == t[k]
    {
      if k < i {
        assert r[k] == t[..i][k];
      } else if k == i {
      } else if k < j {
        assert r[k] == t[i + 1..j][k - i - 1];
      } else if k > j {
        assert r[k] == t[j + 1..][k - j - 1];
      }
    }
  }

  /** Every text of the time shape matches the time pattern, with the value of its pieces. */
  lemma MatchClockComplete(mins: string, whole: string, frac: Option<string>)
    requires ValidParts(mins, whole, frac)
    ensures MatchClock(TimeText(mins, whole, frac)) == Some(PartsValue(mins, whole, frac))
  {
    var t := TimeText(mins, whole, frac);
    TimeTextRuns(mins, whole, frac);
    MatchClockAt(t, |mins|, |mins| + 1 + |whole|);
  }

  /** The digit runs of the time text end at the colon, at the point and at the end. */
  lemma TimeTextRuns(mins: string, whole: string, frac: Option<string>)
    requires ValidParts(mins, whole, frac)
    ensures var t := TimeText(mins, whole, frac);
            var m, w := |mins|, |whole|;
            && m + 1 + w <= |t| && t[m] == ':' && (m + 1 + w == |t| <==> frac.None?)
            && DigitRun(t, 0) == m && DigitRun(t, m + 1) == m + 1 + w
            && t[..m] == mins && t[m + 1..m + 1 + w] == whole
            && (frac.Some? ==> t[m + 1 + w] == '.' && DigitRun(t, m + 2 + w) == |t| && t[m + 2 + w..] == frac.value)
  {
    var t := TimeText(mins, whole, frac);
    var m := |mins|;
    var w := |whole|;
    TimeTextPieces(mins, whole, frac);
    DigitRunUnique(t, 0, m);
    DigitRunUnique(t, m + 1, m + 1 + w);
    assert t[..m] == t[0..m];
    if frac.Some? {
      DigitRunUnique(t, m + 2 + w, |t|);
      assert t[m + 2 + w..] == t[m + 2 + w..|t|];
    }
  }

  /** The pattern's value once the digit runs of `t` are known. */
  lemma MatchClockAt(t: string, i: nat, j: nat)
    requires 0 < i && i + 1 < j <= |t| && t[i] == ':'
    requires DigitRun(t, 0) == i && DigitRun(t, i + 1) == j
    requires j < |t| ==> t[j] == '.' && DigitRun(t, j + 1) == |t|
    ensures AllDigits(t[..i]) && AllDigits(t[i + 1..j]) && (j < |t| ==> AllDigits(t[j + 1..]))
    ensures MatchClock(t) == Some(PartsValue(t[..i], t[i + 1..j], if j == |t| then None else Some(t[j + 1..])))
  {
    assert t[..i] == t[0..i];
    if j < |t| {
      assert t[j + 1..] == t[j + 1..|t|];
    }
  }

  /** Where the pieces sit in the time text. */
  lemma TimeTextPieces(mins: string, whole: string, frac: Option<string>)
    ensures var t := TimeText(mins, whole, frac);
            var m, w := |mins|, |whole|;
            && |t| == m + 1 + w + (if frac.Some? then 1 + |frac.value| else 0)
            && t[0..m] == mins && t[m] == ':' && t[m + 1..m + 1 + w] == whole
            && (frac.Some? ==> t[m + 1 + w] == '.' && t[m + 2 + w..|t|] == frac.value)
  {
    var t := TimeText(mins, whole, frac);
    var m, w := |mins|, |whole|;
    assert t[0..m] == mins;
    assert t[m + 1..m + 1 + w] == whole;
    if frac.Some? {
      assert t[m + 2 + w..|t|] == frac.value;
    }
  }

  /** Every time the parser returns comes from a trimmed cell of the time shape, and is its value. */
  lemma ParseTimeSound(s: string)
    requires ParseTime(s).Some?
    ensures exists mins, whole, frac ::
              ValidParts(mins, whole, frac) && Trim(s) == TimeText(mins, whole, frac)
              && ParseTime(s).value == PartsValue(mins, whole, frac)
  {
    MatchClockSound(Trim(s));
  }

  /** Every cell of the time shape, with any whitespace around it, parses to its value. */
  lemma ParseTimeComplete(s: string, mins: string, whole: string, frac: Option<string>)
    requires ValidParts(mins, whole, frac)
    requires Trim(s) == TimeText(mins, whole, frac)
    ensures ParseTime(s) == Some(PartsValue(mins, whole, frac))
  {
    var t := Trim(s);
    assert t[0] == mins[0];
    MatchClockComplete(mins, whole, frac);
  }

  /** The parser accepts exactly the texts that have the time shape once trimmed. */
  lemma ParseTimeAccepts(s: string)
    ensures ParseTime(s).Some? <==> IsTimeText(Trim(s))
  {
    if ParseTime(s).Some? {
      ParseTimeSound(s);
    }
    if IsTimeText(Trim(s)) {
      var mins, whole, frac :| ValidParts(mins, whole, frac) && Trim(s) == TimeText(mins, whole, frac);
      ParseTimeComplete(s, mins, whole, frac);
    }
  }

  /** Without a fraction the value is minutes times sixty plus the seconds figure. */
  lemma PartsValueWhole(a: string, b: string, minutes: nat, seconds: nat)
    requires ValidParts(a, b, None)
    requires Decimal(a) == minutes && Decimal(b) == seconds
    ensures PartsValue(a, b, None) == (60 * minutes + seconds) as real
  {
  }

  /** Digits on both sides of a colon make a trimmed cell. */
  lemma WholeTextTrimmed(a: string, b: string)
    requires |a| > 0 && AllDigits(a) && |b| > 0 && AllDigits(b)
    ensures Trim(a + ":" + b) == TimeText(a, b, None)
  {
    var s := a + ":" + b;
    assert s[0] == a[0] && s[|s| - 1] == b[|b| - 1];
    TrimOfTrimmed(s);
  }

  /** A cell holding just `mins:secs` in digits parses to minutes times sixty plus seconds. */
  lemma ParseTimeWhole(a: string, b: string, minutes: nat, seconds: nat)
    requires |a| > 0 && AllDigits(a) && |b| > 0 && AllDigits(b)
    requires Decimal(a) == minutes && Decimal(b) == seconds
    ensures ParseTime(a + ":" + b) == Some((60 * minutes + seconds) as real)
  {
    WholeTextTrimmed(a, b);
    ParseTimeComplete(a + ":" + b, a, b, None);
    PartsValueWhole(a, b, minutes, seconds);
  }

  /** Printing whole minutes and seconds and parsing the text gives the total back;
      seconds of 60 or more are accepted as they are. */
  lemma ParseTimeRoundTrip(minutes: nat, seconds: nat)
    ensures ParseTime(ShowNat(minutes) + ":" + ShowNat(seconds)) == Some((60 * minutes + seconds) as real)
  {
    DecimalShowNat(minutes);
    DecimalShowNat(seconds);
    ParseTimeWhole(ShowNat(minutes), ShowNat(seconds), minutes, seconds);
  }

  /** Whitespace-only cells carry no time. */
  lemma ParseTimeBlank(s: string)
    requires AllSpace(s)
    ensures ParseTime(s) == None
  {
    TrimAllSpace(s);
  }

  /** "12:00" is twelve minutes. */
  lemma ExampleTwelveMinutes()
    ensures ParseTime("12:00") == Some(720.0)
  {
    assert "12:00" == "12" + ":" + "00";
    assert Decimal("12") == 12 by { assert "12"[..1] == "1"; }
    assert Decimal("00") == 0 by { assert "00"[..1] == "0"; }
    ParseTimeWhole("12", "00", 12, 0);
  }

  /** Seconds are not bounded by sixty: "1:75" is 135 seconds. */
  lemma ExampleSecondsOverSixty()
    ensures ParseTime("1:75") == Some(135.0)
  {
    assert "1:75" == "1" + ":" + "75";
    assert Decimal("1") == 1 by { assert "1"[..0] == ""; }
    assert Decimal("75") == 75 by { assert "75"[..1] == "7"; }
    ParseTimeWhole("1", "75", 1, 75);
  }

  /** "5:23.4" is 323.4 seconds. */
  lemma ExampleWithFraction()
    ensures ParseTime("5:23.4") == Some(323.4)
  {
    FractionText();
    TrimOfTrimmed("5:23.4");
    FractionPartsValue();
    ParseTimeComplete("5:23.4", "5", "23", Some("4"));
  }

  lemma FractionText()
    ensures TimeText("5", "23", Some("4")) == "5:23.4"
  {
  }

  lemma FractionPartsValue()
    ensures ValidParts("5", "23", Some("4")) && PartsValue("5", "23", Some("4")) == 323.4
  {
    assert Decimal("5") == 5 by { assert "5"[..0] == ""; }
    assert Decimal("23") == 23 by { assert "23"[..1] == "2"; }
    assert FractionValue("4") == 0.4 by { assert "4"[1..] == ""; }
  }

  lemma TrimBarePointExample()
    ensures Trim(" 5:23. ") == "5:23."
  {
    assert " 5:23. " == " " + "5:23." + " ";
    TrimPadded(" ", "5:23.", " ");
  }

  lemma BarePointValue()
    ensures ValidParts("5", "23", Some("")) && PartsValue("5", "23", Some("")) == 323.0
  {
    assert Decimal("5") == 5 by { assert "5"[..0] == ""; }
    assert Decimal("23") == 23 by { assert "23"[..1] == "2"; }
  }

  /** A point with no digits after it is accepted, and surrounding blanks are ignored. */
  lemma ExampleWithBarePoint()
    ensures ParseTime(" 5:23. ") == Some(323.0)
  {
    TrimBarePointExample();
    BarePointText();
    BarePointValue();
    ParseTimeComplete(" 5:23. ", "5", "23", Some(""));
  }

  lemma BarePointText()
    ensures TimeText("5", "23", Some("")) == "5:23."
  {
  }

  /** The explicit no-time markers and the empty cell carry no time. */
  lemma ExampleMarkers()
    ensures ParseTime("DNS") == None
    ensures ParseTime("-") == None
    ensures ParseTime("") == None
  {
    TrimOfTrimmed("DNS");
    TrimOfTrimmed("-");
    TrimAllSpace("");
  }

  /** Texts of another shape carry no time: a second colon ... */
  lemma ExampleTwoColons()
    ensures ParseTime("1:2:3") == None
  {
    TrimOfTrimmed("1:2:3");
    DigitRunUnique("1:2:3", 0, 1);
    DigitRunUnique("1:2:3", 2, 3);
  }

  /** ... or no minutes before the colon. */
  lemma ExampleNoMinutes()
    ensures ParseTime(":30") == None
  {
    TrimOfTrimmed(":30");
    DigitRunUnique(":30", 0, 0);
  }
}
