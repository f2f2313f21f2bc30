/**
 * Reading a capture's file-name stem (nxshot.py `checkFolders`, lines
 * 136-160): fixed-offset slices for the capture date-time, the game id
 * after offset 17, and Python's `datetime` validity rules.
 */
module Capture {
  import opened Optional

  const MIN_YEAR := 1
  const MAX_YEAR := 9999

  datatype DateTime = DateTime(year: int, month: int, day: int, hour: int, minute: int, second: int)

  /** Gregorian leap years, as `datetime` uses them. */
  predicate IsLeapYear(y: int) {
    y % 4 == 0 && (y % 100 != 0 || y % 400 == 0)
  }

  function DaysInMonth(y: int, m: int): (n: int)
    requires 1 <= m <= 12
    ensures 28 <= n <= 31
    ensures n == 29 <==> m == 2 && IsLeapYear(y)
  {
    if m == 2 then (if IsLeapYear(y) then 29 else 28)
    else if m == 4 || m == 6 || m == 9 || m == 11 then 30
    else 31
  }

  /** The arguments `datetime(year, month, day, hour=, minute=, second=)` accepts. */
  predicate IsValidDateTime(t: DateTime) {
    && MIN_YEAR <= t.year <= MAX_YEAR
    && 1 <= t.month <= 12
    && 1 <= t.day <= DaysInMonth(t.year, t.month)
    && 0 <= t.hour < 24
    && 0 <= t.minute < 60
    && 0 <= t.second < 60
  }

  predicate IsDigit(c: char) {
    '0' <= c <= '9'
  }

  predicate AllDigits(s: string) {
    forall i :: 0 <= i < |s| ==> IsDigit(s[i])
  }

  function Pow10(n: nat): (p: nat)
    ensures p >= 1
  {
    if n == 0 then 1 else 10 * Pow10(n - 1)
  }

  /** The number a string of decimal digits denotes. */
  function Value(s: string): (v: nat)
    requires AllDigits(s)
    ensures v < Pow10(|s|)
    decreases |s|
  {
    if s == [] then 0
    else
      var d := s[|s| - 1] as int - '0' as int;
      Value(s[..|s| - 1]) * 10 + d
  }

  /** `n` written with exactly `w` decimal digits, zero-padded on the left. */
  function Pad(n: nat, w: nat): (s: string)
    requires n < Pow10(w)
    ensures |s| == w && AllDigits(s) && Value(s) == n
  {
    if w == 0 then ""
    else
      var q := n / 10;
      assert q < Pow10(w - 1) by {
        DropLastDigit(n, w);
      }
      var c := ('0' as int + n % 10) as char;
      ValueSnoc(Pad(q, w - 1), c);
      Pad(q, w - 1) + [c]
  }

  lemma DropLastDigit(n: nat, w: nat)
    requires 0 < w && n < Pow10(w)
    ensures n / 10 < Pow10(w - 1)
  {
  }

  /** One more digit at the end multiplies the value by ten and adds the digit. */
  lemma ValueSnoc(p: string, c: char)
    requires AllDigits(p) && IsDigit(c)
    ensures AllDigits(p + [c]) && Value(p + [c]) == Value(p) * 10 + (c as int - '0' as int)
  {
    assert (p + [c])[..|p|] == p;
  }

  /** Padding the value of a digit string gives the string back. */
  lemma {:induction false} PadValue(s: string)
    requires AllDigits(s)
    ensures Pad(Value(s), |s|) == s
    decreases |s|
  {
    if s != [] {
      var w := |s|;
      var p := s[..w - 1];
      PadValue(p);
      var d := s[w - 1] as int - '0' as int;
      assert Value(s) == Value(p) * 10 + d;
      assert Value(s) / 10 == Value(p) && Value(s) % 10 == d;
      assert s == p + [s[w - 1]];
    }
  }

  /**
   * `int(s)` restricted to plain decimal digits: an empty string or one with
   * any other character is refused (Python raises `ValueError`).
   */
  function ParseInt(s: string): (r: Option<nat>)
    ensures r.Some? <==> s != [] && AllDigits(s)
    ensures r.Some? ==> r.value < Pow10(|s|)
  {
    if s != [] && AllDigits(s) then Some(Value(s)) else None
  }

  /** Parsing and zero-padding to the same width are inverse. */
  lemma ParseIntPad(s: string, n: nat)
    ensures ParseInt(s) == Some(n) <==> s != [] && n < Pow10(|s|) && Pad(n, |s|) == s
  {
    if s != [] && AllDigits(s) {
      PadValue(s);
    }
  }

  /** Python's `s[i:j]` for `0 <= i <= j`: both bounds are clipped to the length. */
  function Slice(s: string, i: nat, j: nat): (r: string)
    requires i <= j
    ensures |s| >= j ==> r == s[i..j]
    ensures i <= |s| < j ==> r == s[i..]
    ensures |s| < i ==> r == ""
  {
    var lo := if i < |s| then i else |s|;
    var hi := if j < |s| then j else |s|;
    s[lo..hi]
  }

  /** Python's `s[i:]`: empty once `i` is past the end. */
  function From(s: string, i: nat): (r: string)
    ensures |s| >= i ==> r == s[i..]
    ensures |s| < i ==> r == ""
  {
    if i <= |s| then s[i..] else ""
  }

  /** What a file name tells: when it was captured and by which game. */
  datatype Capture = Capture(time: DateTime, gameId: string)

  datatype Classification = Parsed(capture: Capture) | Skip

  /** Fields that fit the 4- and 2-digit slots of a stem. */
  predicate FitsDigits(t: DateTime) {
    && 0 <= t.year < 10000
    && 0 <= t.month < 100 && 0 <= t.day < 100
    && 0 <= t.hour < 100 && 0 <= t.minute < 100 && 0 <= t.second < 100
  }

  /** The 14-character `YYYYMMDDhhmmss` form of a date-time. */
  function FormatTime(t: DateTime): (s: string)
    requires FitsDigits(t)
    ensures |s| == 14 && AllDigits(s)
  {
    Pad(t.year, 4) + Pad(t.month, 2) + Pad(t.day, 2)
      + Pad(t.hour, 2) + Pad(t.minute, 2) + Pad(t.second, 2)
  }

  /**
   * The six numeric fields of a stem: year = stem[0:4], month = [4:6],
   * day = [6:8], hour = [8:10], minute = [10:12], second = [12:14]; none
   * when any of them is not a number.
   */
  function ReadFields(stem: string): (r: Option<DateTime>)
    ensures r.Some? <==>
      && ParseInt(Slice(stem, 0, 4)).Some? && ParseInt(Slice(stem, 4, 6)).Some?
      && ParseInt(Slice(stem, 6, 8)).Some? && ParseInt(Slice(stem, 8, 10)).Some?
      && ParseInt(Slice(stem, 10, 12)).Some? && ParseInt(Slice(stem, 12, 14)).Some?
    ensures r.Some? ==>
      && ParseInt(Slice(stem, 0, 4)) == Some(r.value.year) && ParseInt(Slice(stem, 4, 6)) == Some(r.value.month)
      && ParseInt(Slice(stem, 6, 8)) == Some(r.value.day) && ParseInt(Slice(stem, 8, 10)) == Some(r.value.hour)
      && ParseInt(Slice(stem, 10, 12)) == Some(r.value.minute) && ParseInt(Slice(stem, 12, 14)) == Some(r.value.second)
    ensures r.Some? ==> |stem| >= 13 && FitsDigits(r.value)
  {
    var year := ParseInt(Slice(stem, 0, 4));
    var month := ParseInt(Slice(stem, 4, 6));
    var day := ParseInt(Slice(stem, 6, 8));
    var hour := ParseInt(Slice(stem, 8, 10));
    var minute := ParseInt(Slice(stem, 10, 12));
    var second := ParseInt(Slice(stem, 12, 14));
    if year.None? || month.None? || day.None? || hour.None? || minute.None? || second.None? then None
    else Some(DateTime(year.value, month.value, day.value, hour.value, minute.value, second.value))
  }

  /**
   * Classify a stem as `checkFolders` does: the date-time read from its
   * first 14 characters and the game id = stem[17:]; a field that is not a
   * number or any out-of-range value skips the file.
   */
  function Classify(stem: string): (r: Classification)
    ensures r.Parsed? ==> IsValidDateTime(r.capture.time)
    ensures r.Parsed? ==> r.capture.gameId == From(stem, 17)
    ensures r.Parsed? ==> |stem| >= 13
  {
    match ReadFields(stem)
    case None => Skip
    case Some(t) => if IsValidDateTime(t) then Parsed(Capture(t, From(stem, 17))) else Skip
  }

  /** The date-time fields an accepted stem was read from. */
  lemma ClassifiedFields(stem: string)
    requires Classify(stem).Parsed? && |stem| >= 14
    ensures var t := Classify(stem).capture.time;
      && ParseInt(stem[0..4]) == Some(t.year) && ParseInt(stem[4..6]) == Some(t.month)
      && ParseInt(stem[6..8]) == Some(t.day) && ParseInt(stem[8..10]) == Some(t.hour)
      && ParseInt(stem[10..12]) == Some(t.minute) && ParseInt(stem[12..14]) == Some(t.second)
  {
  }

  /** Six pieces of a 14-character string, concatenated, give it back. */
  lemma SplitFourteen(s: string)
    requires |s| == 14
    ensures s == s[0..4] + s[4..6] + s[6..8] + s[8..10] + s[10..12] + s[12..14]
  {
  }

  /** An accepted stem of 14 or more characters starts with the 14-digit form of its date-time. */
  lemma ClassifiedStemSpellsTime(stem: string)
    requires Classify(stem).Parsed? && |stem| >= 14
    ensures stem[..14] == FormatTime(Classify(stem).capture.time)
  {
    var t := Classify(stem).capture.time;
    ClassifiedFields(stem);
    var p := stem[..14];
    assert p[0..4] == stem[0..4] && p[4..6] == stem[4..6] && p[6..8] == stem[6..8];
    assert p[8..10] == stem[8..10] && p[10..12] == stem[10..12] && p[12..14] == stem[12..14];
    ParseIntPad(p[0..4], t.year);
    ParseIntPad(p[4..6], t.month);
    ParseIntPad(p[6..8], t.day);
    ParseIntPad(p[8..10], t.hour);
    ParseIntPad(p[10..12], t.minute);
    ParseIntPad(p[12..14], t.second);
    SplitFourteen(p);
  }

  /**
   * A stem that starts with 14 digits is accepted exactly when they spell a
   * valid date-time, and then with that date-time and the text after the
   * three separator characters as game id. Together with Classify's
   * contract: a stem of 14 or more characters is accepted exactly when its
   * first 14 characters are a valid `YYYYMMDDhhmmss`.
   */
  lemma ClassifyFormatted(t: DateTime, rest: string)
    requires FitsDigits(t)
    ensures Classify(FormatTime(t) + rest)
         == if IsValidDateTime(t) then Parsed(Capture(t, From(rest, 3))) else Skip
  {
    var stem := FormatTime(t) + rest;
    assert Slice(stem, 0, 4) == Pad(t.year, 4);
    assert Slice(stem, 4, 6) == Pad(t.month, 2);
    assert Slice(stem, 6, 8) == Pad(t.day, 2);
    assert Slice(stem, 8, 10) == Pad(t.hour, 2);
    assert Slice(stem, 10, 12) == Pad(t.minute, 2);
    assert Slice(stem, 12, 14) == Pad(t.second, 2);
    if |rest| >= 3 {
      assert From(stem, 17) == rest[3..];
    }
  }

  /**
   * Python's clipped slicing lets a 13-character stem through: its last
   * digit is read as the second and the game id is empty.
   */
  lemma ThirteenCharacterStem(t: DateTime, d: int)
    requires IsValidDateTime(t) && 0 <= d < 10
    ensures Classify(FormatTime(t)[..12] + [('0' as int + d) as char])
         == Parsed(Capture(t.(second := d), ""))
  {
    var stem := FormatTime(t)[..12] + [('0' as int + d) as char];
    assert Slice(stem, 0, 4) == Pad(t.year, 4);
    assert Slice(stem, 4, 6) == Pad(t.month, 2);
    assert Slice(stem, 6, 8) == Pad(t.day, 2);
    assert Slice(stem, 8, 10) == Pad(t.hour, 2);
    assert Slice(stem, 10, 12) == Pad(t.minute, 2);
    assert Slice(stem, 12, 14) == Pad(d, 1);
  }

  /** A stem shorter than 13 characters leaves the seconds slice empty. */
  lemma ShortStemSkipped(stem: string)
    requires |stem| < 13
    ensures Classify(stem) == Skip
  {
    assert Slice(stem, 12, 14) == "";
  }

  /** A non-digit anywhere in the first 14 characters skips the stem. */
  lemma {:induction false} NonDigitSkipped(stem: string, i: nat)
    requires i < 14 && i < |stem| && !IsDigit(stem[i])
    ensures Classify(stem) == Skip
  {
    if i < 4 {
      assert Slice(stem, 0, 4)[i] == stem[i];
    } else if i < 6 {
      assert Slice(stem, 4, 6)[i - 4] == stem[i];
    } else if i < 8 {
      assert Slice(stem, 6, 8)[i - 6] == stem[i];
    } else if i < 10 {
      assert Slice(stem, 8, 10)[i - 8] == stem[i];
    } else if i < 12 {
      assert Slice(stem, 10, 12)[i - 10] == stem[i];
    } else {
      assert Slice(stem, 12, 14)[i - 12] == stem[i];
    }
  }

  /** Month 13 is skipped, whatever the other fields. */
  lemma MonthThirteenSkipped(t: DateTime, rest: string)
    requires FitsDigits(t) && t.month == 13
    ensures Classify(FormatTime(t) + rest) == Skip
  {
    ClassifyFormatted(t, rest);
  }

  /** 30 February is skipped in every year, leap years included. */
  lemma ThirtiethOfFebruarySkipped(t: DateTime, rest: string)
    requires FitsDigits(t) && t.month == 2 && t.day == 30
    ensures Classify(FormatTime(t) + rest) == Skip
  {
    ClassifyFormatted(t, rest);
  }

  /** 29 February 1900 is skipped: 1900 is not a leap year. */
  lemma CenturyNotLeapSkipped(rest: string)
    ensures Classify(FormatTime(DateTime(1900, 2, 29, 10, 15, 30)) + rest) == Skip
  {
    assert !IsLeapYear(1900) && DaysInMonth(1900, 2) == 28;
    ClassifyFormatted(DateTime(1900, 2, 29, 10, 15, 30), rest);
  }

  /** 29 February 2000 is accepted: 2000 is a leap year. */
  lemma FourHundredLeapAccepted(rest: string)
    ensures Classify(FormatTime(DateTime(2000, 2, 29, 10, 15, 30)) + rest).Parsed?
  {
    var t := DateTime(2000, 2, 29, 10, 15, 30);
    assert IsLeapYear(2000) && DaysInMonth(2000, 2) == 29;
    assert IsValidDateTime(t) && FitsDigits(t);
    ClassifyFormatted(t, rest);
  }

  /** Year 0 is skipped, whatever the other fields: `datetime` starts at year 1. */
  lemma YearZeroSkipped(t: DateTime, rest: string)
    requires FitsDigits(t) && t.year == 0
    ensures Classify(FormatTime(t) + rest) == Skip
  {
    ClassifyFormatted(t, rest);
  }

  /**
   * The console names a capture `YYYYMMDDhhmmss` + two more digits + `-` +
   * the game's id: such a name is read as that date-time and that id.
   */
  lemma ConsoleName(t: DateTime, cc: string, id: string)
    requires IsValidDateTime(t) && |cc| == 2
    ensures Classify(FormatTime(t) + cc + "-" + id) == Parsed(Capture(t, id))
  {
    var rest := cc + "-" + id;
    assert FormatTime(t) + cc + "-" + id == FormatTime(t) + rest;
    assert From(rest, 3) == id;
    ClassifyFormatted(t, rest);
  }

  /**
   * With three digits between the date-time and the `-`, the game id read
   * at offset 17 keeps the `-` in front of the id.
   */
  lemma SeventeenDigitName(t: DateTime, ccc: string, id: string)
    requires IsValidDateTime(t) && |ccc| == 3
    ensures Classify(FormatTime(t) + ccc + "-" + id) == Parsed(Capture(t, "-" + id))
  {
    var rest := ccc + "-" + id;
    Regroup(FormatTime(t), ccc, "-", id);
    assert From(rest, 3) == "-" + id;
    ClassifyFormatted(t, rest);
  }

  lemma Regroup(a: string, b: string, c: string, d: string)
    ensures a + b + c + d == a + (b + c + d)
  {
  }
}
