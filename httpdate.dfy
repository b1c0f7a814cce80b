/**
 * HTTP dates for the Expires header.
 *
 * The Go service renders IMF-fixdate (section 5.6.7 of RFC 9110, the fixed-length
 * subset of the RFC 1123 date): "Sun, 06 Nov 1994 08:49:37 GMT".  The Java service
 * uses java.time's RFC_1123_DATE_TIME formatter, whose day of month is not padded.
 */
module HttpDate {
  import opened Wrappers
  import opened Civil
  import opened Decimal

  const DayNames: seq<string> := ["Sun", "Mon", "Tue", "Wed", "Thu", "Fri", "Sat"]
  const MonthNames: seq<string> :=
    ["Jan", "Feb", "Mar", "Apr", "May", "Jun", "Jul", "Aug", "Sep", "Oct", "Nov", "Dec"]

  /** The IMF-fixdate layout, from its seven fields. */
  function ImfFixdate(wd: string, dd: string, mon: string, yyyy: string,
                      hh: string, mm: string, ss: string): string
  {
    wd + ", " + dd + " " + mon + " " + yyyy + " " + hh + ":" + mm + ":" + ss + " GMT"
  }

  /** Go's t.UTC().Format("Mon, 02 Jan 2006 15:04:05 GMT"). */
  function FormatGmt(t: int): string {
    var d := UtcDate(t);
    var sod := SecondOfDay(t);
    ImfFixdate(DayNames[Weekday(t / SecondsPerDay)], ZeroPad(d.day, 2), MonthNames[d.month - 1],
               FormatInt(d.year, 4), ZeroPad(sod / 3600, 2), ZeroPad(sod / 60 % 60, 2),
               ZeroPad(sod % 60, 2))
  }

  lemma ImfFixdateFields(wd: string, dd: string, mon: string, yyyy: string,
                         hh: string, mm: string, ss: string)
    requires |wd| == 3 && |dd| == 2 && |mon| == 3 && |yyyy| == 4
    requires |hh| == 2 && |mm| == 2 && |ss| == 2
    ensures var s := ImfFixdate(wd, dd, mon, yyyy, hh, mm, ss);
      && |s| == 29 && s[..3] == wd && s[3..5] == ", " && s[5..7] == dd && s[7] == ' '
      && s[8..11] == mon && s[11] == ' ' && s[12..16] == yyyy && s[16] == ' '
      && s[17..19] == hh && s[19] == ':' && s[20..22] == mm && s[22] == ':'
      && s[23..25] == ss && s[25..] == " GMT"
  {
  }

  /** A one-character day: the same layout as with the day padded by '0', less that sixth character. */
  lemma ImfFixdateUnpadded(wd: string, c: char, mon: string, yyyy: string,
                           hh: string, mm: string, ss: string)
    requires |wd| == 3
    ensures var padded := ImfFixdate(wd, ['0', c], mon, yyyy, hh, mm, ss);
      ImfFixdate(wd, [c], mon, yyyy, hh, mm, ss) == padded[..5] + padded[6..]
  {
    var head, tail := wd + ", ", " " + mon + " " + yyyy + " " + hh + ":" + mm + ":" + ss + " GMT";
    var padded := ImfFixdate(wd, ['0', c], mon, yyyy, hh, mm, ss);
    assert padded == head + (['0', c] + tail);
    assert ImfFixdate(wd, [c], mon, yyyy, hh, mm, ss) == head + ([c] + tail);
    assert padded[..5] == head && padded[6..] == [c] + tail;
  }

  /** FormatGmt in terms of the instant's UTC date and clock fields. */
  lemma FormatGmtAt(t: int, d: Date, h: nat, m: nat, s: nat)
    requires UtcDate(t) == d && SecondOfDay(t) == 3600 * h + 60 * m + s && m < 60 && s < 60
    ensures FormatGmt(t)
            == ImfFixdate(DayNames[Weekday(t / SecondsPerDay)], ZeroPad(d.day, 2), MonthNames[d.month - 1],
                          FormatInt(d.year, 4), ZeroPad(h, 2), ZeroPad(m, 2), ZeroPad(s, 2))
  {
    var sod := SecondOfDay(t);
    assert sod == 60 * (60 * h + m) + s;
    assert sod / 60 == 60 * h + m;
    assert sod / 60 % 60 == m;
    assert sod / 3600 == h;
    assert sod % 60 == s;
  }

  function IndexOfName(names: seq<string>, name: string): (r: Option<nat>)
    ensures r.Some? ==> r.value < |names| && names[r.value] == name
    ensures r.None? ==> name !in names
  {
    if names == [] then None
    else if names[0] == name then Some(0)
    else match IndexOfName(names[1..], name)
      case None => None
      case Some(i) => Some(i + 1)
  }

  /** Reads an IMF-fixdate back into an instant; None unless every field is well formed and the weekday matches. */
  function ParseGmt(s: string): Option<int> {
    if |s| != 29 || s[3..5] != ", " || s[7] != ' ' || s[11] != ' ' || s[16] != ' '
       || s[19] != ':' || s[22] != ':' || s[25..] != " GMT" then None
    else ParseImfFields(s[..3], s[5..7], s[8..11], s[12..16], s[17..19], s[20..22], s[23..25])
  }

  function ParseImfFields(wd: string, dd: string, mon: string, yyyy: string,
                          hh: string, mm: string, ss: string): Option<int>
  {
    var day, mi, year := ParseNat(dd), IndexOfName(MonthNames, mon), ParseNat(yyyy);
    var h, m, sec := ParseNat(hh), ParseNat(mm), ParseNat(ss);
    if day.None? || mi.None? || year.None? || h.None? || m.None? || sec.None? then None
    else
      var d := Date(year.value, mi.value + 1, day.value);
      if ValidDate(d) && h.value < 24 && m.value < 60 && sec.value < 60
         && wd == DayNames[Weekday(DaysFromCivil(d))]
      then Some(InstantAt(d, h.value, m.value, sec.value))
      else None
  }

  lemma {:induction false} IndexOfDistinct(names: seq<string>, i: nat)
    requires i < |names|
    requires forall j, k :: 0 <= j < k < |names| ==> names[j] != names[k]
    ensures IndexOfName(names, names[i]) == Some(i)
  {
    if i > 0 {
      assert names[0] != names[i];
      assert names[1..][i - 1] == names[i];
      IndexOfDistinct(names[1..], i - 1);
    }
  }

  /** ParseGmt reads each field of a well-formed IMF-fixdate. */
  lemma ParseImfFixdate(d: Date, h: nat, m: nat, sec: nat, dd: string, yyyy: string,
                        hh: string, mm: string, ss: string)
    requires ValidDate(d) && 0 <= d.year && h < 24 && m < 60 && sec < 60
    requires |dd| == 2 && |yyyy| == 4 && |hh| == 2 && |mm| == 2 && |ss| == 2
    requires ParseNat(dd) == Some(d.day) && ParseNat(yyyy) == Some(d.year)
    requires ParseNat(hh) == Some(h) && ParseNat(mm) == Some(m) && ParseNat(ss) == Some(sec)
    ensures ParseGmt(ImfFixdate(DayNames[Weekday(DaysFromCivil(d))], dd, MonthNames[d.month - 1],
                                yyyy, hh, mm, ss)) == Some(InstantAt(d, h, m, sec))
  {
    var wd, mon := DayNames[Weekday(DaysFromCivil(d))], MonthNames[d.month - 1];
    ImfFixdateFields(wd, dd, mon, yyyy, hh, mm, ss);
    IndexOfDistinct(MonthNames, d.month - 1);
    assert Date(d.year, d.month - 1 + 1, d.day) == d;
    assert ParseImfFields(wd, dd, mon, yyyy, hh, mm, ss) == Some(InstantAt(d, h, m, sec));
  }

  /** Every instant in years 0000..9999 renders to 29 characters that parse back to the same instant. */
  lemma FormatGmtRoundTrip(t: int)
    requires 0 <= UtcDate(t).year <= 9999
    ensures |FormatGmt(t)| == 29
    ensures ParseGmt(FormatGmt(t)) == Some(t)
  {
    var d := UtcDate(t);
    var sod := SecondOfDay(t);
    var h, m, sec := sod / 3600, sod / 60 % 60, sod % 60;
    ClockFields(sod);
    assert FormatGmt(t)
           == ImfFixdate(DayNames[Weekday(DaysFromCivil(d))], ZeroPad(d.day, 2), MonthNames[d.month - 1],
                         ZeroPad(d.year, 4), ZeroPad(h, 2), ZeroPad(m, 2), ZeroPad(sec, 2)) by {
      InstantDecomposes(t);
      FormatGmtAt(t, d, h, m, sec);
    }
    assert InstantAt(d, h, m, sec) == t by {
      InstantDecomposes(t);
    }
    FieldsRoundTrip(d, h, m, sec);
  }

  /** A second of the day splits into hours, minutes and seconds. */
  lemma ClockFields(sod: int)
    requires 0 <= sod < SecondsPerDay
    ensures sod / 3600 < 24 && sod / 60 % 60 < 60 && sod % 60 < 60
    ensures sod == 3600 * (sod / 3600) + 60 * (sod / 60 % 60) + sod % 60
  {
  }

  /** The IMF-fixdate of a date and clock reading parses back to that instant. */
  lemma FieldsRoundTrip(d: Date, h: nat, m: nat, sec: nat)
    requires ValidDate(d) && 0 <= d.year <= 9999 && h < 24 && m < 60 && sec < 60
    ensures var s := ImfFixdate(DayNames[Weekday(DaysFromCivil(d))], ZeroPad(d.day, 2), MonthNames[d.month - 1],
                                ZeroPad(d.year, 4), ZeroPad(h, 2), ZeroPad(m, 2), ZeroPad(sec, 2));
      |s| == 29 && ParseGmt(s) == Some(InstantAt(d, h, m, sec))
  {
    assert Pow10(4) == 10000 && Pow10(2) == 100;
    var wd := DayNames[Weekday(DaysFromCivil(d))];
    var dd, yyyy := ZeroPad(d.day, 2), ZeroPad(d.year, 4);
    var hh, mm, ss := ZeroPad(h, 2), ZeroPad(m, 2), ZeroPad(sec, 2);
    ZeroPadRoundTrip(d.day, 2);
    ZeroPadRoundTrip(d.year, 4);
    ZeroPadRoundTrip(h, 2);
    ZeroPadRoundTrip(m, 2);
    ZeroPadRoundTrip(sec, 2);
    ImfFixdateFields(wd, dd, MonthNames[d.month - 1], yyyy, hh, mm, ss);
    ParseImfFixdate(d, h, m, sec, dd, yyyy, hh, mm, ss);
  }

  /** The weekday and month names stand where IMF-fixdate puts them. */
  lemma FormatGmtNames(t: int)
    requires 0 <= UtcDate(t).year <= 9999
    ensures FormatGmt(t)[..3] == DayNames[Weekday(t / SecondsPerDay)]
    ensures FormatGmt(t)[8..11] == MonthNames[UtcDate(t).month - 1]
  {
    var d := UtcDate(t);
    var sod := SecondOfDay(t);
    var h, m, sec := sod / 3600, sod / 60 % 60, sod % 60;
    ZeroPadRoundTrip(d.day, 2);
    ZeroPadRoundTrip(d.year, 4);
    ZeroPadRoundTrip(h, 2);
    ZeroPadRoundTrip(m, 2);
    ZeroPadRoundTrip(sec, 2);
    ImfFixdateFields(DayNames[Weekday(t / SecondsPerDay)], ZeroPad(d.day, 2), MonthNames[d.month - 1],
                     FormatInt(d.year, 4), ZeroPad(h, 2), ZeroPad(m, 2), ZeroPad(sec, 2));
  }

  /**
   * java.time's RFC_1123_DATE_TIME for an instant at offset zero: "EEE, d MMM yyyy HH:mm:ss GMT".
   * The year is printed in exactly four digits; outside 0000..9999 the formatter throws.
   */
  function JavaFormatRfc1123(d: Date, h: int, m: int, sec: int): (r: Option<string>)
    requires ValidDate(d) && 0 <= h < 24 && 0 <= m < 60 && 0 <= sec < 60
    ensures r.Some? <==> 0 <= d.year <= 9999
  {
    if d.year < 0 || d.year > 9999 then None
    else Some(ImfFixdate(DayNames[Weekday(DaysFromCivil(d))], NatToString(d.day), MonthNames[d.month - 1],
                         ZeroPad(d.year, 4), ZeroPad(h, 2), ZeroPad(m, 2), ZeroPad(sec, 2)))
  }
}
