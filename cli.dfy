/** The parsing helpers of the 3GPP archive fetcher: the series of a spec
    number, the release a file's version suffix encodes, the FTP server's
    listing timestamps and the calendar-quarter window. */
module Cli {
  import opened JsText
  import opened NodePath

  /** The argument that switches the release or the quarter filter off. */
  const WildCard: string := "*"

  /** The errors the tool reports and stops on. */
  datatype Error =
    | MalformedSpec      // the spec number has no `.`
    | MalformedFileName  // a listed file name has no `-`
    | NotFound           // no listed file survives the filters

  datatype Result<+T> = Ok(value: T) | Err(error: Error)

  // ---------------------------------------------------------------- series

  /** `getSeries(spec)`: the spec number up to its first `.`, which names the
      archive's `<series>_series` directory. */
  function GetSeries(spec: string): (r: Result<string>)
    ensures r.Err? <==> '.' !in spec
    ensures r.Err? ==> r.error == MalformedSpec
    ensures r.Ok? ==>
      && |r.value| < |spec|
      && spec[..|r.value|] == r.value
      && spec[|r.value|] == '.'
      && '.' !in r.value
  {
    var dot := IndexOf(spec, '.');
    if dot == -1 then Err(MalformedSpec) else Ok(spec[..dot])
  }

  /** The series of `<series>.<rest>` is `<series>` when it holds no dot. */
  lemma SeriesOfSpec(series: string, rest: string)
    requires '.' !in series
    ensures GetSeries(series + "." + rest) == Ok(series)
  {
    var spec := series + "." + rest;
    assert spec[..|series|] == series;
    IndexOfIsFirst(spec, '.', |series|);
  }

  /** The remote directory `/Specs/archive/<series>_series/<spec>` listed for a spec. */
  function ArchivePath(spec: string): (r: Result<string>)
    ensures r.Err? <==> '.' !in spec
    ensures r.Err? ==> r.error == MalformedSpec
  {
    match GetSeries(spec)
    case Err(e) => Err(e)
    case Ok(series) => Ok("/Specs/archive/" + series + "_series/" + spec)
  }

  /** The directory of `<series>.<rest>` is under `<series>_series`. */
  lemma ArchivePathOfSpec(series: string, rest: string)
    requires '.' !in series
    ensures ArchivePath(series + "." + rest)
      == Ok("/Specs/archive/" + series + "_series/" + series + "." + rest)
  {
    SeriesOfSpec(series, rest);
    assert "/Specs/archive/" + series + "_series/" + (series + "." + rest)
      == "/Specs/archive/" + series + "_series/" + series + "." + rest;
  }

  // --------------------------------------------------------------- release

  /** The version letters in release order: `1` is release 1, `z` release 35. */
  const Alphabet: string := "123456789abcdefghijklmnopqrstuvwxyz"

  /** `getRelease(version)`, with `None` standing for both `undefined` (a
      letter outside the alphabet) and NaN (a six-character version whose
      first two characters are not digits). */
  function GetRelease(version: string): (r: Option<nat>)
    ensures |version| == 6 ==>
      && (r.Some? <==> IsDigit(version[0]) && IsDigit(version[1]))
      && (r.Some? ==> r.value == 10 * DigitValue(version[0]) + DigitValue(version[1]))
    ensures |version| != 6 ==>
      && (r.Some? <==> version != [] && version[0] in Alphabet)
      && (r.Some? ==> 1 <= r.value <= |Alphabet| && Alphabet[r.value - 1] == version[0])
  {
    if |version| == 6 then
      var major := version[..2];
      assert major[0] == version[0] && major[1] == version[1];
      MajorRelease(major)
    else FirstLetterRelease(version)
  }

  /** `map[version[0]]`: the release of a version's first character, or
      `undefined` for an empty version or a character outside the alphabet. */
  function FirstLetterRelease(version: string): (r: Option<nat>)
    ensures
      && (r.Some? <==> version != [] && version[0] in Alphabet)
      && (r.Some? ==> 1 <= r.value <= |Alphabet| && Alphabet[r.value - 1] == version[0])
  {
    if version == [] then None else AlphabetRelease(version[0])
  }

  /** `Number(major)` of the two leading characters: NaN as soon as one of
      the two is not a digit. */
  function MajorRelease(major: string): (r: Option<nat>)
    requires |major| == 2
    ensures r.Some? <==> IsDigit(major[0]) && IsDigit(major[1])
    ensures r.Some? ==> r.value == 10 * DigitValue(major[0]) + DigitValue(major[1])
  {
    assert AllDigits(major) <==> IsDigit(major[0]) && IsDigit(major[1]);
    if AllDigits(major) then TwoDigitValue(major); Number(major) else None
  }

  /** One plus the position of `ch` in the alphabet, or `undefined`. */
  function AlphabetRelease(ch: char): (r: Option<nat>)
    ensures r.Some? <==> ch in Alphabet
    ensures r.Some? ==> 1 <= r.value <= |Alphabet| && Alphabet[r.value - 1] == ch
  {
    var i := IndexOf(Alphabet, ch);
    assert |Alphabet| == 35;
    if i == -1 then None else Some(i + 1)
  }

  /** The release a version letter stands for, by character arithmetic:
      `1`..`9` are releases 1 to 9 and `a`..`z` releases 10 to 35. */
  function LetterRelease(ch: char): Option<nat> {
    if '1' <= ch <= '9' then Some(ch as int - '0' as int)
    else if 'a' <= ch <= 'z' then Some(ch as int - 'a' as int + 10)
    else None
  }

  /** Position `k` of the alphabet by character arithmetic. */
  function AlphabetChar(k: nat): char
    requires k < 35
  {
    if k < 9 then ('1' as int + k) as char else ('a' as int + (k - 9)) as char
  }

  /** The alphabet spells out the digits and then the lower-case letters. */
  lemma AlphabetSpelling()
    ensures |Alphabet| == 35
    ensures forall k :: 0 <= k < |Alphabet| ==> Alphabet[k] == AlphabetChar(k)
  {
  }

  /** A letter of the alphabet is found at its own position. */
  lemma AlphabetIndexOf(ch: char, k: nat)
    requires k < 35 && ch == AlphabetChar(k)
    ensures IndexOf(Alphabet, ch) == k
  {
    AlphabetSpelling();
    assert forall j :: 0 <= j < k ==> Alphabet[..k][j] != ch;
    IndexOfIsFirst(Alphabet, ch, k);
  }

  /** A character without a release by arithmetic is not in the alphabet. */
  lemma NotInAlphabet(ch: char)
    requires LetterRelease(ch).None?
    ensures ch !in Alphabet
  {
    AlphabetSpelling();
  }

  /** Looking a letter up in the alphabet agrees with character arithmetic. */
  lemma ReleaseOfLetter(version: string)
    requires |version| != 6 && version != []
    ensures GetRelease(version) == LetterRelease(version[0])
  {
    var ch := version[0];
    var l := LetterRelease(ch);
    if l.Some? {
      AlphabetIndexOf(ch, l.value - 1);
    } else {
      NotInAlphabet(ch);
    }
  }

  /** What follows the last `-` of an extension-less name. */
  function AfterLastHyphen(name: string): (r: Result<string>)
    ensures r.Err? <==> '-' !in name
    ensures r.Err? ==> r.error == MalformedFileName
    ensures r.Ok? ==>
      && |r.value| < |name|
      && name[|name| - |r.value| - 1] == '-'
      && name[|name| - |r.value|..] == r.value
      && '-' !in r.value
  {
    var hyphen := LastIndexOf(name, '-');
    if hyphen == -1 then Err(MalformedFileName) else Ok(name[hyphen + 1..])
  }

  /** The version suffix of a listed file: what follows the last `-` of its
      name once the extension is removed. */
  function VersionOf(fileName: string): (r: Result<string>)
    ensures r.Err? <==> '-' !in ParsedName(fileName)
    ensures r.Err? ==> r.error == MalformedFileName
    ensures r.Ok? ==>
      var name := ParsedName(fileName);
      && |r.value| < |name|
      && name[|name| - |r.value| - 1] == '-'
      && name[|name| - |r.value|..] == r.value
      && '-' !in r.value
  {
    AfterLastHyphen(ParsedName(fileName))
  }

  /** An archive file `<stem>-<version>.<ext>` has version `<version>`. */
  lemma VersionOfArchiveFile(stem: string, version: string, ext: string)
    requires '-' !in version && '.' !in version && '.' !in ext
    ensures VersionOf(stem + "-" + version + "." + ext) == Ok(version)
  {
    var name := stem + "-" + version;
    assert (name + "." + ext)[|stem|] == '-';
    ParsedNameDropsExtension(name, ext);
    assert name[|stem| + 1..] == version;
    LastIndexOfIsLast(name, '-', |stem|);
  }

  /** The archive name `38331-f40.zip` has version `f40`. */
  lemma VersionExample()
    ensures VersionOf("38331-f40.zip") == Ok("f40")
  {
    assert "38331-f40.zip" == "38331" + "-" + "f40" + "." + "zip";
    VersionOfArchiveFile("38331", "f40", "zip");
  }

  /** Version `f40` is release 15. */
  lemma LetterReleaseExample()
    ensures GetRelease("f40") == Some(15)
  {
    ReleaseOfLetter("f40");
  }

  /** An upper-case letter is not in the alphabet: no release. */
  lemma UpperCaseLetterExample()
    ensures GetRelease("F40") == None
  {
    ReleaseOfLetter("F40");
  }

  /** The six-character version `190100` is release 19. */
  lemma SixCharacterReleaseExample()
    ensures GetRelease("190100") == Some(19)
  {
  }

  // ------------------------------------------------------------------ dates

  /** The arguments of `new Date(year, month, day, hour, minute)`; the month
      counts from 0, as JavaScript's does. */
  datatype DateTime = DateTime(year: int, month: int, day: int, hour: int, minute: int)

  /** Months since the start of year 0: `new Date` carries a month outside
      0..11 over into the year, so dates are compared on this. */
  function MonthIndex(d: DateTime): (m: int)
    ensures m == (d.year + d.month / 12) * 12 + d.month % 12
  {
    d.year * 12 + d.month
  }

  /** `a` is at or before `b`: compared on month, then day, hour and minute. */
  predicate NotLater(a: DateTime, b: DateTime) {
    if MonthIndex(a) != MonthIndex(b) then MonthIndex(a) < MonthIndex(b)
    else if a.day != b.day then a.day < b.day
    else if a.hour != b.hour then a.hour < b.hour
    else a.minute <= b.minute
  }

  /** `NotLater` is a total preorder: any two dates compare, and it chains. */
  lemma NotLaterTotal(a: DateTime, b: DateTime)
    ensures NotLater(a, b) || NotLater(b, a)
  {
  }

  lemma NotLaterTransitive(a: DateTime, b: DateTime, c: DateTime)
    requires NotLater(a, b) && NotLater(b, c)
    ensures NotLater(a, c)
  {
  }

  /** The year of a two-digit `YY`: 98 and 99 are 1998 and 1999, the others 20YY. */
  function CenturyYear(yy: nat): (year: nat)
    ensures yy < 100 ==> 1998 <= year <= 2097 && year % 100 == yy
  {
    if yy >= 98 then 1900 + yy else 2000 + yy
  }

  /** The date half `MM-DD-YY` as its three numbers, month first. */
  function ParseDay(date: string): Option<(nat, nat, nat)>
  {
    var fields := Split(date, '-');
    if |fields| < 3 then None
    else
      match (Number(fields[0]), Number(fields[1]), Number(fields[2]))
      case (Some(mm), Some(dd), Some(yy)) => Some((mm, dd, yy))
      case _ => None
  }

  /** The time half `hh:mm` followed by `AM` or `PM`, as the hour handed to
      `new Date` and the minute: twelve hours more exactly when the last two
      characters are `PM`. */
  function ParseClock(time: string): Option<(nat, nat)>
  {
    var cut := if |time| < 2 then 0 else |time| - 2;
    var fields := Split(time[..cut], ':');
    if |fields| < 2 then None
    else
      match (Number(fields[0]), Number(fields[1]))
      case (Some(hh), Some(mi)) => Some((if time[cut..] == "PM" then hh + 12 else hh, mi))
      case _ => None
  }

  /** `parseDate(raw)` for a listing timestamp `MM-DD-YY hh:mmAM` or `…PM`.
      `None` stands for the cases where JavaScript builds an Invalid Date
      (a field that is missing or not a number) or throws (no space). */
  function ParseDate(raw: string): (r: Option<DateTime>)
    ensures r.Some? ==>
      && r.value.year >= 1998 && r.value.month >= -1
      && r.value.day >= 0 && r.value.hour >= 0 && r.value.minute >= 0
  {
    var parts := Split(raw, ' ');
    if |parts| < 2 then None
    else
      match (ParseDay(parts[0]), ParseClock(parts[1]))
      case (Some((mm, dd, yy)), Some((hour, mi))) =>
        Some(DateTime(CenturyYear(yy), mm as int - 1, dd, hour, mi))
      case _ => None
  }

  /** The listing timestamp `MM-DD-YY hh:mm` followed by a two-character suffix. */
  function Timestamp(mm: string, dd: string, yy: string, hh: string, mi: string, suffix: string): string {
    mm + "-" + dd + "-" + yy + " " + hh + ":" + mi + suffix
  }

  lemma DigitsAvoid(s: string, c: char)
    requires AllDigits(s) && !IsDigit(c)
    ensures c !in s
  {
  }

  /** The date half `MM-DD-YY` reads as its three fields. */
  lemma ParseDayOf(mm: string, dd: string, yy: string)
    requires AllDigits(mm) && AllDigits(dd) && AllDigits(yy)
    ensures ParseDay(mm + "-" + dd + "-" + yy)
      == Some((DecimalValue(mm), DecimalValue(dd), DecimalValue(yy)))
  {
    DigitsAvoid(mm, '-'); DigitsAvoid(dd, '-'); DigitsAvoid(yy, '-');
    assert Join([dd, yy], '-') == dd + "-" + yy;
    assert Join([mm, dd, yy], '-') == mm + "-" + (dd + "-" + yy);
    assert mm + "-" + dd + "-" + yy == mm + "-" + (dd + "-" + yy);
    SplitJoin([mm, dd, yy], '-');
  }

  /** A clock whose text before its last two characters splits into two
      digit strings reads as those numbers. */
  lemma ParseClockOfFields(time: string, hh: string, mi: string)
    requires AllDigits(hh) && AllDigits(mi) && |time| >= 2
    requires Split(time[..|time| - 2], ':') == [hh, mi]
    ensures ParseClock(time) == Some((
      if time[|time| - 2..] == "PM" then DecimalValue(hh) + 12 else DecimalValue(hh),
      DecimalValue(mi)))
  {
  }

  /** The time half `hh:mm` plus a two-character suffix reads as the hour,
      twelve more exactly when the suffix is `PM`, and the minute. */
  lemma ParseClockOf(hh: string, mi: string, suffix: string)
    requires AllDigits(hh) && AllDigits(mi) && |suffix| == 2
    ensures ParseClock(hh + ":" + mi + suffix) == Some((
      if suffix == "PM" then DecimalValue(hh) + 12 else DecimalValue(hh),
      DecimalValue(mi)))
  {
    DigitsAvoid(hh, ':'); DigitsAvoid(mi, ':');
    var clock := hh + ":" + mi;
    var time := clock + suffix;
    assert Join([hh, mi], ':') == clock;
    SplitJoin([hh, mi], ':');
    assert time[..|time| - 2] == clock;
    assert time[|time| - 2..] == suffix;
    ParseClockOfFields(time, hh, mi);
  }

  /** A timestamp splits at its space into the date half and the time half. */
  lemma SplitTimestamp(mm: string, dd: string, yy: string, hh: string, mi: string, suffix: string)
    requires AllDigits(mm) && AllDigits(dd) && AllDigits(yy) && AllDigits(hh) && AllDigits(mi)
    requires ' ' !in suffix
    ensures Split(Timestamp(mm, dd, yy, hh, mi, suffix), ' ')
      == [mm + "-" + dd + "-" + yy, hh + ":" + mi + suffix]
  {
    DigitsAvoid(mm, ' '); DigitsAvoid(dd, ' '); DigitsAvoid(yy, ' ');
    DigitsAvoid(hh, ' '); DigitsAvoid(mi, ' ');
    var date := mm + "-" + dd + "-" + yy;
    var time := hh + ":" + mi + suffix;
    assert Timestamp(mm, dd, yy, hh, mi, suffix) == Join([date, time], ' ');
    SplitJoin([date, time], ' ');
  }

  /** Parsing a timestamp recovers its fields: the year through the 98
      pivot, the month minus one, and twelve hours more exactly when the
      suffix is `PM` (no special case for twelve o'clock). */
  lemma ParseTimestamp(mm: string, dd: string, yy: string, hh: string, mi: string, suffix: string,
                        month: nat, day: nat, year: nat, hour: nat, minute: nat)
    requires Number(mm) == Some(month) && Number(dd) == Some(day) && Number(yy) == Some(year)
    requires Number(hh) == Some(hour) && Number(mi) == Some(minute)
    requires |suffix| == 2 && ' ' !in suffix
    ensures ParseDate(Timestamp(mm, dd, yy, hh, mi, suffix))
      == Some(DateTime(CenturyYear(year), month - 1, day, if suffix == "PM" then hour + 12 else hour, minute))
  {
    var raw := Timestamp(mm, dd, yy, hh, mi, suffix);
    var date := mm + "-" + dd + "-" + yy;
    var time := hh + ":" + mi + suffix;
    SplitTimestamp(mm, dd, yy, hh, mi, suffix);
    ParseDayOf(mm, dd, yy);
    ParseClockOf(hh, mi, suffix);
    ParseDateOfFields(raw, date, time, month, day, year, if suffix == "PM" then hour + 12 else hour, minute);
  }

  /** A timestamp whose halves read reads as the date they give. */
  lemma ParseDateOfFields(raw: string, date: string, time: string,
                          month: nat, day: nat, yy: nat, hour: nat, minute: nat)
    requires Split(raw, ' ') == [date, time]
    requires ParseDay(date) == Some((month, day, yy))
    requires ParseClock(time) == Some((hour, minute))
    ensures ParseDate(raw) == Some(DateTime(CenturyYear(yy), month - 1, day, hour, minute))
  {
    var parts := Split(raw, ' ');
    assert parts[0] == date && parts[1] == time;
  }

  /** A two-character digit string reads as its tens and units. */
  lemma TwoDigitNumber(s: string, n: nat)
    requires |s| == 2 && IsDigit(s[0]) && IsDigit(s[1])
    requires 10 * DigitValue(s[0]) + DigitValue(s[1]) == n
    ensures Number(s) == Some(n)
  {
    TwoDigitValue(s);
  }

  /** The fields of `03-15-24 02:30PM`. */
  lemma AfternoonTimestamp()
    ensures ParseDate(Timestamp("03", "15", "24", "02", "30", "PM")) == Some(DateTime(2024, 2, 15, 14, 30))
  {
    TwoDigitNumber("03", 3); TwoDigitNumber("15", 15); TwoDigitNumber("24", 24);
    TwoDigitNumber("02", 2); TwoDigitNumber("30", 30);
    ParseTimestamp("03", "15", "24", "02", "30", "PM", 3, 15, 24, 2, 30);
  }

  /** The fields of `03-15-99 11:05AM`. */
  lemma NinetiesTimestamp()
    ensures ParseDate(Timestamp("03", "15", "99", "11", "05", "AM")) == Some(DateTime(1999, 2, 15, 11, 5))
  {
    TwoDigitNumber("03", 3); TwoDigitNumber("15", 15); TwoDigitNumber("99", 99);
    TwoDigitNumber("11", 11); TwoDigitNumber("05", 5);
    ParseTimestamp("03", "15", "99", "11", "05", "AM", 3, 15, 99, 11, 5);
  }

  /** The fields of `01-02-24 12:30AM`. */
  lemma MidnightTimestamp()
    ensures ParseDate(Timestamp("01", "02", "24", "12", "30", "AM")) == Some(DateTime(2024, 0, 2, 12, 30))
  {
    TwoDigitNumber("01", 1); TwoDigitNumber("02", 2); TwoDigitNumber("24", 24);
    TwoDigitNumber("12", 12); TwoDigitNumber("30", 30);
    ParseTimestamp("01", "02", "24", "12", "30", "AM", 1, 2, 24, 12, 30);
  }

  /** The fields of `01-02-24 12:30PM`. */
  lemma NoonTimestamp()
    ensures ParseDate(Timestamp("01", "02", "24", "12", "30", "PM")) == Some(DateTime(2024, 0, 2, 24, 30))
  {
    TwoDigitNumber("01", 1); TwoDigitNumber("02", 2); TwoDigitNumber("24", 24);
    TwoDigitNumber("12", 12); TwoDigitNumber("30", 30);
    ParseTimestamp("01", "02", "24", "12", "30", "PM", 1, 2, 24, 12, 30);
  }

  /** The fields of `03-31-24 12:30PM`. */
  lemma QuarterEdgeTimestamp()
    ensures ParseDate(Timestamp("03", "31", "24", "12", "30", "PM")) == Some(DateTime(2024, 2, 31, 24, 30))
  {
    TwoDigitNumber("03", 3); TwoDigitNumber("31", 31); TwoDigitNumber("24", 24);
    TwoDigitNumber("12", 12); TwoDigitNumber("30", 30);
    ParseTimestamp("03", "31", "24", "12", "30", "PM", 3, 31, 24, 12, 30);
  }

  /** The example timestamps spelled out. */
  lemma ExampleSpellings()
    ensures Timestamp("03", "15", "24", "02", "30", "PM") == "03-15-24 02:30PM"
    ensures Timestamp("03", "15", "99", "11", "05", "AM") == "03-15-99 11:05AM"
    ensures Timestamp("01", "02", "24", "12", "30", "AM") == "01-02-24 12:30AM"
    ensures Timestamp("01", "02", "24", "12", "30", "PM") == "01-02-24 12:30PM"
    ensures Timestamp("03", "31", "24", "12", "30", "PM") == "03-31-24 12:30PM"
  {
  }

  /** The worked examples: `03-15-24 02:30PM` is 15 March 2024, 14:30, and
      `03-15-99 11:05AM` falls in 1999. */
  lemma ParseDateExamples()
    ensures ParseDate("03-15-24 02:30PM") == Some(DateTime(2024, 2, 15, 14, 30))
    ensures ParseDate("03-15-99 11:05AM") == Some(DateTime(1999, 2, 15, 11, 5))
  {
    AfternoonTimestamp();
    NinetiesTimestamp();
    ExampleSpellings();
  }

  /** As written, twelve o'clock gets no special case: `12:30AM` is hour 12
      (noon, not midnight) and `12:30PM` hour 24 (which JavaScript carries
      into the next day). */
  lemma TwelveOClockAsWritten()
    ensures ParseDate("01-02-24 12:30AM") == Some(DateTime(2024, 0, 2, 12, 30))
    ensures ParseDate("01-02-24 12:30PM") == Some(DateTime(2024, 0, 2, 24, 30))
  {
    MidnightTimestamp();
    NoonTimestamp();
    ExampleSpellings();
  }

  // --------------------------------------------------------------- quarters

  /** The quarter argument `yyyy-mm` as `quarter.split("-").map(Number)` reads it. */
  datatype Quarter = Quarter(year: nat, month: nat)

  /** `None` when the year or the month is missing or not a number (NaN). */
  function ParseQuarter(quarter: string): (r: Option<Quarter>)
    ensures r.Some? <==>
      var parts := Split(quarter, '-');
      |parts| >= 2 && AllDigits(parts[0]) && AllDigits(parts[1])
  {
    var parts := Split(quarter, '-');
    if |parts| < 2 then None
    else
      match (Number(parts[0]), Number(parts[1]))
      case (Some(yy), Some(mm)) => Some(Quarter(yy, mm))
      case _ => None
  }

  /** The argument `<yyyy>-<mm>` of two digit strings, zero-padded or not,
      reads as their two numbers. */
  lemma ParseQuarterOf(yyyy: string, mm: string, year: nat, month: nat)
    requires Number(yyyy) == Some(year) && Number(mm) == Some(month)
    ensures ParseQuarter(yyyy + "-" + mm) == Some(Quarter(year, month))
  {
    DigitsAvoid(yyyy, '-');
    DigitsAvoid(mm, '-');
    assert Join([yyyy, mm], '-') == yyyy + "-" + mm;
    SplitJoin([yyyy, mm], '-');
  }

  /** Reading back a quarter written in decimal gives its year and month. */
  lemma ParseQuarterOfDecimal(year: nat, month: nat)
    ensures ParseQuarter(ToDecimal(year) + "-" + ToDecimal(month)) == Some(Quarter(year, month))
  {
    NumberOfDecimal(year);
    NumberOfDecimal(month);
    ParseQuarterOf(ToDecimal(year), ToDecimal(month), year, month);
  }

  /** `new Date(y, …)` reads a year from 0 to 99 as 1900 to 1999. */
  function ConstructorYear(y: nat): (r: nat)
    ensures r % 100 == y % 100
    ensures r == y <==> y > 99
    ensures y <= 99 ==> 1900 <= r <= 1999
  {
    if y <= 99 then 1900 + y else y
  }

  /** `new Date(yy, mm - 1)`: the first instant of month `mm` of the quarter. */
  function QuarterStart(q: Quarter): (start: DateTime)
    ensures MonthIndex(start) == ConstructorYear(q.year) * 12 + q.month - 1
    ensures start.day == 1 && start.hour == 0 && start.minute == 0
  {
    DateTime(ConstructorYear(q.year), q.month - 1, 1, 0, 0)
  }

  /** `new Date(yy, mm + 2)`: the first instant three months later. */
  function QuarterEnd(q: Quarter): (end: DateTime)
    ensures MonthIndex(end) == MonthIndex(QuarterStart(q)) + 3
    ensures end.day == 1 && end.hour == 0 && end.minute == 0
  {
    DateTime(ConstructorYear(q.year), q.month + 2, 1, 0, 0)
  }

  /** The half-open window test `date >= start && date < end`. */
  predicate InQuarter(d: DateTime, q: Quarter) {
    NotLater(QuarterStart(q), d) && !NotLater(QuarterEnd(q), d)
  }

  /** The window holds exactly the dates of the quarter's three months.
      A day 0 (which JavaScript reads as the last day of the month before)
      shifts the window by one month. */
  lemma InQuarterByMonth(d: DateTime, q: Quarter)
    requires d.hour >= 0 && d.minute >= 0
    ensures var first := ConstructorYear(q.year) * 12 + q.month - 1;
      InQuarter(d, q) <==>
        if d.day >= 1 then first <= MonthIndex(d) < first + 3
        else first < MonthIndex(d) <= first + 3
  {
  }

  /** The argument `2024-01` reads as year 2024, month 1. */
  lemma QuarterArgumentExample()
    ensures ParseQuarter("2024-01") == Some(Quarter(2024, 1))
  {
    TwoDigitNumber("01", 1);
    assert Number("2024") == Some(2024) by {
      assert "2024"[..3] == "202";
      assert "202"[..2] == "20";
      TwoDigitValue("20");
    }
    ParseQuarterOf("2024", "01", 2024, 1);
    assert "2024" + "-" + "01" == "2024-01";
  }

  /** Quarter `2024-01` keeps January to March 2024 and drops December 2023
      and April 2024. */
  lemma FirstQuarterOf2024(d: DateTime)
    requires d.day >= 1 && d.hour >= 0 && d.minute >= 0
    ensures ParseQuarter("2024-01") == Some(Quarter(2024, 1))
    ensures d.year == 2024 && 0 <= d.month <= 2 ==> InQuarter(d, Quarter(2024, 1))
    ensures d.year == 2023 && d.month == 11 ==> !InQuarter(d, Quarter(2024, 1))
    ensures d.year == 2024 && d.month == 3 ==> !InQuarter(d, Quarter(2024, 1))
  {
    QuarterArgumentExample();
    InQuarterByMonth(d, Quarter(2024, 1));
  }

  /** Hour 24 stays on its own day in the model: `03-31-24 12:30PM` lies in
      quarter `2024-01`, where JavaScript rolls it over to 1 April. */
  lemma QuarterEdgeAsWritten()
    ensures ParseDate("03-31-24 12:30PM") == Some(DateTime(2024, 2, 31, 24, 30))
    ensures InQuarter(DateTime(2024, 2, 31, 24, 30), Quarter(2024, 1))
  {
    QuarterEdgeTimestamp();
    ExampleSpellings();
    InQuarterByMonth(DateTime(2024, 2, 31, 24, 30), Quarter(2024, 1));
  }
}
