/** Certificate validity times (admin-ui/src/utils/x509.ts, `readTime`): UTCTime and GeneralizedTime
    (section 4.1.2.5 of RFC 5280) read through JavaScript's `Date.UTC`, in milliseconds since the
    Unix epoch. */
module CertificateTime {
  import opened Wrappers
  import opened Der

  const UTC_TIME: byte := 0x17
  const GENERALIZED_TIME: byte := 0x18
  const MS_PER_DAY := 86_400_000

  // ---- Date.UTC ----

  predicate IsLeap(year: int) {
    year % 4 == 0 && (year % 100 != 0 || year % 400 == 0)
  }

  /** Days from 1970-01-01 to the first of January; `/` rounds down, as the divisors are positive. */
  function DaysBeforeYear(year: int): int {
    365 * (year - 1970) + (year - 1969) / 4 - (year - 1901) / 100 + (year - 1601) / 400
  }

  function DaysInMonth(leap: bool, month: int): int
    requires 0 <= month < 12
  {
    if month == 1 then (if leap then 29 else 28)
    else if month == 3 || month == 5 || month == 8 || month == 10 then 30
    else 31
  }

  function DaysBeforeMonth(leap: bool, month: int): int
    requires 0 <= month <= 12
    decreases month
  {
    if month <= 0 then 0 else DaysBeforeMonth(leap, month - 1) + DaysInMonth(leap, month - 1)
  }

  /** Years 0 to 99 mean 1900 to 1999 to `Date.UTC`. */
  function FullYear(year: int): int {
    if 0 <= year <= 99 then 1900 + year else year
  }

  /** `month` counts from 0. Out-of-range fields carry over; a time too far away is not a number. */
  function DateUtc(year: int, month: int, date: int, hours: int, minutes: int, seconds: int): Option<int> {
    TimeClip(FullYear(year), month, date, hours, minutes, seconds)
  }

  /** Days from 1970-01-01 to the first of the month. */
  function MonthStart(year: int, month: int): int {
    var y := year + month / 12;
    DaysBeforeYear(y) + DaysBeforeMonth(IsLeap(y), month % 12)
  }

  function TimeClip(year: int, month: int, date: int, hours: int, minutes: int, seconds: int): Option<int> {
    var t := (MonthStart(year, month) + date - 1) * MS_PER_DAY
             + hours * 3_600_000 + minutes * 60_000 + seconds * 1000;
    if -8_640_000_000_000_000 <= t <= 8_640_000_000_000_000 then Some(t) else None
  }

  // ---- readTime ----

  predicate IsDigit(b: byte) {
    '0' as int <= b <= '9' as int
  }

  /** `Number(...)` of a text of digits, or of nothing; anything else is not a number. */
  function ParseNumber(text: Bytes): Option<nat> {
    if text == [] then Some(0)
    else if !IsDigit(text[|text| - 1]) then None
    else
      match ParseNumber(text[..|text| - 1])
      case None => None
      case Some(n) => Some(n * 10 + (text[|text| - 1] - '0' as int))
  }

  function Slice(text: Bytes, from: nat, to: nat): Bytes
    requires from <= to
  {
    if from >= |text| then [] else text[from..if to <= |text| then to else |text|]
  }

  function WithoutZ(text: Bytes): Bytes {
    if text != [] && text[|text| - 1] == 'Z' as int then text[..|text| - 1] else text
  }

  /** The arguments of `Date.UTC`, the month still counted from 1. */
  datatype Fields = Fields(year: int, month: int, day: int, hour: int, minute: int, second: int)

  function ReadPart(rest: Bytes, from: nat): Option<nat> {
    ParseNumber(Slice(rest, from, from + 2))
  }

  function ReadFields(tag: byte, text: Bytes): Option<Fields> {
    var digits := WithoutZ(text);
    var width := if tag == UTC_TIME then 2 else 4;
    var rest := Slice(digits, width, if |digits| > width then |digits| else width);
    FieldsFrom(tag, ParseNumber(Slice(digits, 0, width)), rest)
  }

  function FieldsFrom(tag: byte, year: Option<nat>, rest: Bytes): Option<Fields> {
    var month, day, hour := ReadPart(rest, 0), ReadPart(rest, 2), ReadPart(rest, 4);
    var minute, second := ReadPart(rest, 6), ReadPart(rest, 8);
    if year.None? || month.None? || day.None? || hour.None? || minute.None? || second.None? then None
    else
      var y := if tag == UTC_TIME then year.value + (if year.value < 50 then 2000 else 1900) else year.value;
      Some(Fields(y, month.value, day.value, hour.value, minute.value, second.value))
  }

  function ToDate(f: Fields): Result<int, CertificateError> {
    match DateUtc(f.year, f.month - 1, f.day, f.hour, f.minute, f.second)
    case None => Failure(InvalidDate)
    case Some(t) => Success(t)
  }

  function ReadTime(tag: byte, text: Bytes): Result<int, CertificateError> {
    match ReadFields(tag, text)
    case None => Failure(InvalidDate)
    case Some(f) => ToDate(f)
  }

  // ---- What is written ----

  /** A date and time that exists. */
  predicate InRange(f: Fields) {
    && 0 <= f.year <= 9999 && 1 <= f.month <= 12 && 1 <= f.day <= DaysInMonth(IsLeap(f.year), f.month - 1)
    && 0 <= f.hour < 24 && 0 <= f.minute < 60 && 0 <= f.second < 60
  }

  /** Fields that fit their digits, whether or not there is such a date and time. */
  predicate Fits(f: Fields) {
    && 0 <= f.year <= 9999 && 0 <= f.month < 100 && 0 <= f.day < 100
    && 0 <= f.hour < 100 && 0 <= f.minute < 100 && 0 <= f.second < 100
  }

  function Digits(n: nat, width: nat): (d: Bytes)
    ensures |d| == width
  {
    if width == 0 then [] else Digits(n / 10, width - 1) + [n % 10 + '0' as int]
  }

  function MonthToSecond(f: Fields): Bytes
    requires Fits(f)
  {
    Digits(f.month, 2) + Digits(f.day, 2) + Digits(f.hour, 2) + Digits(f.minute, 2) + Digits(f.second, 2)
  }

  function AfterYear(f: Fields): Bytes
    requires Fits(f)
  {
    MonthToSecond(f) + ['Z' as int]
  }

  /** `YYMMDDhhmmssZ`. */
  function UtcText(f: Fields): Bytes
    requires Fits(f)
  {
    Digits(f.year % 100, 2) + AfterYear(f)
  }

  /** `YYYYMMDDhhmmssZ`. */
  function GeneralizedText(f: Fields): Bytes
    requires Fits(f)
  {
    Digits(f.year, 4) + AfterYear(f)
  }

  /** Days from 1970-01-01 to the date. */
  function DayNumber(f: Fields): int
    requires InRange(f)
  {
    DaysBeforeYear(f.year) + DaysBeforeMonth(IsLeap(f.year), f.month - 1) + f.day - 1
  }

  /** The instant that fields denote in the Gregorian calendar. */
  function Instant(f: Fields): int
    requires InRange(f)
  {
    DayNumber(f) * MS_PER_DAY + ((f.hour * 60 + f.minute) * 60 + f.second) * 1000
  }

  predicate Before(a: Fields, b: Fields) {
    || a.year < b.year
    || (a.year == b.year &&
        (|| a.month < b.month
         || (a.month == b.month &&
             (|| a.day < b.day
              || (a.day == b.day &&
                  (|| a.hour < b.hour
                   || (a.hour == b.hour &&
                       (a.minute < b.minute || (a.minute == b.minute && a.second < b.second)))))))))
  }

  // ---- The calendar is strictly monotone ----

  lemma YearsDoNotOverlap(a: int, b: int)
    requires a < b
    ensures DaysBeforeYear(a) + (if IsLeap(a) then 366 else 365) <= DaysBeforeYear(b)
    decreases b - a
  {
    NextYear(a);
    if a + 1 < b {
      YearsDoNotOverlap(a + 1, b);
    }
  }

  lemma NextYear(a: int)
    ensures DaysBeforeYear(a + 1) == DaysBeforeYear(a) + if IsLeap(a) then 366 else 365
  {
    FloorStep(a - 1968, 4);
    FloorStep(a - 1900, 100);
    FloorStep(a - 1600, 400);
    ShiftKeepsRemainder(a, 4, 492);
    ShiftKeepsRemainder(a, 100, 19);
    ShiftKeepsRemainder(a, 400, 4);
    assert a % 400 == 0 ==> a % 100 == 0;
    assert a % 100 == 0 ==> a % 4 == 0;
  }

  lemma ShiftKeepsRemainder(a: int, d: int, k: int)
    requires d > 0
    ensures (a - k * d) % d == a % d
  {
    assert a - k * d == (a / d - k) * d + a % d;
    DivUnique(a - k * d, d, a / d - k, a % d);
  }

  lemma FloorStep(n: int, d: int)
    requires d > 0
    ensures n / d == (n - 1) / d + if n % d == 0 then 1 else 0
  {
    var q := (n - 1) / d;
    var r := (n - 1) % d;
    assert n == q * d + r + 1;
    if r + 1 == d {
      assert n == (q + 1) * d;
      DivUnique(n, d, q + 1, 0);
    } else {
      DivUnique(n, d, q, r + 1);
    }
  }

  lemma DivUnique(n: int, d: int, q: int, r: int)
    requires d > 0 && 0 <= r < d && n == q * d + r
    ensures n / d == q && n % d == r
  {
    var q', r' := n / d, n % d;
    assert (q - q') * d == r' - r;
    if q - q' >= 1 {
      assert false;
    } else if q - q' <= -1 {
      assert false;
    }
  }

  lemma {:induction false} MonthsDoNotOverlap(leap: bool, a: int, b: int)
    requires 0 <= a < b <= 12
    ensures DaysBeforeMonth(leap, a) + DaysInMonth(leap, a) <= DaysBeforeMonth(leap, b)
    decreases b - a
  {
    if a + 1 < b {
      MonthsDoNotOverlap(leap, a + 1, b);
    }
  }

  lemma YearLength(leap: bool)
    ensures DaysBeforeMonth(leap, 12) == if leap then 366 else 365
  {
  }

  lemma DayOrder(a: Fields, b: Fields)
    requires InRange(a) && InRange(b)
    requires a.year < b.year || (a.year == b.year && (a.month < b.month || (a.month == b.month && a.day < b.day)))
    ensures DayNumber(a) < DayNumber(b)
  {
    hide DaysBeforeYear, IsLeap;
    if a.year < b.year {
      YearsDoNotOverlap(a.year, b.year);
      YearLength(IsLeap(a.year));
      MonthsDoNotOverlap(IsLeap(a.year), a.month - 1, 12);
      if b.month > 1 {
        MonthsDoNotOverlap(IsLeap(b.year), 0, b.month - 1);
      }
    } else if a.month < b.month {
      MonthsDoNotOverlap(IsLeap(a.year), a.month - 1, b.month - 1);
    }
  }

  /** Later fields are a later instant. */
  lemma InstantsAreOrdered(a: Fields, b: Fields)
    requires InRange(a) && InRange(b) && Before(a, b)
    ensures Instant(a) < Instant(b)
  {
    if a.year == b.year && a.month == b.month && a.day == b.day {
      assert DayNumber(a) == DayNumber(b);
    } else {
      DayOrder(a, b);
      assert DayNumber(a) + 1 <= DayNumber(b);
    }
  }

  // ---- Reading what was written ----

  lemma {:induction false} ParseDigits(n: nat, width: nat, bound: nat)
    requires width >= 1 && n < bound && bound == (match width case 1 => 10 case 2 => 100 case 3 => 1000 case _ => 10000)
    requires width <= 4
    ensures ParseNumber(Digits(n, width)) == Some(n)
  {
    var d := Digits(n, width);
    assert d[..|d| - 1] == Digits(n / 10, width - 1);
    if width > 1 {
      ParseDigits(n / 10, width - 1, bound / 10);
    }
  }

  /** Reading a time text whose year digits read as `year`. */
  lemma ReadsFields(tag: byte, yearDigits: Bytes, year: nat, f: Fields)
    requires Fits(f) && |yearDigits| == (if tag == UTC_TIME then 2 else 4)
    requires ParseNumber(yearDigits) == Some(year)
    ensures var y := if tag == UTC_TIME then year + (if year < 50 then 2000 else 1900) else year;
            ReadFields(tag, yearDigits + AfterYear(f)) == Some(f.(year := y))
  {
    hide Digits, ParseNumber, ReadFields;
    var rest := MonthToSecond(f);
    assert yearDigits + AfterYear(f) == yearDigits + rest + ['Z' as int];
    ReadsRest(tag, yearDigits, year, rest);
    ReadsParts(f, rest);
  }

  lemma ReadsRest(tag: byte, yearDigits: Bytes, year: nat, rest: Bytes)
    requires |yearDigits| == (if tag == UTC_TIME then 2 else 4) && ParseNumber(yearDigits) == Some(year) && rest != []
    ensures ReadFields(tag, yearDigits + rest + ['Z' as int]) == FieldsFrom(tag, Some(year), rest)
  {
    hide ParseNumber, FieldsFrom;
    DropsZ(yearDigits + rest);
    SlicesAt(yearDigits, rest);
  }

  lemma DropsZ(text: Bytes)
    ensures WithoutZ(text + ['Z' as int]) == text
  {
  }

  lemma SlicesAt(a: Bytes, b: Bytes)
    requires a != [] && b != []
    ensures Slice(a + b, 0, |a|) == a && Slice(a + b, |a|, |a + b|) == b
  {
  }

  lemma ReadsParts(f: Fields, rest: Bytes)
    requires Fits(f)
    requires rest == MonthToSecond(f)
    ensures ReadPart(rest, 0) == Some(f.month) && ReadPart(rest, 2) == Some(f.day) && ReadPart(rest, 4) == Some(f.hour)
    ensures ReadPart(rest, 6) == Some(f.minute) && ReadPart(rest, 8) == Some(f.second)
  {
    hide Digits, ParseNumber;
    SlicesOfFive(Digits(f.month, 2), Digits(f.day, 2), Digits(f.hour, 2), Digits(f.minute, 2), Digits(f.second, 2));
    ParseDigits(f.month, 2, 100);
    ParseDigits(f.day, 2, 100);
    ParseDigits(f.hour, 2, 100);
    ParseDigits(f.minute, 2, 100);
    ParseDigits(f.second, 2, 100);
  }

  lemma DayNumberIsBounded(f: Fields)
    requires InRange(f)
    ensures -1_000_000 <= DayNumber(f) <= 4_000_000
  {
    assert -800_000 <= DaysBeforeYear(f.year) <= 3_000_000;
    YearLength(IsLeap(f.year));
    MonthsDoNotOverlap(IsLeap(f.year), f.month - 1, 12);
    if f.month > 1 {
      MonthsDoNotOverlap(IsLeap(f.year), 0, f.month - 1);
    }
  }

  lemma DateUtcIsInstant(f: Fields)
    requires InRange(f) && f.year > 99
    ensures ToDate(f) == Success(Instant(f))
  {
    DayNumberIsBounded(f);
    var month := f.month - 1;
    assert month / 12 == 0 && month % 12 == month;
    assert FullYear(f.year) + month / 12 == f.year;
    assert Instant(f) == DayNumber(f) * MS_PER_DAY + f.hour * 3_600_000 + f.minute * 60_000 + f.second * 1000;
  }

  /** A UTCTime of 1950 to 2049 reads as the instant it was written for. */
  lemma ReadsUtcTime(f: Fields)
    requires InRange(f) && 1950 <= f.year <= 2049
    ensures ReadTime(UTC_TIME, UtcText(f)) == Success(Instant(f))
  {
    ReadsUtcFields(f);
    ReadsAs(UTC_TIME, UtcText(f), f, f);
  }

  lemma ReadsUtcFields(f: Fields)
    requires InRange(f) && 1950 <= f.year <= 2049
    ensures ReadFields(UTC_TIME, UtcText(f)) == Some(f)
  {
    var yy := if f.year >= 2000 then f.year - 2000 else f.year - 1900;
    DivUnique(f.year, 100, (f.year - yy) / 100, yy);
    ParseDigits(yy, 2, 100);
    ReadsFields(UTC_TIME, Digits(yy, 2), yy, f);
    assert f.(year := yy + (if yy < 50 then 2000 else 1900)) == f;
    assert UtcText(f) == Digits(yy, 2) + AfterYear(f);
  }

  lemma ReadsAs(tag: byte, text: Bytes, read: Fields, f: Fields)
    requires ReadFields(tag, text) == Some(read) && f == read.(year := FullYear(read.year))
    requires InRange(f) && f.year > 99
    ensures ReadTime(tag, text) == Success(Instant(f))
  {
    SameToDate(read);
    DateUtcIsInstant(f);
  }

  lemma SameToDate(f: Fields)
    requires FullYear(f.year) > 99
    ensures ToDate(f) == ToDate(f.(year := FullYear(f.year)))
  {
  }

  /** The date and time that JavaScript takes the fields for. The years 0 to 99 are 1900 to 1999 to
      `Date.UTC`, and the leap day of the year 0 is then the day after the last of February 1900. */
  function AsRead(f: Fields): Fields {
    if f.year == 0 && f.month == 2 && f.day == 29 then f.(year := 1900, month := 3, day := 1)
    else f.(year := if f.year <= 99 then f.year + 1900 else f.year)
  }

  lemma AsReadIsInRange(f: Fields)
    requires InRange(f)
    ensures InRange(AsRead(f)) && AsRead(f).year > 99
  {
    if 1 <= f.year <= 99 {
      assert IsLeap(1900 + f.year) == IsLeap(f.year);
    }
  }

  /** 0000-02-29 reads as 1900-03-01. */
  lemma LeapDayOfYearZero(f: Fields)
    requires InRange(f) && f.year == 0 && f.month == 2 && f.day == 29
    ensures ToDate(f) == Success(Instant(AsRead(f)))
  {
    var g := AsRead(f);
    DateUtcIsInstant(g);
    assert DaysBeforeMonth(false, 2) == DaysBeforeMonth(false, 1) + 28;
    assert TimeClip(1900, 1, 29, f.hour, f.minute, f.second) == TimeClip(1900, 2, 1, f.hour, f.minute, f.second);
  }

  /** A GeneralizedTime reads as the instant it was written for, except that the years 0 to 99 read
      as 1900 to 1999, and 0000-02-29 as 1900-03-01. */
  lemma ReadsGeneralizedTime(f: Fields)
    requires InRange(f)
    ensures InRange(AsRead(f)) && ReadTime(GENERALIZED_TIME, GeneralizedText(f)) == Success(Instant(AsRead(f)))
  {
    AsReadIsInRange(f);
    ParseDigits(f.year, 4, 10000);
    ReadsFields(GENERALIZED_TIME, Digits(f.year, 4), f.year, f);
    if f.year == 0 && f.month == 2 && f.day == 29 {
      LeapDayOfYearZero(f);
    } else {
      ReadsAs(GENERALIZED_TIME, GeneralizedText(f), f, AsRead(f));
    }
  }

  // ---- Which instants they are ----

  /** The bytes of a text; what is not ASCII becomes a question mark. */
  function Ascii(text: string): Bytes {
    seq(|text|, i requires 0 <= i < |text| => if text[i] as int < 128 then text[i] as int else '?' as int)
  }

  lemma TwoDigits(n: nat)
    requires n < 100
    ensures Digits(n, 2) == [n / 10 + 48, n % 10 + 48]
  {
    assert Digits(n / 10, 1) == [n / 10 + 48];
  }

  lemma YearDigits()
    ensures Digits(1970, 4) == [49, 57, 55, 48]
  {
    TwoDigits(19);
    assert Digits(197, 3) == Digits(19, 2) + [55];
  }

  lemma MidnightOfFirst(year: nat)
    requires year <= 9999
    ensures MonthToSecond(Fields(year, 1, 1, 0, 0, 0)) == [48, 49, 48, 49, 48, 48, 48, 48, 48, 48]
  {
    TwoDigits(1);
    TwoDigits(0);
  }

  /** The Unix epoch is 0, in both encodings. */
  lemma EpochReadsZero()
    ensures ReadTime(0x17, Ascii("700101000000Z")) == Success(0)
    ensures ReadTime(0x18, Ascii("19700101000000Z")) == Success(0)
  {
    var epoch := Fields(1970, 1, 1, 0, 0, 0);
    EpochIsWritten(epoch);
    EpochInstant(epoch);
    ReadsUtcTime(epoch);
    ReadsGeneralizedTime(epoch);
  }

  lemma EpochInstant(f: Fields)
    requires f == Fields(1970, 1, 1, 0, 0, 0)
    ensures InRange(f) && Instant(f) == 0 && AsRead(f) == f
  {
  }

  lemma EpochIsWritten(f: Fields)
    requires f == Fields(1970, 1, 1, 0, 0, 0)
    ensures UtcText(f) == Ascii("700101000000Z") && GeneralizedText(f) == Ascii("19700101000000Z")
  {
    hide Digits, MonthToSecond;
    EpochIsWrittenAsUtc(f);
    YearDigits();
    TwoDigits(70);
    assert GeneralizedText(f) == [49, 57] + UtcText(f);
    assert Ascii("19700101000000Z") == [49, 57] + Ascii("700101000000Z");
  }

  lemma EpochIsWrittenAsUtc(f: Fields)
    requires f == Fields(1970, 1, 1, 0, 0, 0)
    ensures UtcText(f) == Ascii("700101000000Z")
  {
    hide Digits, MonthToSecond;
    MidnightOfFirst(1970);
    TwoDigits(70);
    assert UtcText(f) == [55, 48] + [48, 49, 48, 49, 48, 48, 48, 48, 48, 48] + [90];
  }

  /** Which digits are which: 12:34:56 on the last of February 2024. */
  lemma LeapDayReads()
    ensures ReadTime(0x17, Ascii("240229123456Z")) == Success(1_709_210_096_000)
  {
    var f := Fields(2024, 2, 29, 12, 34, 56);
    LeapDayInstant(f);
    LeapDayIsWritten(f);
    ReadsUtcTime(f);
  }

  lemma LeapDayInstant(f: Fields)
    requires f == Fields(2024, 2, 29, 12, 34, 56)
    ensures InRange(f) && Instant(f) == 1_709_210_096_000
  {
    assert DaysBeforeMonth(true, 1) == 31;
  }

  lemma LeapDayIsWritten(f: Fields)
    requires f == Fields(2024, 2, 29, 12, 34, 56)
    ensures UtcText(f) == Ascii("240229123456Z")
  {
    TwoDigits(24);
    TwoDigits(2);
    TwoDigits(29);
    TwoDigits(12);
    TwoDigits(34);
    TwoDigits(56);
    assert MonthToSecond(f) == [48, 50, 50, 57, 49, 50, 51, 52, 53, 54];
    assert UtcText(f) == [50, 52] + [48, 50, 50, 57, 49, 50, 51, 52, 53, 54] + [90];
  }

  /** What a GeneralizedTime of these fields reads as. */
  function Read(f: Fields): Result<int, CertificateError>
    requires Fits(f)
  {
    ReadTime(GENERALIZED_TIME, GeneralizedText(f))
  }

  lemma ReadsWritten(f: Fields)
    requires Fits(f)
    ensures Read(f) == ToDate(f)
  {
    ParseDigits(f.year, 4, 10000);
    ReadsFields(GENERALIZED_TIME, Digits(f.year, 4), f.year, f);
    assert f.(year := f.year) == f;
  }

  lemma SlicesOfFive(a: Bytes, b: Bytes, c: Bytes, d: Bytes, e: Bytes)
    requires |a| == |b| == |c| == |d| == |e| == 2
    ensures var s := a + b + c + d + e;
            Slice(s, 0, 2) == a && Slice(s, 2, 4) == b && Slice(s, 4, 6) == c && Slice(s, 6, 8) == d
            && Slice(s, 8, 10) == e
  {
  }

  lemma MonthStarts(leap: bool, month: int)
    requires 0 <= month < 12
    ensures 0 <= DaysBeforeMonth(leap, month) <= 366
  {
    YearLength(leap);
    MonthsDoNotOverlap(leap, month, 12);
    if month > 0 {
      MonthsDoNotOverlap(leap, 0, month);
    }
  }

  lemma YearIsNear(year: int)
    requires 99 <= year <= 10_008
    ensures -800_000 <= DaysBeforeYear(year) <= 3_000_000
  {
  }

  lemma MonthStartIsNear(year: int, month: int)
    requires 100 <= year <= 9999 && -1 <= month < 99
    ensures -1_000_000 <= MonthStart(year, month) <= 4_000_000
  {
    var y := year + month / 12;
    assert -1 <= month / 12 <= 8;
    YearIsNear(y);
    MonthStarts(IsLeap(y), month % 12);
    assert MonthStart(year, month) == DaysBeforeYear(y) + DaysBeforeMonth(IsLeap(y), month % 12);
  }

  lemma WrittenIsNear(f: Fields)
    requires Fits(f)
    ensures ToDate(f).Success?
  {
    MonthStartIsNear(FullYear(f.year), f.month - 1);
  }

  /** The number of milliseconds that the fields count up to. */
  function Count(f: Fields): int {
    (MonthStart(f.year, f.month - 1) + f.day - 1) * 86_400_000
    + f.hour * 3_600_000 + f.minute * 60_000 + f.second * 1000
  }

  lemma ReadsCount(f: Fields)
    requires Fits(f) && f.year >= 100
    ensures Read(f) == Success(Count(f))
  {
    hide ReadTime, MonthStart;
    ReadsWritten(f);
    WrittenIsNear(f);
  }

  function FirstOf(f: Fields): Fields {
    Fields(f.year, f.month, 1, 0, 0, 0)
  }

  lemma CountsFromFirst(f: Fields)
    ensures Count(f) == Count(FirstOf(f)) + (f.day - 1) * 86_400_000
                        + f.hour * 3_600_000 + f.minute * 60_000 + f.second * 1000
  {
  }

  lemma Apart(r: Result<int, CertificateError>, count: int, q: Result<int, CertificateError>, start: int, f: Fields)
    requires r == Success(count) && q == Success(start) && count == Count(f) && start == Count(FirstOf(f))
    ensures r == Success(q.value + (f.day - 1) * 86_400_000
                         + f.hour * 3_600_000 + f.minute * 60_000 + f.second * 1000)
  {
    CountsFromFirst(f);
  }

  /** Whatever two digits stand for the day and the time, from the year 100 on they count from the
      first of the month: each day is 86,400,000 ms, each hour 3,600,000, each minute 60,000 and each
      second 1000. */
  lemma FieldsCount(f: Fields)
    requires Fits(f) && f.year >= 100
    ensures Read(FirstOf(f)).Success?
    ensures Read(f) == Success(Read(FirstOf(f)).value + (f.day - 1) * 86_400_000
                               + f.hour * 3_600_000 + f.minute * 60_000 + f.second * 1000)
  {
    hide ReadTime, MonthStart;
    ReadsCount(f);
    ReadsCount(FirstOf(f));
    Apart(Read(f), Count(f), Read(FirstOf(f)), Count(FirstOf(f)), f);
  }

  lemma MonthStartCarries(year: int, month: int)
    ensures MonthStart(year, month) == MonthStart(year + 1, month - 12)
  {
    assert (month - 12) / 12 == month / 12 - 1 && (month - 12) % 12 == month % 12;
  }

  lemma CountCarries(f: Fields)
    ensures Count(f) == Count(f.(year := f.year + 1, month := f.month - 12))
  {
    hide MonthStart;
    MonthStartCarries(f.year, f.month - 1);
  }

  /** A month past December is one of the next year, and the month 00 the December before. */
  lemma MonthsCarryOver(f: Fields)
    requires Fits(f) && 100 <= f.year < 9999
    ensures f.month > 12 ==> Read(f) == Read(f.(year := f.year + 1, month := f.month - 12))
    ensures f.month == 12 ==> Read(f) == Read(f.(year := f.year + 1, month := 0))
  {
    if f.month >= 12 {
      var g := f.(year := f.year + 1, month := f.month - 12);
      CountCarries(f);
      ReadsCount(f);
      ReadsCount(g);
    }
  }

  /** Thirty days hath September. */
  function LastOfMonth(year: int, month: int): int {
    match month
    case 4 => 30
    case 6 => 30
    case 9 => 30
    case 11 => 30
    case 2 => if (year % 4 == 0 && year % 100 != 0) || year % 400 == 0 then 29 else 28
    case _ => 31
  }

  /** The same time on the next day of the calendar. */
  function NextDay(f: Fields): Fields {
    if f.day < LastOfMonth(f.year, f.month) then f.(day := f.day + 1)
    else if f.month < 12 then f.(month := f.month + 1, day := 1)
    else f.(year := f.year + 1, month := 1, day := 1)
  }

  /** Each calendar day from the year 100 on reads exactly 86,400,000 ms after the one before it, over
      the ends of months and years and over leap days. */
  lemma DaysFollowEachOther(f: Fields)
    requires InRange(f) && f.year >= 100 && NextDay(f).year <= 9999
    ensures InRange(NextDay(f)) && Read(f).Success?
    ensures Read(NextDay(f)) == Success(Read(f).value + 86_400_000)
  {
    hide ReadTime, Instant;
    NextInstant(f);
    ReadsInstant(f);
    ReadsInstant(NextDay(f));
  }

  lemma NextInstant(f: Fields)
    requires InRange(f) && NextDay(f).year <= 9999
    ensures InRange(NextDay(f)) && Instant(NextDay(f)) == Instant(f) + 86_400_000
  {
    NextDayNumber(f);
  }

  lemma ReadsInstant(f: Fields)
    requires InRange(f) && f.year >= 100
    ensures Read(f) == Success(Instant(f))
  {
    ReadsGeneralizedTime(f);
  }

  lemma NextDayNumber(f: Fields)
    requires InRange(f) && NextDay(f).year <= 9999
    ensures InRange(NextDay(f)) && DayNumber(NextDay(f)) == DayNumber(f) + 1
  {
    assert LastOfMonth(f.year, f.month) == DaysInMonth(IsLeap(f.year), f.month - 1);
    if f.day < LastOfMonth(f.year, f.month) {
    } else if f.month < 12 {
      NextMonthNumber(f);
    } else {
      NextYearNumber(f);
    }
  }

  lemma NextMonthNumber(f: Fields)
    requires InRange(f) && f.day == DaysInMonth(IsLeap(f.year), f.month - 1) && f.month < 12
    ensures DayNumber(f.(month := f.month + 1, day := 1)) == DayNumber(f) + 1
  {
  }

  lemma NextYearNumber(f: Fields)
    requires InRange(f) && f.day == 31 && f.month == 12 && f.year < 9999
    ensures DayNumber(f.(year := f.year + 1, month := 1, day := 1)) == DayNumber(f) + 1
  {
    NextYear(f.year);
    YearLength(IsLeap(f.year));
  }

  // ---- Every text ----

  predicate AllDigits(text: Bytes) {
    forall b <- text :: '0' as int <= b <= '9' as int
  }

  lemma {:induction false} NumbersAreDigits(text: Bytes)
    ensures ParseNumber(text).Some? <==> AllDigits(text)
  {
    if text != [] {
      var n := |text| - 1;
      NumbersAreDigits(text[..n]);
      AllDigitsOfBoth(text[..n], [text[n]]);
      assert text == text[..n] + [text[n]];
      assert AllDigits([text[n]]) <==> IsDigit(text[n]) by {
        assert text[n] in [text[n]];
      }
    }
  }

  lemma NumberIsShort(text: Bytes)
    requires |text| <= 4 && ParseNumber(text).Some?
    ensures ParseNumber(text).value
            < match |text| case 0 => 1 case 1 => 10 case 2 => 100 case 3 => 1000 case _ => 10_000
  {
    if text != [] {
      NumberIsShort(text[..|text| - 1]);
    }
  }

  lemma SliceSplits(text: Bytes, a: nat, b: nat, c: nat)
    requires a <= b <= c
    ensures Slice(text, a, c) == Slice(text, a, b) + Slice(text, b, c)
  {
  }

  lemma SliceOfRest(text: Bytes, width: nat, a: nat, b: nat)
    requires a <= b
    ensures Slice(Slice(text, width, if |text| > width then |text| else width), a, b)
            == Slice(text, width + a, width + b)
  {
    if width + a < |text| {
      var end := if width + b <= |text| then width + b else |text|;
      assert Slice(text, width, |text|) == text[width..];
      assert text[width..][a..end - width] == text[width + a..end];
    }
  }

  function Width(tag: byte): nat {
    if tag == UTC_TIME then 2 else 4
  }

  /** The bytes of a time that are looked at: all but a final Z, as far as the seconds. */
  function Looked(tag: byte, text: Bytes): Bytes {
    Slice(WithoutZ(text), 0, Width(tag) + 10)
  }

  lemma LookedIsSixParts(tag: byte, text: Bytes)
    ensures var t, w := WithoutZ(text), Width(tag);
            Looked(tag, text)
            == Slice(t, 0, w) + (Slice(t, w, w + 2) + (Slice(t, w + 2, w + 4)
                + (Slice(t, w + 4, w + 6) + (Slice(t, w + 6, w + 8) + Slice(t, w + 8, w + 10)))))
  {
    var t, w := WithoutZ(text), Width(tag);
    SliceSplits(t, 0, w, w + 10);
    SliceSplits(t, w, w + 2, w + 10);
    SliceSplits(t, w + 2, w + 4, w + 10);
    SliceSplits(t, w + 4, w + 6, w + 10);
    SliceSplits(t, w + 6, w + 8, w + 10);
  }

  lemma ReadsSlices(tag: byte, text: Bytes)
    ensures var t, w := WithoutZ(text), Width(tag);
            var year, month, day := Slice(t, 0, w), Slice(t, w, w + 2), Slice(t, w + 2, w + 4);
            var hour, minute, second := Slice(t, w + 4, w + 6), Slice(t, w + 6, w + 8), Slice(t, w + 8, w + 10);
            && (ReadFields(tag, text).Some? <==>
                  && ParseNumber(year).Some? && ParseNumber(month).Some? && ParseNumber(day).Some?
                  && ParseNumber(hour).Some? && ParseNumber(minute).Some? && ParseNumber(second).Some?)
            && (ReadFields(tag, text).Some? ==>
                  ReadFields(tag, text).value
                  == Fields(if tag != UTC_TIME then ParseNumber(year).value
                            else ParseNumber(year).value + if ParseNumber(year).value < 50 then 2000 else 1900,
                            ParseNumber(month).value, ParseNumber(day).value, ParseNumber(hour).value,
                            ParseNumber(minute).value, ParseNumber(second).value))
  {
    hide ParseNumber;
    var t, w := WithoutZ(text), Width(tag);
    SliceOfRest(t, w, 0, 2);
    SliceOfRest(t, w, 2, 4);
    SliceOfRest(t, w, 4, 6);
    SliceOfRest(t, w, 6, 8);
    SliceOfRest(t, w, 8, 10);
  }

  lemma AllDigitsOfBoth(a: Bytes, b: Bytes)
    ensures AllDigits(a + b) <==> AllDigits(a) && AllDigits(b)
  {
    if AllDigits(a + b) {
      forall x <- a ensures '0' as int <= x <= '9' as int {
        assert x in a + b;
      }
      forall x <- b ensures '0' as int <= x <= '9' as int {
        assert x in a + b;
      }
    }
  }

  lemma SixParts(a: Bytes, b: Bytes, c: Bytes, d: Bytes, e: Bytes, f: Bytes)
    ensures AllDigits(a + (b + (c + (d + (e + f)))))
            <==> && ParseNumber(a).Some? && ParseNumber(b).Some? && ParseNumber(c).Some?
                 && ParseNumber(d).Some? && ParseNumber(e).Some? && ParseNumber(f).Some?
  {
    AllDigitsOfBoth(a, b + (c + (d + (e + f))));
    AllDigitsOfBoth(b, c + (d + (e + f)));
    AllDigitsOfBoth(c, d + (e + f));
    AllDigitsOfBoth(d, e + f);
    AllDigitsOfBoth(e, f);
    NumbersAreDigits(a);
    NumbersAreDigits(b);
    NumbersAreDigits(c);
    NumbersAreDigits(d);
    NumbersAreDigits(e);
    NumbersAreDigits(f);
  }

  /** A time is refused exactly when one of the bytes that are looked at is no digit; what follows the
      seconds does not matter. */
  lemma RefusedExactlyWhen(tag: byte, text: Bytes)
    ensures ReadTime(tag, text).Failure? <==> !AllDigits(Looked(tag, text))
    ensures ReadTime(tag, text).Failure? ==> ReadTime(tag, text).error == InvalidDate
    ensures AllDigits(Looked(tag, text)) ==> ReadTime(tag, text) == ReadTime(tag, Looked(tag, text))
  {
    var t, w := WithoutZ(text), Width(tag);
    LookedIsSixParts(tag, text);
    ReadsSlices(tag, text);
    SixParts(Slice(t, 0, w), Slice(t, w, w + 2), Slice(t, w + 2, w + 4), Slice(t, w + 4, w + 6),
             Slice(t, w + 6, w + 8), Slice(t, w + 8, w + 10));
    if AllDigits(Looked(tag, text)) {
      ReadIsNear(tag, text);
      LooksAgain(tag, text);
    }
  }

  lemma ReadIsNear(tag: byte, text: Bytes)
    requires ReadFields(tag, text).Some?
    ensures ToDate(ReadFields(tag, text).value).Success?
  {
    var t, w := WithoutZ(text), Width(tag);
    hide ParseNumber, ReadFields, ToDate;
    ReadsSlices(tag, text);
    NumberIsShort(Slice(t, 0, w));
    NumberIsShort(Slice(t, w, w + 2));
    NumberIsShort(Slice(t, w + 2, w + 4));
    NumberIsShort(Slice(t, w + 4, w + 6));
    NumberIsShort(Slice(t, w + 6, w + 8));
    NumberIsShort(Slice(t, w + 8, w + 10));
    WrittenIsNear(ReadFields(tag, text).value);
  }

  lemma LooksAgain(tag: byte, text: Bytes)
    requires AllDigits(Looked(tag, text)) && ReadFields(tag, text).Some?
    ensures ReadFields(tag, Looked(tag, text)) == ReadFields(tag, text)
  {
    hide ParseNumber, ReadFields;
    var t, w, looked := WithoutZ(text), Width(tag), Looked(tag, text);
    assert looked != [] ==> looked[|looked| - 1] in looked;
    assert WithoutZ(looked) == looked;
    ReadsSlices(tag, text);
    ReadsSlices(tag, looked);
    SliceOfPrefix(t, w + 10, 0, w);
    SliceOfPrefix(t, w + 10, w, w + 2);
    SliceOfPrefix(t, w + 10, w + 2, w + 4);
    SliceOfPrefix(t, w + 10, w + 4, w + 6);
    SliceOfPrefix(t, w + 10, w + 6, w + 8);
    SliceOfPrefix(t, w + 10, w + 8, w + 10);
  }

  lemma SliceOfPrefix(text: Bytes, n: nat, a: nat, b: nat)
    requires a <= b <= n
    ensures Slice(Slice(text, 0, n), a, b) == Slice(text, a, b)
  {
  }

  /** And fields that are missing at the end, as the seconds may be, read as 00. */
  lemma MissingReadsZero(tag: byte, text: Bytes)
    requires AllDigits(text) && |text| % 2 == 0 && Width(tag) <= |text| < Width(tag) + 10
    ensures ReadTime(tag, text) == ReadTime(tag, text + Ascii("00"))
  {
    hide ParseNumber, ReadFields, ToDate;
    var longer := text + Ascii("00");
    assert text[|text| - 1] in text && longer[|longer| - 1] == '0' as int;
    ReadsSlices(tag, text);
    ReadsSlices(tag, longer);
    var w := Width(tag);
    assert Slice(longer, 0, w) == Slice(text, 0, w);
    PartOfLonger(text, longer, w);
    PartOfLonger(text, longer, w + 2);
    PartOfLonger(text, longer, w + 4);
    PartOfLonger(text, longer, w + 6);
    PartOfLonger(text, longer, w + 8);
  }

  lemma PartOfLonger(text: Bytes, longer: Bytes, from: nat)
    requires longer == text + Ascii("00") && |text| % 2 == 0 == from % 2
    ensures ParseNumber(Slice(longer, from, from + 2)) == ParseNumber(Slice(text, from, from + 2))
  {
    if from == |text| {
      var zeros := Slice(longer, from, from + 2);
      assert zeros[1] == zeros[0] == 48 && zeros[..1][..0] == [];
      assert ParseNumber(zeros[..1]) == Some(0);
    } else if from < |text| {
      assert Slice(longer, from, from + 2) == Slice(text, from, from + 2);
    }
  }

  /** `a` was read as an earlier instant than `b`. */
  predicate Earlier(a: Result<int, CertificateError>, b: Result<int, CertificateError>) {
    a.Success? && b.Success? && a.value < b.value
  }

  /** The two encodings of one instant agree. */
  lemma EncodingsAgree(f: Fields)
    requires InRange(f) && 1950 <= f.year <= 2049
    ensures ReadTime(UTC_TIME, UtcText(f)) == ReadTime(GENERALIZED_TIME, GeneralizedText(f))
  {
    ReadsUtcTime(f);
    ReadsGeneralizedTime(f);
  }

  /** For any two GeneralizedTimes, a before b, `readTime` keeps the order exactly when it still holds
      of the dates they are taken for; from the year 100 on it always does. */
  lemma ReadTimeIsMonotone(a: Fields, b: Fields)
    requires InRange(a) && InRange(b) && Before(a, b)
    ensures Earlier(ReadTime(GENERALIZED_TIME, GeneralizedText(a)), ReadTime(GENERALIZED_TIME, GeneralizedText(b)))
            <==> Before(AsRead(a), AsRead(b))
    ensures a.year >= 100 ==> Before(AsRead(a), AsRead(b))
  {
    ReadsGeneralizedTime(a);
    ReadsGeneralizedTime(b);
    if Before(AsRead(a), AsRead(b)) {
      InstantsAreOrdered(AsRead(a), AsRead(b));
    } else if AsRead(a) != AsRead(b) {
      InstantsAreOrdered(AsRead(b), AsRead(a));
    }
  }

  /** Every UTCTime is in order. */
  lemma ReadUtcTimeIsMonotone(a: Fields, b: Fields)
    requires InRange(a) && InRange(b) && 1950 <= a.year && b.year <= 2049 && Before(a, b)
    ensures Earlier(ReadTime(UTC_TIME, UtcText(a)), ReadTime(UTC_TIME, UtcText(b)))
  {
    ReadsUtcTime(a);
    ReadsUtcTime(b);
    InstantsAreOrdered(a, b);
  }

  /** The leap day of the year 0 reads as the day after it. */
  lemma LeapDayIsNotInOrder()
    ensures var a, b := Fields(0, 2, 29, 0, 0, 0), Fields(0, 3, 1, 0, 0, 0);
            && InRange(a) && InRange(b) && Before(a, b)
            && ReadTime(GENERALIZED_TIME, GeneralizedText(a)) == ReadTime(GENERALIZED_TIME, GeneralizedText(b))
  {
    ReadsGeneralizedTime(Fields(0, 2, 29, 0, 0, 0));
    ReadsGeneralizedTime(Fields(0, 3, 1, 0, 0, 0));
  }

  /** The year 99 reads as 1999, after the year 100. */
  lemma YearsBelow100AreOutOfOrder()
    ensures var a, b := Fields(99, 1, 1, 0, 0, 0), Fields(100, 1, 1, 0, 0, 0);
            && Before(a, b)
            && Earlier(ReadTime(GENERALIZED_TIME, GeneralizedText(b)), ReadTime(GENERALIZED_TIME, GeneralizedText(a)))
  {
    var a, b := Fields(99, 1, 1, 0, 0, 0), Fields(100, 1, 1, 0, 0, 0);
    ReadsGeneralizedTime(a);
    ReadsGeneralizedTime(b);
    InstantsAreOrdered(b, AsRead(a));
  }
}
