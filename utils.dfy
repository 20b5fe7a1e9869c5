/**
 * The request-parameter validators (utils/utils.go).
 *
 * Go strings are byte strings: `len` counts bytes and the checks look at
 * bytes, so the inputs here are byte sequences. The clock read of
 * ValidateDate is a parameter.
 */
module Utils {
  import opened Wrappers

  newtype byte = b: int | 0 <= b < 256

  /** A Go string, as its bytes. */
  type GoString = seq<byte>

  const Plus: byte := 0x2B
  const Minus: byte := 0x2D

  predicate IsDigit(b: byte) {
    0x30 <= b <= 0x39
  }

  predicate AllDigits(s: GoString) {
    forall i :: 0 <= i < |s| ==> IsDigit(s[i])
  }

  /**
   * What strconv.Atoi accepts, for inputs short enough that the value cannot
   * overflow: an optional '+' or '-', then one or more decimal digits.
   */
  function AtoiAccepts(s: GoString): (accepted: bool)
    ensures accepted <==> (|s| > 0 && AllDigits(s)) || (|s| > 1 && (s[0] == Plus || s[0] == Minus) && AllDigits(s[1..]))
  {
    assert |s| > 0 && AllDigits(s) ==> IsDigit(s[0]);
    var digits := if |s| > 0 && (s[0] == Plus || s[0] == Minus) then s[1..] else s;
    |digits| > 0 && AllDigits(digits)
  }

  // ---------------------------------------------------------------------------
  // ValidateNumeroUtente

  datatype NumeroUtenteError = Missing | WrongLength | NotNumeric {
    function Text(): string {
      match this
      case Missing => "Numero utente parameter is missing"
      case WrongLength => "Numero utente must be exactly 9 digits long"
      case NotNumeric => "Numero utente must contain only numbers"
    }
  }

  /** The missing check first, then the byte length, then Atoi; None means valid. */
  function ValidateNumeroUtente(numeroUtente: GoString): (err: Option<NumeroUtenteError>)
    ensures err == Some(Missing) <==> numeroUtente == []
    ensures err == Some(WrongLength) <==> numeroUtente != [] && |numeroUtente| != 9
    ensures err == Some(NotNumeric) <==> |numeroUtente| == 9 && !AtoiAccepts(numeroUtente)
  {
    if numeroUtente == [] then Some(Missing)
    else if |numeroUtente| != 9 then Some(WrongLength)
    else if !AtoiAccepts(numeroUtente) then Some(NotNumeric)
    else None
  }

  /** Exactly the nine-digit strings are valid, and, because the check is Atoi, a sign followed by eight digits. */
  lemma NumeroUtenteAccepted(s: GoString)
    ensures ValidateNumeroUtente(s) == None <==>
            |s| == 9 && (AllDigits(s) || ((s[0] == Plus || s[0] == Minus) && AllDigits(s[1..])))
  {
    if |s| == 9 && AllDigits(s) {
      assert IsDigit(s[0]);
    }
  }

  // ---------------------------------------------------------------------------
  // Calendar

  datatype Date = Date(year: int, month: int, day: int)

  /** The nanoseconds in a day. */
  const NanosPerDay: nat := 86400 * 1000000000

  /** A time of day, as the nanoseconds elapsed since midnight. */
  type TimeOfDay = n: nat | n < NanosPerDay

  /** An instant, as its UTC calendar date and its time of day. */
  datatype Instant = Instant(date: Date, nanosecond: TimeOfDay)

  /** Go's isLeap (Go's `%` truncates, but only divisibility is tested, so the two agree). */
  predicate IsLeap(year: int) {
    year % 4 == 0 && (year % 100 != 0 || year % 400 == 0)
  }

  /** Go's daysBefore table: the days before the first of each month of a common year. */
  const DaysBefore: seq<int> := [0, 31, 59, 90, 120, 151, 181, 212, 243, 273, 304, 334, 365]

  /** Go's daysIn. */
  function DaysIn(month: int, year: int): int
    requires 1 <= month <= 12
  {
    if month == 2 && IsLeap(year) then 29 else DaysBefore[month] - DaysBefore[month - 1]
  }

  /** The Gregorian month lengths, as the rhyme has them. */
  function GregorianMonthLength(month: int, year: int): int
    requires 1 <= month <= 12
  {
    if month == 2 then (if IsLeap(year) then 29 else 28)
    else if month == 4 || month == 6 || month == 9 || month == 11 then 30
    else 31
  }

  /** A date a four-digit year layout can produce. */
  predicate ValidDate(d: Date) {
    0 <= d.year <= 9999 && 1 <= d.month <= 12 && 1 <= d.day <= DaysIn(d.month, d.year)
  }

  predicate DateBefore(a: Date, b: Date) {
    || a.year < b.year
    || (a.year == b.year && a.month < b.month)
    || (a.year == b.year && a.month == b.month && a.day < b.day)
  }

  /** time.Time.Before on instants given in UTC. */
  predicate InstantBefore(a: Instant, b: Instant) {
    DateBefore(a.date, b.date) || (a.date == b.date && a.nanosecond < b.nanosecond)
  }

  /** time.Date(year, month+1, 1, ...): the first of the next month, December rolling over into January. */
  function FirstOfNextMonth(year: int, month: int): Date
    requires 1 <= month <= 12
  {
    if month == 12 then Date(year + 1, 1, 1) else Date(year, month + 1, 1)
  }

  /** Adding -24 hours to a midnight UTC: the calendar day before. */
  function PreviousDay(d: Date): Date
    requires 1 <= d.month <= 12
  {
    if d.day > 1 then Date(d.year, d.month, d.day - 1)
    else if d.month > 1 then Date(d.year, d.month - 1, DaysIn(d.month - 1, d.year))
    else Date(d.year - 1, 12, DaysIn(12, d.year - 1))
  }

  /** The day of the month of the day before the first of the next month: the month's length. */
  function LastDayOfMonth(year: int, month: int): (last: int)
    requires 1 <= month <= 12
    ensures last == GregorianMonthLength(month, year)
  {
    PreviousDay(FirstOfNextMonth(year, month)).day
  }

  // ---------------------------------------------------------------------------
  // The layout "2006-01-02"

  function DigitValue(b: byte): int
    requires IsDigit(b)
  {
    b as int - 0x30
  }

  function DigitByte(n: int): byte
    requires 0 <= n <= 9
  {
    (n + 0x30) as byte
  }

  /** The value of a run of decimal digits. */
  function Number(s: GoString): (n: nat)
    requires AllDigits(s)
  {
    if s == [] then 0 else 10 * Number(s[..|s| - 1]) + DigitValue(s[|s| - 1]) as nat
  }

  /** The `width` decimal digits of `n`, with leading zeros. */
  function Digits(n: nat, width: nat): (s: GoString)
    ensures |s| == width && AllDigits(s)
  {
    if width == 0 then [] else Digits(n / 10, width - 1) + [DigitByte(n % 10)]
  }

  lemma InitDigits(s: GoString)
    requires AllDigits(s) && s != []
    ensures AllDigits(s[..|s| - 1])
  {
    var init := s[..|s| - 1];
    forall i | 0 <= i < |init| ensures IsDigit(init[i]) {
      assert init[i] == s[i];
    }
  }

  /** Reading back the digits of a number that fits its width gives the number. */
  lemma {:induction false} NumberOfDigits(n: nat, width: nat, bound: nat)
    requires bound == Power10(width) && n < bound
    ensures Number(Digits(n, width)) == n
  {
    if width > 0 {
      var s := Digits(n, width);
      assert s[..|s| - 1] == Digits(n / 10, width - 1);
      NumberOfDigits(n / 10, width - 1, Power10(width - 1));
    }
  }

  /** Writing out the value of a run of digits at its own width gives the run. */
  lemma {:induction false} DigitsOfNumber(s: GoString)
    requires AllDigits(s)
    ensures Digits(Number(s), |s|) == s
  {
    if s != [] {
      var init := s[..|s| - 1];
      InitDigits(s);
      var n := Number(s);
      assert IsDigit(s[|s| - 1]);
      assert n / 10 == Number(init) && n % 10 == DigitValue(s[|s| - 1]);
      DigitsOfNumber(init);
      assert s == init + [s[|s| - 1]];
    }
  }

  /** A run of digits is worth less than ten to the power of its length. */
  lemma {:induction false} NumberBelow(s: GoString)
    requires AllDigits(s)
    ensures Number(s) < Power10(|s|)
  {
    if s != [] {
      var init := s[..|s| - 1];
      InitDigits(s);
      NumberBelow(init);
    }
  }

  function Power10(width: nat): nat {
    if width == 0 then 1 else 10 * Power10(width - 1)
  }

  /** The ten bytes "YYYY-MM-DD" of a date. */
  function FormatDate(d: Date): (s: GoString)
    requires ValidDate(d)
    ensures |s| == 10
  {
    Digits(d.year, 4) + [Minus] + Digits(d.month, 2) + [Minus] + Digits(d.day, 2)
  }

  /** The layout's shape: four digits, '-', two digits, '-', two digits. */
  predicate LayoutShape(s: GoString) {
    |s| == 10 && s[4] == Minus && s[7] == Minus
    && AllDigits(s[..4]) && AllDigits(s[5..7]) && AllDigits(s[8..])
  }

  /** The date a text of the layout's shape spells, with its fields unchecked. */
  function Fields(s: GoString): Date
    requires LayoutShape(s)
  {
    Date(Number(s[..4]), Number(s[5..7]), Number(s[8..]))
  }

  /** A text of the layout's shape whose month and day are in range is the formatting of the date it spells. */
  lemma FieldsRoundTrip(s: GoString)
    requires LayoutShape(s)
    requires 1 <= Fields(s).month <= 12 && 1 <= Fields(s).day <= DaysIn(Fields(s).month, Fields(s).year)
    ensures ValidDate(Fields(s)) && FormatDate(Fields(s)) == s
  {
    NumberBelow(s[..4]);
    DigitsOfNumber(s[..4]);
    DigitsOfNumber(s[5..7]);
    DigitsOfNumber(s[8..]);
    assert s == s[..4] + [Minus] + s[5..7] + [Minus] + s[8..];
  }

  /**
   * time.Parse with layout "2006-01-02": exactly four digits of year, '-', two
   * of month, '-', two of day, nothing more; the month in 1..12 and the day
   * within the month.
   */
  function ParseDate(s: GoString): (r: Option<Date>)
    ensures r.Some? ==> ValidDate(r.value) && FormatDate(r.value) == s
  {
    if LayoutShape(s) then
      var d := Fields(s);
      if 1 <= d.month <= 12 && 1 <= d.day <= DaysIn(d.month, d.year) then
        FieldsRoundTrip(s);
        Some(d)
      else None
    else None
  }

  /** Every date the layout can express is parsed back from its formatting. */
  lemma ParseFormatDate(d: Date)
    requires ValidDate(d)
    ensures ParseDate(FormatDate(d)) == Some(d)
  {
    var s := FormatDate(d);
    assert s[..4] == Digits(d.year, 4) && s[5..7] == Digits(d.month, 2) && s[8..] == Digits(d.day, 2);
    NumberOfDigits(d.year, 4, Power10(4));
    NumberOfDigits(d.month, 2, Power10(2));
    NumberOfDigits(d.day, 2, Power10(2));
    assert LayoutShape(s);
  }

  // ---------------------------------------------------------------------------
  // ValidateDate

  datatype DateError = Empty | BadFormat | BeforeCurrentDate | OutOfRange {
    function Text(): string {
      match this
      case Empty => "Date parameter is empty"
      case BadFormat => "Date is not in correct format"
      case BeforeCurrentDate => "Date is before current date"
      case OutOfRange => "Date is out of range"
    }
  }

  /**
   * The empty check, the layout, then the parsed midnight UTC against `now`,
   * then the range check as written, with `&&`.
   */
  function ValidateDate(date: GoString, now: Instant): (err: Option<DateError>)
    ensures err == Some(Empty) <==> date == []
    ensures err == Some(BadFormat) <==> date != [] && ParseDate(date).None?
    ensures err == Some(BeforeCurrentDate) <==> ParseDate(date).Some? && !DateBefore(now.date, ParseDate(date).value)
    ensures err == None <==> ParseDate(date).Some? && DateBefore(now.date, ParseDate(date).value)
    ensures err != Some(OutOfRange)
  {
    if date == [] then Some(Empty)
    else match ParseDate(date)
      case None => Some(BadFormat)
      case Some(parsed) =>
        var midnight := Instant(parsed, 0);
        if InstantBefore(midnight, now) || midnight == now then Some(BeforeCurrentDate)
        else
          var day := parsed.day;
          var lastDayOfMonth := LastDayOfMonth(parsed.year, parsed.month);
          if day < 1 && day > lastDayOfMonth then Some(OutOfRange) else None
  }

  /** A date written in the layout is accepted exactly when it is a later calendar day than today's. */
  lemma ValidateFormattedDate(d: Date, now: Instant)
    requires ValidDate(d)
    ensures ValidateDate(FormatDate(d), now) == None <==> DateBefore(now.date, d)
  {
    ParseFormatDate(d);
  }
}
