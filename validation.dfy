/**
 * The checks the Generate button runs before it sends anything, the
 * conversion of `<input type="time">` values to 12-hour text, and the name of
 * the PDF file. The page elements are read into a `FormInputs` value; an
 * element that is missing reads as `None` (JavaScript's `undefined`).
 */
module Validation {
  import opened Wrappers
  import opened Text

  // ------------------------------------------------------------------ inputs

  datatype FormInputs = FormInputs(
    studentFiles: nat,              // files chosen in the students CSV input
    classroomFiles: nat,            // files chosen in the classrooms CSV input
    selectedYears: nat,             // size of the set of toggled year buttons
    datePicker: Option<string>,     // value of the date picker
    manualDate: Option<string>,     // value of the typed date, before trimming
    startTime: Option<string>,
    endTime: Option<string>)

  /** JavaScript truthiness of a string that may be `undefined`. */
  predicate Truthy(v: Option<string>)
  {
    v.Some? && v.value != ""
  }

  /** The typed date after `trim()`, or `""` when the element is missing. */
  function ManualText(f: FormInputs): string
  {
    match f.manualDate
    case None => ""
    case Some(s) => Trim(s)
  }

  // ------------------------------------------------------------------ errors

  datatype FormError =
    | MissingFiles
    | NoYears
    | BadManualDate
    | MissingDate
    | MissingTimes
    | TimesOutOfOrder

  /** The text `showError` displays for each failed check. */
  function Message(e: FormError): string
  {
    match e
    case MissingFiles => "Please upload both CSV files"
    case NoYears => "Please select at least one academic year"
    case BadManualDate => "Enter date in DD/MM/YYYY format"
    case MissingDate => "Please select or enter exam date"
    case MissingTimes => "Please select exam start and end time"
    case TimesOutOfOrder => "End time must be after start time"
  }

  lemma {:induction false} MessagesDistinct(e: FormError, e': FormError)
    requires e != e'
    ensures Message(e) != Message(e')
  {
    MessageLengths();
    assert |Message(e)| != |Message(e')|;
  }

  /** The six messages have six different lengths. */
  lemma {:induction false} MessageLengths()
    ensures |Message(MissingFiles)| == 28 && |Message(NoYears)| == 40 && |Message(BadManualDate)| == 31
    ensures |Message(MissingDate)| == 32 && |Message(MissingTimes)| == 37 && |Message(TimesOutOfOrder)| == 33
  {
  }

  // -------------------------------------------------------------- date check

  /** `/^\d{2}\/\d{2}\/\d{4}$/.test(s)`. */
  predicate DatePattern(s: string)
  {
    |s| == 10 && s[2] == '/' && s[5] == '/'
    && IsDigit(s[0]) && IsDigit(s[1]) && IsDigit(s[3]) && IsDigit(s[4])
    && IsDigit(s[6]) && IsDigit(s[7]) && IsDigit(s[8]) && IsDigit(s[9])
  }

  /**
   * A date that passes the pattern is two digits, two digits and four digits
   * joined by slashes, so splitting it at `/` gives exactly those three parts.
   */
  lemma {:induction false} DatePatternParts(s: string)
    requires DatePattern(s)
    ensures Split(s, '/') == [s[..2], s[3..5], s[6..]]
    ensures AllDigits(s[..2]) && AllDigits(s[3..5]) && AllDigits(s[6..]) && |s[6..]| == 4
  {
    var dd, mm, yyyy := s[..2], s[3..5], s[6..];
    assert s == dd + ['/'] + (mm + ['/'] + yyyy);
    SplitPrefix(dd, '/', mm + ['/'] + yyyy);
    SplitPrefix(mm, '/', yyyy);
    SplitNoSeparator(yyyy, '/');
  }

  /**
   * The exam date: a non-blank typed date wins and must match the pattern;
   * otherwise the picker's value, converted by `pickerDate`
   * (`new Date(v).toLocaleDateString('en-GB')`); otherwise an error.
   */
  function ExamDateOf(f: FormInputs, pickerDate: string -> string): Result<string, FormError>
  {
    var manual := ManualText(f);
    if manual != "" then
      if DatePattern(manual) then Success(manual) else Failure(BadManualDate)
    else if Truthy(f.datePicker) then Success(pickerDate(f.datePicker.value))
    else Failure(MissingDate)
  }

  // -------------------------------------------------------- the whole chain

  datatype Accepted = Accepted(examDate: string, startTime: string, endTime: string)

  /** The guard chain of the Generate handler: the first failing check wins. */
  function Validate(f: FormInputs, pickerDate: string -> string): Result<Accepted, FormError>
  {
    if f.studentFiles == 0 || f.classroomFiles == 0 then Failure(MissingFiles)
    else if f.selectedYears == 0 then Failure(NoYears)
    else match ExamDateOf(f, pickerDate)
      case Failure(e) => Failure(e)
      case Success(date) =>
        if !Truthy(f.startTime) || !Truthy(f.endTime) then Failure(MissingTimes)
        else if LexLessEq(f.endTime.value, f.startTime.value) then Failure(TimesOutOfOrder)
        else Success(Accepted(date, f.startTime.value, f.endTime.value))
  }

  /** Each check on its own, independent of the others. */
  predicate Fails(e: FormError, f: FormInputs)
  {
    match e
    case MissingFiles => f.studentFiles == 0 || f.classroomFiles == 0
    case NoYears => f.selectedYears == 0
    case BadManualDate => ManualText(f) != "" && !DatePattern(ManualText(f))
    case MissingDate => ManualText(f) == "" && !Truthy(f.datePicker)
    case MissingTimes => !Truthy(f.startTime) || !Truthy(f.endTime)
    case TimesOutOfOrder =>
      Truthy(f.startTime) && Truthy(f.endTime) && LexLessEq(f.endTime.value, f.startTime.value)
  }

  /** The position of each check in the chain. */
  function Rank(e: FormError): nat
  {
    match e
    case MissingFiles => 0
    case NoYears => 1
    case BadManualDate => 2
    case MissingDate => 3
    case MissingTimes => 4
    case TimesOutOfOrder => 5
  }

  /**
   * The chain reports an error exactly when that check fails and every check
   * before it passes, and accepts exactly when no check fails.
   */
  lemma {:induction false} ValidateFirstFailure(f: FormInputs, pickerDate: string -> string)
    ensures forall e :: Validate(f, pickerDate) == Failure(e)
              <==> Fails(e, f) && forall e' :: Rank(e') < Rank(e) ==> !Fails(e', f)
    ensures Validate(f, pickerDate).Success? <==> forall e :: !Fails(e, f)
  {
    forall e ensures Validate(f, pickerDate) == Failure(e)
                 <==> Fails(e, f) && forall e' :: Rank(e') < Rank(e) ==> !Fails(e', f)
    {
      ValidateStopsAt(f, pickerDate, e);
      PassedBelow(f, Rank(e));
    }
    assert Validate(f, pickerDate).Success? <==> PassedBefore(f, 6) by {
      assert Rank(TimesOutOfOrder) == 5;
    }
    PassedBelow(f, 6);
  }

  /** The checks of rank below `r` all pass. */
  predicate PassedBefore(f: FormInputs, r: nat)
  {
    && (r > 0 ==> !Fails(MissingFiles, f))
    && (r > 1 ==> !Fails(NoYears, f))
    && (r > 2 ==> !Fails(BadManualDate, f))
    && (r > 3 ==> !Fails(MissingDate, f))
    && (r > 4 ==> !Fails(MissingTimes, f))
    && (r > 5 ==> !Fails(TimesOutOfOrder, f))
  }

  lemma {:induction false} PassedBelow(f: FormInputs, r: nat)
    ensures PassedBefore(f, r) <==> forall e :: Rank(e) < r ==> !Fails(e, f)
  {
    assert Rank(MissingFiles) == 0 && Rank(NoYears) == 1 && Rank(BadManualDate) == 2;
    assert Rank(MissingDate) == 3 && Rank(MissingTimes) == 4 && Rank(TimesOutOfOrder) == 5;
  }

  /** The chain stops at a check exactly when that check fails and the earlier ones pass. */
  lemma {:induction false} ValidateStopsAt(f: FormInputs, pickerDate: string -> string, e: FormError)
    ensures Validate(f, pickerDate) == Failure(e) <==> Fails(e, f) && PassedBefore(f, Rank(e))
  {
    if e == MissingFiles || e == NoYears {
      StopsAtUpload(f, pickerDate, e);
    } else if e == BadManualDate || e == MissingDate {
      StopsAtDate(f, pickerDate, e);
    } else {
      StopsAtTimes(f, pickerDate, e);
    }
  }

  lemma {:induction false} StopsAtUpload(f: FormInputs, pickerDate: string -> string, e: FormError)
    requires e == MissingFiles || e == NoYears
    ensures Validate(f, pickerDate) == Failure(e) <==> Fails(e, f) && PassedBefore(f, Rank(e))
  {
  }

  lemma {:induction false} StopsAtDate(f: FormInputs, pickerDate: string -> string, e: FormError)
    requires e == BadManualDate || e == MissingDate
    ensures Validate(f, pickerDate) == Failure(e) <==> Fails(e, f) && PassedBefore(f, Rank(e))
  {
    ExamDateOutcome(f, pickerDate);
  }

  lemma {:induction false} StopsAtTimes(f: FormInputs, pickerDate: string -> string, e: FormError)
    requires e == MissingTimes || e == TimesOutOfOrder
    ensures Validate(f, pickerDate) == Failure(e) <==> Fails(e, f) && PassedBefore(f, Rank(e))
  {
    ExamDateOutcome(f, pickerDate);
  }

  /** The date check fails with the typed-date error or the missing-date error exactly when that check fails. */
  lemma {:induction false} ExamDateOutcome(f: FormInputs, pickerDate: string -> string)
    ensures ExamDateOf(f, pickerDate) == Failure(BadManualDate) <==> Fails(BadManualDate, f)
    ensures ExamDateOf(f, pickerDate) == Failure(MissingDate) <==> Fails(MissingDate, f)
    ensures ExamDateOf(f, pickerDate).Failure? ==>
              ExamDateOf(f, pickerDate).error == BadManualDate || ExamDateOf(f, pickerDate).error == MissingDate
  {
  }

  /** Missing files are reported even when nothing else was filled in either. */
  lemma {:induction false} MissingFilesFirst(f: FormInputs, pickerDate: string -> string)
    requires f.studentFiles == 0 || f.classroomFiles == 0
    ensures Validate(f, pickerDate) == Failure(MissingFiles)
  {
  }

  /**
   * A non-blank typed date makes the picker irrelevant: the outcome is the
   * same whatever the picker holds and however its value would convert, and
   * an accepted date is the trimmed typed text.
   */
  lemma {:induction false} ManualDateWins(f: FormInputs, pickerDate: string -> string, otherPicker: Option<string>,
                       otherDate: string -> string)
    requires ManualText(f) != ""
    ensures Validate(f, pickerDate) == Validate(f.(datePicker := otherPicker), otherDate)
    ensures Validate(f, pickerDate).Success? ==>
              Validate(f, pickerDate).value.examDate == ManualText(f) && DatePattern(ManualText(f))
  {
    assert ManualText(f.(datePicker := otherPicker)) == ManualText(f);
  }

  /** An accepted form has both times, the end strictly after the start as strings. */
  lemma {:induction false} AcceptedTimes(f: FormInputs, pickerDate: string -> string)
    requires Validate(f, pickerDate).Success?
    ensures var a := Validate(f, pickerDate).value;
      Truthy(f.startTime) && Truthy(f.endTime)
      && a.startTime == f.startTime.value && a.endTime == f.endTime.value
      && LexLess(a.startTime, a.endTime)
  {
    var a := Validate(f, pickerDate).value;
    LexLessTotal(a.startTime, a.endTime);
  }

  // ------------------------------------------------------------ time values

  /** An `<input type="time">` value `HH:MM` with HH below 24 and MM below 60. */
  predicate ClockTime(t: string)
  {
    |t| == 5 && t[2] == ':'
    && IsDigit(t[0]) && IsDigit(t[1]) && IsDigit(t[3]) && IsDigit(t[4])
    && t[3] <= '5'
    && 10 * DigitValue(t[0]) + DigitValue(t[1]) < 24
  }

  function Hour(t: string): nat
    requires ClockTime(t)
  {
    10 * DigitValue(t[0]) + DigitValue(t[1])
  }

  /** Minutes since midnight. */
  function MinutesOf(t: string): nat
    requires ClockTime(t)
  {
    60 * Hour(t) + 10 * DigitValue(t[3]) + DigitValue(t[4])
  }

  /**
   * On clock times, comparing the strings compares the moments, so the
   * handler's `endTime <= startTime` rejects exactly the end times that are
   * not later than the start.
   */
  lemma {:induction false} ClockOrder(a: string, b: string)
    requires ClockTime(a) && ClockTime(b)
    ensures LexLess(a, b) <==> MinutesOf(a) < MinutesOf(b)
    ensures a == b <==> MinutesOf(a) == MinutesOf(b)
  {
    var k: nat;
    if a[0] != b[0] {
      k := 0;
    } else if a[1] != b[1] {
      k := 1;
    } else if a[3] != b[3] {
      k := 3;
    } else if a[4] != b[4] {
      k := 4;
    } else {
      assert a == b by {
        forall i | 0 <= i < 5 ensures a[i] == b[i] { }
      }
      LexLessIrreflexive(a);
      return;
    }
    assert a[..k] == b[..k] by {
      forall i | 0 <= i < k ensures a[i] == b[i] { }
    }
    LexLessAtFirstDifference(a, b, k);
    assert DigitValue(a[k]) != DigitValue(b[k]) by {
      assert DigitChar(DigitValue(a[k])) == a[k] && DigitChar(DigitValue(b[k])) == b[k];
    }
  }

  /** `endTime <= startTime` on clock times means the end is not later. */
  lemma {:induction false} TimesOutOfOrderMeaning(f: FormInputs)
    requires Truthy(f.startTime) && Truthy(f.endTime)
    requires ClockTime(f.startTime.value) && ClockTime(f.endTime.value)
    ensures Fails(TimesOutOfOrder, f) <==> MinutesOf(f.endTime.value) <= MinutesOf(f.startTime.value)
  {
    ClockOrder(f.endTime.value, f.startTime.value);
  }

  // --------------------------------------------------------------- parseInt

  /** The value of `c` as a digit in base `radix` (10 or 16). */
  function RadixDigit(c: char, radix: nat): Option<nat>
  {
    if '0' <= c <= '9' then Some(c as int - '0' as int)
    else if radix == 16 && 'a' <= c <= 'f' then Some(c as int - 'a' as int + 10)
    else if radix == 16 && 'A' <= c <= 'F' then Some(c as int - 'A' as int + 10)
    else None
  }

  /** The longest prefix of `s` made of base-`radix` digits. */
  function DigitPrefix(s: string, radix: nat): (p: string)
    ensures |p| <= |s| && p == s[..|p|]
    ensures forall i :: 0 <= i < |p| ==> RadixDigit(p[i], radix).Some?
    ensures |p| < |s| ==> RadixDigit(s[|p|], radix).None?
  {
    if s == [] || RadixDigit(s[0], radix).None? then []
    else [s[0]] + DigitPrefix(s[1..], radix)
  }

  function RadixValue(s: string, radix: nat): nat
    requires forall i :: 0 <= i < |s| ==> RadixDigit(s[i], radix).Some?
  {
    if s == [] then 0
    else RadixValue(s[..|s| - 1], radix) * radix + RadixDigit(s[|s| - 1], radix).value
  }

  /**
   * JavaScript's `parseInt(s)` without a radix, `None` standing for `NaN`:
   * skip leading white space, read an optional sign, then the magnitude.
   */
  function ParseInt(s: string): Option<int>
  {
    var t := TrimStart(s);
    var negative := t != [] && t[0] == '-';
    var u := if t != [] && (t[0] == '-' || t[0] == '+') then t[1..] else t;
    match ParseMagnitude(u)
    case None => None
    case Some(v) => Some(if negative then -(v as int) else v as int)
  }

  /**
   * The digits after the sign: base 16 after a `0x`/`0X` prefix, base 10
   * otherwise, up to the first character that is not a digit; no digit at
   * all gives `NaN`.
   */
  function ParseMagnitude(u: string): Option<nat>
  {
    var hex := |u| >= 2 && u[0] == '0' && (u[1] == 'x' || u[1] == 'X');
    var radix := if hex then 16 else 10;
    var digits := DigitPrefix(if hex then u[2..] else u, radix);
    if digits == [] then None else Some(RadixValue(digits, radix))
  }

  lemma {:induction false} DecimalDigitsValue(s: string)
    requires AllDigits(s)
    ensures forall i :: 0 <= i < |s| ==> RadixDigit(s[i], 10).Some?
    ensures RadixValue(s, 10) == DigitsValue(s)
  {
    if s != [] {
      DecimalDigitsValue(s[..|s| - 1]);
    }
  }

  lemma {:induction false} DecimalPrefixWhole(s: string)
    requires AllDigits(s)
    ensures DigitPrefix(s, 10) == s
  {
    if s != [] {
      DecimalPrefixWhole(s[1..]);
    }
  }

  /** `parseInt` reads back every unsigned decimal digit string as its value. */
  lemma {:induction false} ParseIntDigits(s: string)
    requires |s| >= 1 && AllDigits(s)
    requires |s| >= 2 ==> s[1] != 'x' && s[1] != 'X'
    ensures ParseInt(s) == Some(DigitsValue(s) as int)
  {
    NoLeadingSpace(s);
    DecimalMagnitude(s);
    ParseUnsigned(s);
  }

  /** With no leading space and no sign, `parseInt` is the magnitude read from the start. */
  lemma {:induction false} ParseUnsigned(s: string)
    requires TrimStart(s) == s && s != [] && s[0] != '-' && s[0] != '+'
    ensures ParseInt(s) == match ParseMagnitude(s) case None => None case Some(v) => Some(v as int)
  {
  }

  lemma {:induction false} NoLeadingSpace(s: string)
    requires |s| >= 1 && IsDigit(s[0])
    ensures TrimStart(s) == s
  {
    assert !IsJsWhitespace(s[0]);
  }

  lemma {:induction false} DecimalMagnitude(s: string)
    requires |s| >= 1 && AllDigits(s)
    requires |s| >= 2 ==> s[1] != 'x' && s[1] != 'X'
    ensures ParseMagnitude(s) == Some(DigitsValue(s))
  {
    DecimalPrefixWhole(s);
    DecimalDigitsValue(s);
  }

  // ------------------------------------------------------------- formatTime

  /** JavaScript's `%` on integers: the remainder takes the dividend's sign. */
  function JsRem(a: int, b: int): int
    requires b > 0
  {
    if a >= 0 then a % b else -((-a) % b)
  }

  /**
   * `formatTime(time24)`: split at `:`, `parseInt` the hour, pick the suffix
   * with `hour >= 12` (false for `NaN`), take `hour % 12 || 12` (12 for 0,
   * -0 and `NaN`) and print the minutes part as it is (`undefined` when the
   * value has no `:`).
   */
  function FormatTime(time24: string): string
  {
    var parts := Split(time24, ':');
    var m := if |parts| > 1 then parts[1] else "undefined";
    var hour := ParseInt(parts[0]);
    var suffix := if hour.Some? && hour.value >= 12 then "PM" else "AM";
    var hour12 := if hour.None? || JsRem(hour.value, 12) == 0 then 12 else JsRem(hour.value, 12);
    IntToString(hour12) + ":" + m + " " + suffix
  }

  /** The 12-hour clock hour of a 24-hour hour. */
  function Hour12(h: nat): nat
  {
    if h % 12 == 0 then 12 else h % 12
  }

  /** 12-hour clock text: the 12-hour hour, the minutes text, AM below 12 and PM from 12 on. */
  function ClockText(h: nat, mm: string): string
  {
    NatToString(Hour12(h)) + ":" + mm + " " + (if h >= 12 then "PM" else "AM")
  }

  /**
   * A two-digit hour and a minutes part without `:` format as 12-hour clock
   * text with the minutes part copied verbatim.
   */
  lemma {:induction false} FormatTimeOfClock(hh: string, mm: string)
    requires |hh| == 2 && AllDigits(hh) && hh[1] != 'x' && hh[1] != 'X'
    requires forall j :: 0 <= j < |mm| ==> mm[j] != ':'
    ensures FormatTime(hh + ":" + mm) == ClockText(DigitsValue(hh), mm)
  {
    TimeSplit(hh, mm);
    ParseIntDigits(hh);
    FormatTimeParts(hh + ":" + mm, hh, mm, DigitsValue(hh));
  }

  lemma {:induction false} TimeSplit(hh: string, mm: string)
    requires forall j :: 0 <= j < |hh| ==> hh[j] != ':'
    requires forall j :: 0 <= j < |mm| ==> mm[j] != ':'
    ensures Split(hh + ":" + mm, ':') == [hh, mm]
  {
    assert hh + ":" + mm == hh + [':'] + mm;
    SplitPrefix(hh, ':', mm);
    SplitNoSeparator(mm, ':');
  }

  lemma {:induction false} FormatTimeParts(t: string, hh: string, mm: string, h: nat)
    requires Split(t, ':') == [hh, mm]
    requires ParseInt(hh) == Some(h as int)
    ensures FormatTime(t) == ClockText(h, mm)
  {
    assert JsRem(h, 12) == h % 12;
  }

  /**
   * The cases of the 12-hour clock: hour 0 reads 12 AM, hours 1 to 11 keep
   * their number with AM, hour 12 reads 12 PM, hours 13 to 23 read hour - 12
   * with PM.
   */
  lemma {:induction false} ClockTextCases(h: nat, mm: string)
    ensures h == 0 ==> ClockText(h, mm) == "12:" + mm + " AM"
    ensures 1 <= h <= 11 ==> ClockText(h, mm) == NatToString(h) + ":" + mm + " AM"
    ensures h == 12 ==> ClockText(h, mm) == "12:" + mm + " PM"
    ensures 13 <= h <= 23 ==> ClockText(h, mm) == NatToString(h - 12) + ":" + mm + " PM"
  {
    var am, pm := " " + "AM", " " + "PM";
    assert am == " AM" && pm == " PM";
    if h == 0 || h == 12 {
      assert Hour12(h) == 12;
      assert NatToString(12) == "12" by {
        assert NatToString(12) == NatToString(1) + [DigitChar(2)];
      }
      assert "12" + ":" == "12:";
    } else if h < 12 {
      assert Hour12(h) == h by { assert h % 12 == h; }
    } else if h < 24 {
      assert Hour12(h) == h - 12 by { assert h % 12 == h - 12; }
    }
  }

  /** Converts a 12-hour reading back to the 24-hour hour. */
  function Hour24(h12: nat, pm: bool): nat
  {
    (if h12 == 12 then 0 else h12) + (if pm then 12 else 0)
  }

  lemma {:induction false} Hour12RoundTrip(h: nat)
    requires h < 24
    ensures 1 <= Hour12(h) <= 12
    ensures Hour24(Hour12(h), h >= 12) == h
  {
  }

  /** Clock text of an hour below 24 and a two-character minutes part determines both. */
  lemma {:induction false} ClockTextInjective(ha: nat, ma: string, hb: nat, mb: string)
    requires ha < 24 && hb < 24 && |ma| == 2 && |mb| == 2
    requires ClockText(ha, ma) == ClockText(hb, mb)
    ensures ha == hb && ma == mb
  {
    var ta, tb := ClockText(ha, ma), ClockText(hb, mb);
    var na, nb := NatToString(Hour12(ha)), NatToString(Hour12(hb));
    Hour12RoundTrip(ha);
    Hour12RoundTrip(hb);
    assert ta[|na|] == ':' && tb[|nb|] == ':';
    assert na == ta[..|na|] && nb == tb[..|nb|];
    assert |na| == |nb|;
    NatToStringInjective(Hour12(ha), Hour12(hb));
    assert ta[|ta| - 2] == tb[|tb| - 2];
    assert ma[0] == ta[|na| + 1] && ma[1] == ta[|na| + 2];
    assert mb[0] == tb[|nb| + 1] && mb[1] == tb[|nb| + 2];
  }

  /**
   * Distinct clock times format differently: the 12-hour text determines
   * the hour (through its suffix) and the minutes.
   */
  lemma {:induction false} FormatTimeInjective(a: string, b: string)
    requires ClockTime(a) && ClockTime(b)
    requires FormatTime(a) == FormatTime(b)
    ensures a == b
  {
    assert Hour(a) == Hour(b) && a[3..] == b[3..] by {
      ClockTimeText(a);
      ClockTimeText(b);
      ClockTextInjective(Hour(a), a[3..], Hour(b), b[3..]);
    }
    assert a[..2] == b[..2] by {
      DigitsCharsOfHour(a);
      DigitsCharsOfHour(b);
    }
    SameClockParts(a, b);
  }

  lemma {:induction false} SameClockParts(a: string, b: string)
    requires ClockTime(a) && ClockTime(b)
    requires a[..2] == b[..2] && a[3..] == b[3..]
    ensures a == b
  {
    assert a == a[..2] + [':'] + a[3..] && b == b[..2] + [':'] + b[3..];
  }

  /** A clock time formats as the clock text of its hour and minutes. */
  lemma {:induction false} ClockTimeText(t: string)
    requires ClockTime(t)
    ensures Hour(t) < 24
    ensures FormatTime(t) == ClockText(Hour(t), t[3..])
  {
    var hh, mm := t[..2], t[3..];
    assert t == hh + ":" + mm;
    assert DigitsValue(hh) == Hour(t) by {
      assert hh[..|hh| - 1] == [t[0]] && [t[0]][..0] == [];
      assert DigitsValue([t[0]]) == DigitValue(t[0]);
    }
    FormatTimeOfClock(hh, mm);
  }

  /** The hour's two digits are determined by its value. */
  lemma {:induction false} DigitsCharsOfHour(t: string)
    requires ClockTime(t)
    ensures t[..2] == [DigitChar(Hour(t) / 10), DigitChar(Hour(t) % 10)]
  {
  }

  /** The text shown for the exam time: `{start} - {end}` in 12-hour form. */
  function ExamTimeText(startTime: string, endTime: string): string
  {
    FormatTime(startTime) + " - " + FormatTime(endTime)
  }

  // --------------------------------------------------------------- file name

  /** The name the PDF is saved under: the exam date with every `/` made `-`. */
  function PdfFileName(examDate: string): string
  {
    "seating_arrangement_" + ReplaceAll(examDate, '/', '-') + ".pdf"
  }

  /**
   * The name holds the date with no `/` left, so it is one path segment; for
   * a date without `-`, such as every typed `DD/MM/YYYY` date, turning the
   * dashes back into slashes recovers the date.
   */
  lemma {:induction false} PdfFileNameDate(examDate: string)
    ensures var r := ReplaceAll(examDate, '/', '-');
      PdfFileName(examDate) == "seating_arrangement_" + r + ".pdf"
      && (forall i :: 0 <= i < |PdfFileName(examDate)| ==> PdfFileName(examDate)[i] != '/')
      && ((forall i :: 0 <= i < |examDate| ==> examDate[i] != '-') ==> ReplaceAll(r, '-', '/') == examDate)
  {
    var r := ReplaceAll(examDate, '/', '-');
    var name := PdfFileName(examDate);
    forall i | 0 <= i < |name| ensures name[i] != '/' {
      if 20 <= i < 20 + |r| { assert name[i] == r[i - 20]; }
    }
  }

  /** A typed date that passes the pattern names the file `seating_arrangement_DD-MM-YYYY.pdf`. */
  lemma {:induction false} TypedDateFileName(examDate: string)
    requires DatePattern(examDate)
    ensures PdfFileName(examDate)
         == "seating_arrangement_" + examDate[..2] + "-" + examDate[3..5] + "-" + examDate[6..] + ".pdf"
  {
    var r := ReplaceAll(examDate, '/', '-');
    assert r == examDate[..2] + "-" + examDate[3..5] + "-" + examDate[6..];
  }
}
