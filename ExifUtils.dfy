/**
 * Capture-date extraction (src/photodate_wm/exif_utils.py): parse the EXIF
 * "YYYY:MM:DD HH:MM:SS" text, pick the first EXIF date field present, and
 * fall back to the file's modification time according to two flags.
 * The EXIF reader and the clock are inputs: `ExifLoad` is what
 * `piexif.load` produced (or its failure) and the modification time is
 * the local `datetime` it converts to (or its failure).
 */
module ExifUtils {
  import opened Wrappers
  import opened Strings
  import Utf8

  /** A `datetime` value's calendar fields. */
  datatype DateTime = DateTime(year: int, month: int, day: int, hour: int, minute: int, second: int)

  predicate IsLeapYear(y: int) {
    (y % 4 == 0 && y % 100 != 0) || y % 400 == 0
  }

  function DaysInMonth(y: int, m: int): (d: int)
    requires 1 <= m <= 12
    ensures 28 <= d <= 31
  {
    if m == 2 then (if IsLeapYear(y) then 29 else 28)
    else if m == 4 || m == 6 || m == 9 || m == 11 then 30
    else 31
  }

  /** The values `datetime` accepts. */
  predicate ValidDateTime(dt: DateTime) {
    && 1 <= dt.year <= 9999
    && 1 <= dt.month <= 12
    && 1 <= dt.day <= DaysInMonth(dt.year, dt.month)
    && 0 <= dt.hour <= 23
    && 0 <= dt.minute <= 59
    && 0 <= dt.second <= 59
  }

  type ValidDateTime_ = dt: DateTime | ValidDateTime(dt) witness DateTime(1, 1, 1, 0, 0, 0)

  /** `n` written with exactly `width` digits, zero-padded. */
  function Padded(n: nat, width: nat): (s: string)
    ensures |s| == width
    ensures forall i :: 0 <= i < |s| ==> IsDigit(s[i])
  {
    if width == 0 then [] else Padded(n / 10, width - 1) + [DigitChar(n % 10)]
  }

  function Pow10(k: nat): (p: nat)
    ensures p >= 1
  {
    if k == 0 then 1 else 10 * Pow10(k - 1)
  }

  lemma {:induction false} DigitsValuePadded(n: nat, width: nat)
    requires n < Pow10(width)
    ensures DigitsValue(Padded(n, width)) == n
  {
    if width > 0 {
      var s := Padded(n, width);
      assert s[..|s| - 1] == Padded(n / 10, width - 1);
      DigitsValuePadded(n / 10, width - 1);
    }
  }

  /** The character positions that hold digits in "YYYY:MM:DD HH:MM:SS". */
  predicate IsDigitPosition(i: int) {
    0 <= i < 19 && i != 4 && i != 7 && i != 10 && i != 13 && i != 16
  }

  /** `t` has the strict shape "DDDD:DD:DD DD:DD:DD". */
  predicate HasExifShape(t: string) {
    && |t| == 19
    && t[4] == ':' && t[7] == ':' && t[10] == ' ' && t[13] == ':' && t[16] == ':'
    && forall i :: 0 <= i < |t| && IsDigitPosition(i) ==> IsDigit(t[i])
  }

  /** The fields of a string of that shape, before any range check. */
  function FieldsOf(t: string): DateTime
    requires HasExifShape(t)
  {
    DateTime(DigitsValue(t[0..4]), DigitsValue(t[5..7]), DigitsValue(t[8..10]),
             DigitsValue(t[11..13]), DigitsValue(t[14..16]), DigitsValue(t[17..19]))
  }

  /** The EXIF text of a date and time: "YYYY:MM:DD HH:MM:SS". */
  function ExifText(dt: DateTime): (t: string)
    requires ValidDateTime(dt)
    ensures HasExifShape(t)
  {
    var t := Padded(dt.year, 4) + ":" + Padded(dt.month, 2) + ":" + Padded(dt.day, 2) + " "
      + Padded(dt.hour, 2) + ":" + Padded(dt.minute, 2) + ":" + Padded(dt.second, 2);
    assert forall i :: 0 <= i < |t| && IsDigitPosition(i) ==> IsDigit(t[i]);
    t
  }

  /** `_parse_exif_datetime_string`: `datetime.strptime(s.strip(),
      "%Y:%m:%d %H:%M:%S")`, or None where that raises. A result is a valid
      date and time, read from a stripped input of the strict shape. */
  function ParseExifDateTime(s: string): (r: Option<DateTime>)
    ensures r.Some? ==> ValidDateTime(r.value) && HasExifShape(Strip(s))
  {
    var t := Strip(s);
    if HasExifShape(t) && ValidDateTime(FieldsOf(t)) then Some(FieldsOf(t)) else None
  }

  /** A successful parse read the EXIF text of its result: the stripped
      input is exactly that text. */
  lemma ParsedIsExifText(s: string)
    requires ParseExifDateTime(s).Some?
    ensures ExifText(ParseExifDateTime(s).value) == Strip(s)
  {
    ExifTextOfFields(Strip(s));
  }

  lemma ExifTextOfFields(t: string)
    requires HasExifShape(t) && ValidDateTime(FieldsOf(t))
    ensures ExifText(FieldsOf(t)) == t
  {
    var dt := FieldsOf(t);
    var e := ExifText(dt);
    PaddedDigitsValue(t[0..4]);
    PaddedDigitsValue(t[5..7]);
    PaddedDigitsValue(t[8..10]);
    PaddedDigitsValue(t[11..13]);
    PaddedDigitsValue(t[14..16]);
    PaddedDigitsValue(t[17..19]);
    assert e[0..4] == t[0..4] && e[5..7] == t[5..7] && e[8..10] == t[8..10];
    assert e[11..13] == t[11..13] && e[14..16] == t[14..16] && e[17..19] == t[17..19];
    assert forall i :: 0 <= i < 19 ==> e[i] == t[i] by {
      forall i | 0 <= i < 19 ensures e[i] == t[i] {
        if 0 <= i < 4 { assert e[i] == e[0..4][i]; }
        else if 5 <= i < 7 { assert e[i] == e[5..7][i - 5]; }
        else if 8 <= i < 10 { assert e[i] == e[8..10][i - 8]; }
        else if 11 <= i < 13 { assert e[i] == e[11..13][i - 11]; }
        else if 14 <= i < 16 { assert e[i] == e[14..16][i - 14]; }
        else if 17 <= i < 19 { assert e[i] == e[17..19][i - 17]; }
      }
    }
  }

  /** Re-padding the value of a digit string gives the string back. */
  lemma {:induction false} PaddedDigitsValue(s: string)
    requires forall i :: 0 <= i < |s| ==> IsDigit(s[i])
    ensures DigitsValue(s) < Pow10(|s|)
    ensures Padded(DigitsValue(s), |s|) == s
  {
    if s != [] {
      var init := s[..|s| - 1];
      PaddedDigitsValue(init);
      var n := DigitsValue(s);
      assert n / 10 == DigitsValue(init) && n % 10 == DigitValue(s[|s| - 1]);
      assert DigitChar(n % 10) == s[|s| - 1];
      assert init + [s[|s| - 1]] == s;
    }
  }

  /** Where each field of the EXIF text sits. */
  lemma ExifTextParts(dt: DateTime)
    requires ValidDateTime(dt)
    ensures var t := ExifText(dt);
      && t[0..4] == Padded(dt.year, 4) && t[5..7] == Padded(dt.month, 2)
      && t[8..10] == Padded(dt.day, 2) && t[11..13] == Padded(dt.hour, 2)
      && t[14..16] == Padded(dt.minute, 2) && t[17..19] == Padded(dt.second, 2)
  {
  }

  lemma FieldsOfExifText(dt: DateTime)
    requires ValidDateTime(dt)
    ensures FieldsOf(ExifText(dt)) == dt
  {
    ExifTextParts(dt);
    DigitsValuePadded(dt.year, 4);
    DigitsValuePadded(dt.month, 2);
    DigitsValuePadded(dt.day, 2);
    DigitsValuePadded(dt.hour, 2);
    DigitsValuePadded(dt.minute, 2);
    DigitsValuePadded(dt.second, 2);
  }

  lemma ExifTextIsStripped(dt: DateTime)
    requires ValidDateTime(dt)
    ensures Strip(ExifText(dt)) == ExifText(dt)
  {
    var t := ExifText(dt);
    assert IsDigit(t[0]) && IsDigit(t[18]);
    StripOfStripped(t);
  }

  /** Every valid date and time parses back from its EXIF text. */
  lemma ParseExifText(dt: DateTime)
    requires ValidDateTime(dt)
    ensures ParseExifDateTime(ExifText(dt)) == Some(dt)
  {
    ExifTextIsStripped(dt);
    FieldsOfExifText(dt);
  }

  /** Surrounding whitespace is ignored: any text that strips to the EXIF
      text of a valid date and time parses to it. */
  lemma ParsePaddedExifText(s: string, dt: DateTime)
    requires ValidDateTime(dt) && Strip(s) == ExifText(dt)
    ensures ParseExifDateTime(s) == Some(dt)
  {
    ParseExifText(dt);
    ExifTextIsStripped(dt);
  }

  /** `dt.strftime("%Y-%m-%d")` */
  function FormatDate(dt: DateTime): (s: string)
    requires ValidDateTime(dt)
    ensures IsIsoDateShape(s)
  {
    Padded(dt.year, 4) + "-" + Padded(dt.month, 2) + "-" + Padded(dt.day, 2)
  }

  /** Four digits, '-', two digits, '-', two digits. */
  predicate IsIsoDateShape(s: string) {
    && |s| == 10 && s[4] == '-' && s[7] == '-'
    && forall i :: 0 <= i < 10 && i != 4 && i != 7 ==> IsDigit(s[i])
  }

  /** A good EXIF date is reformatted by keeping its date digits and putting
      '-' between them. */
  lemma ReformatKeepsDigits(s: string)
    requires ParseExifDateTime(s).Some?
    ensures var t := Strip(s);
      FormatDate(ParseExifDateTime(s).value) == t[0..4] + "-" + t[5..7] + "-" + t[8..10]
  {
    var dt := ParseExifDateTime(s).value;
    ParsedIsExifText(s);
    ExifTextParts(dt);
  }

  lemma DigitsValue2(s: string)
    requires |s| == 2 && IsDigit(s[0]) && IsDigit(s[1])
    ensures DigitsValue(s) == DigitValue(s[0]) * 10 + DigitValue(s[1])
  {
    assert s[..|s| - 1] == s[..1] && s[..1][..0] == [] && s[..1][0] == s[0];
    assert DigitsValue(s[..1]) == DigitsValue(s[..1][..0]) * 10 + DigitValue(s[..1][0]);
  }

  /** A string of EXIF shape with fields in range parses to those fields. */
  lemma ParseValidFields(t: string)
    requires HasExifShape(t) && ValidDateTime(FieldsOf(t))
    ensures ParseExifDateTime(t) == Some(FieldsOf(t))
  {
    ExifShapeIsStripped(t);
  }

  /** A string of EXIF shape with a field out of range is refused. */
  lemma ParseInvalidFields(t: string)
    requires HasExifShape(t) && !ValidDateTime(FieldsOf(t))
    ensures ParseExifDateTime(t) == None
  {
    ExifShapeIsStripped(t);
  }

  /** Text of EXIF shape starts and ends with a digit, so `strip()` keeps it. */
  lemma ExifShapeIsStripped(t: string)
    requires HasExifShape(t)
    ensures Strip(t) == t
  {
    assert IsDigitPosition(0) && IsDigitPosition(18);
    StripOfStripped(t);
  }

  lemma DigitsValue4(s: string)
    requires |s| == 4 && forall i :: 0 <= i < 4 ==> IsDigit(s[i])
    ensures DigitsValue(s) == DigitValue(s[0]) * 1000 + DigitValue(s[1]) * 100
                              + DigitValue(s[2]) * 10 + DigitValue(s[3])
  {
    var s3 := s[..3];
    var s2 := s3[..2];
    assert s[..|s| - 1] == s3 && s3[..|s3| - 1] == s2;
    assert s3[2] == s[2] && s2[0] == s[0] && s2[1] == s[1];
    DigitsValue2(s2);
  }

  /** The fields of a string of EXIF shape, from its characters. */
  lemma FieldDigits(t: string)
    requires HasExifShape(t)
    ensures FieldsOf(t).year == DigitValue(t[0]) * 1000 + DigitValue(t[1]) * 100
                                + DigitValue(t[2]) * 10 + DigitValue(t[3])
    ensures FieldsOf(t).month == DigitValue(t[5]) * 10 + DigitValue(t[6])
    ensures FieldsOf(t).day == DigitValue(t[8]) * 10 + DigitValue(t[9])
    ensures FieldsOf(t).hour == DigitValue(t[11]) * 10 + DigitValue(t[12])
    ensures FieldsOf(t).minute == DigitValue(t[14]) * 10 + DigitValue(t[15])
    ensures FieldsOf(t).second == DigitValue(t[17]) * 10 + DigitValue(t[18])
  {
    assert IsDigitPosition(0) && IsDigitPosition(1) && IsDigitPosition(2) && IsDigitPosition(3);
    assert IsDigitPosition(5) && IsDigitPosition(6) && IsDigitPosition(8) && IsDigitPosition(9);
    assert IsDigitPosition(11) && IsDigitPosition(12) && IsDigitPosition(14) && IsDigitPosition(15);
    assert IsDigitPosition(17) && IsDigitPosition(18);
    DigitsValue4(t[0..4]);
    DigitsValue2(t[5..7]);
    DigitsValue2(t[8..10]);
    DigitsValue2(t[11..13]);
    DigitsValue2(t[14..16]);
    DigitsValue2(t[17..19]);
  }

  /** Month 13 is refused. */
  lemma MonthThirteenRefused()
    ensures ParseExifDateTime("2023:13:01 00:00:00") == None
  {
    var t := "2023:13:01 00:00:00";
    assert HasExifShape(t);
    ParseInvalidFields(t);
    FieldDigits(t);
  }

  /** 30 February is refused. */
  lemma FebruaryThirtiethRefused()
    ensures ParseExifDateTime("2023:02:30 00:00:00") == None
  {
    var t := "2023:02:30 00:00:00";
    assert HasExifShape(t);
    ParseInvalidFields(t);
    FieldDigits(t);
  }

  /** 29 February of a common year is refused. */
  lemma CommonYearLeapDayRefused()
    ensures ParseExifDateTime("2023:02:29 00:00:00") == None
  {
    var t := "2023:02:29 00:00:00";
    assert HasExifShape(t);
    ParseInvalidFields(t);
    FieldDigits(t);
  }

  /** Hour 24 is refused. */
  lemma HourTwentyFourRefused()
    ensures ParseExifDateTime("2023:08:15 24:00:00") == None
  {
    var t := "2023:08:15 24:00:00";
    assert HasExifShape(t);
    ParseInvalidFields(t);
    FieldDigits(t);
  }

  /** A leap second (60) is refused. */
  lemma LeapSecondRefused()
    ensures ParseExifDateTime("2023:08:15 12:34:60") == None
  {
    var t := "2023:08:15 12:34:60";
    assert HasExifShape(t);
    ParseInvalidFields(t);
    FieldDigits(t);
  }

  /** Text of another shape is refused. */
  lemma MalformedRefused()
    ensures ParseExifDateTime("2023-08-15 12:34:56") == None
    ensures ParseExifDateTime("") == None
  {
    var t := "2023-08-15 12:34:56";
    assert t[0] == '2' && t[|t| - 1] == '6';
    assert IsStripped(t);
    StripOfStripped(t);
    assert t[4] == '-';
    assert !HasExifShape(Strip(t));
    StripOfStripped("");
    assert !HasExifShape(Strip(""));
  }

  // ---------------------------------------------------------------------
  // Reading the EXIF date field

  /** What one EXIF entry holds: bytes, text, or a value of another type. */
  datatype ExifValue = Bytes(bytes: seq<Utf8.byte>) | Text(text: string) | OtherValue

  /** The two IFDs `piexif.load` returns that the reader looks at, keyed by
      tag number; a missing IFD is an empty map. */
  datatype ExifData = ExifData(exif: map<int, ExifValue>, zeroth: map<int, ExifValue>)

  /** The outcome of `piexif.load`: None when it raised. */
  type ExifLoad = Option<ExifData>

  datatype Ifd = ExifIfd | ZerothIfd

  /** piexif's tag numbers. */
  const DateTimeOriginal: int := 36867
  const DateTimeDigitized: int := 36868
  const DateTime_: int := 306

  /** The search order: DateTimeOriginal, DateTimeDigitized, then the 0th
      IFD's DateTime. */
  const DateFieldOrder: seq<(Ifd, int)> :=
    [(ExifIfd, DateTimeOriginal), (ExifIfd, DateTimeDigitized), (ZerothIfd, DateTime_)]

  function Lookup(d: ExifData, field: (Ifd, int)): Option<ExifValue> {
    var m := if field.0 == ExifIfd then d.exif else d.zeroth;
    if field.1 in m then Some(m[field.1]) else None
  }

  /** A field counts as present when it holds bytes or text. */
  predicate IsTextual(v: Option<ExifValue>) {
    v.Some? && (v.value.Bytes? || v.value.Text?)
  }

  function TextOf(v: Option<ExifValue>): string
    requires IsTextual(v)
  {
    match v.value
    case Bytes(b) => Utf8.Decode(b)
    case Text(t) => t
  }

  /** The text of the first field in `order` that is present. */
  function FirstTextual(d: ExifData, order: seq<(Ifd, int)>): (r: Option<string>)
    ensures r.None? <==> forall i :: 0 <= i < |order| ==> !IsTextual(Lookup(d, order[i]))
    ensures r.Some? ==> exists i :: (0 <= i < |order| && IsTextual(Lookup(d, order[i]))
      && (forall j :: 0 <= j < i ==> !IsTextual(Lookup(d, order[j])))
      && r.value == TextOf(Lookup(d, order[i])))
  {
    if order == [] then None
    else if IsTextual(Lookup(d, order[0])) then Some(TextOf(Lookup(d, order[0])))
    else
      var r := FirstTextual(d, order[1..]);
      assert forall i :: 1 <= i < |order| ==> order[i] == order[1..][i - 1];
      if r.Some? then
        var i :| 0 <= i < |order[1..]| && IsTextual(Lookup(d, order[1..][i]))
          && (forall j :: 0 <= j < i ==> !IsTextual(Lookup(d, order[1..][j])))
          && r.value == TextOf(Lookup(d, order[1..][i]));
        assert forall j :: 0 <= j < i + 1 ==> !IsTextual(Lookup(d, order[j])) by {
          forall j | 0 <= j < i + 1 ensures !IsTextual(Lookup(d, order[j])) {
            if j > 0 { assert order[j] == order[1..][j - 1]; }
          }
        }
        r
      else r
  }

  /** `_read_exif_datetime_bytes`: the raw date text, or None. */
  function ReadExifDateTime(load: ExifLoad): (r: Option<string>)
    ensures load.None? ==> r.None?
  {
    match load
    case None => None
    case Some(d) => FirstTextual(d, DateFieldOrder)
  }

  /** First present wins: when DateTimeOriginal holds bytes or text, it
      alone decides the raw text, however it reads. */
  lemma OriginalWins(d: ExifData)
    requires IsTextual(Lookup(d, (ExifIfd, DateTimeOriginal)))
    ensures ReadExifDateTime(Some(d)) == Some(TextOf(Lookup(d, (ExifIfd, DateTimeOriginal))))
  {
  }

  /** When DateTimeOriginal is absent or of another type, DateTimeDigitized
      is used before the 0th DateTime. */
  lemma DigitizedBeforeDateTime(d: ExifData)
    requires !IsTextual(Lookup(d, (ExifIfd, DateTimeOriginal)))
    requires IsTextual(Lookup(d, (ExifIfd, DateTimeDigitized)))
    ensures ReadExifDateTime(Some(d)) == Some(TextOf(Lookup(d, (ExifIfd, DateTimeDigitized))))
  {
    assert DateFieldOrder[1..][0] == (ExifIfd, DateTimeDigitized);
  }

  lemma DateTimeLast(d: ExifData)
    requires !IsTextual(Lookup(d, (ExifIfd, DateTimeOriginal)))
    requires !IsTextual(Lookup(d, (ExifIfd, DateTimeDigitized)))
    ensures ReadExifDateTime(Some(d)) ==
      if IsTextual(Lookup(d, (ZerothIfd, DateTime_)))
      then Some(TextOf(Lookup(d, (ZerothIfd, DateTime_)))) else None
  {
    assert DateFieldOrder[1..] == [(ExifIfd, DateTimeDigitized), (ZerothIfd, DateTime_)];
    assert DateFieldOrder[1..][1..] == [(ZerothIfd, DateTime_)];
    assert DateFieldOrder[1..][1..][1..] == [];
    var o1 := DateFieldOrder[1..];
    assert FirstTextual(d, DateFieldOrder) == FirstTextual(d, o1);
    assert FirstTextual(d, o1) == FirstTextual(d, o1[1..]);
  }

  /** The valid EXIF date, if any: the first present field, when non-empty
      and parseable. */
  function ExifDate(load: ExifLoad): (r: Option<DateTime>)
    ensures r.Some? ==> ValidDateTime(r.value)
  {
    var raw := ReadExifDateTime(load);
    if raw.Some? && raw.value != [] then ParseExifDateTime(raw.value) else None
  }

  /** `extract_photo_date_string`: the capture date as "YYYY-MM-DD", taken
      from EXIF, else (unless `exifOnly`) from the modification time when
      `fallbackMtime` is set. `mtime` is None when reading it raised. */
  function ExtractPhotoDateString(load: ExifLoad, mtime: Option<ValidDateTime_>,
                                  fallbackMtime: bool, exifOnly: bool): (r: Option<string>)
    ensures r.Some? ==> IsIsoDateShape(r.value)
    ensures ExifDate(load).Some? ==> r == Some(FormatDate(ExifDate(load).value))
    ensures ExifDate(load).None? && exifOnly ==> r == None
    ensures ExifDate(load).None? && !exifOnly ==>
      r == (if fallbackMtime && mtime.Some? then Some(FormatDate(mtime.value)) else None)
  {
    var raw := ReadExifDateTime(load);
    var exifDt := if raw.Some? && raw.value != [] then ParseExifDateTime(raw.value) else None;
    if exifDt.Some? then Some(FormatDate(exifDt.value))
    else if exifOnly then None
    else if fallbackMtime then
      match mtime
      case Some(t) => Some(FormatDate(t))
      case None => None
    else None
  }

  /** What the file system reports about one photo path: the EXIF load
      (None when `piexif.load` raised) and the modification time as a local
      date-time (None when `os.path.getmtime` raised). */
  datatype PhotoFacts = PhotoFacts(load: ExifLoad, mtime: Option<ValidDateTime_>)

  /** With `exifOnly`, the fallback flag and the clock play no part. */
  lemma ExifOnlyIgnoresFallback(load: ExifLoad, m1: Option<ValidDateTime_>, m2: Option<ValidDateTime_>,
                                f1: bool, f2: bool)
    ensures ExtractPhotoDateString(load, m1, f1, true) == ExtractPhotoDateString(load, m2, f2, true)
  {
  }

  /** A failed EXIF load behaves exactly like EXIF data without dates. */
  lemma FailedLoadIsNoExif(m: Option<ValidDateTime_>, fallbackMtime: bool, exifOnly: bool)
    ensures ExtractPhotoDateString(None, m, fallbackMtime, exifOnly)
         == ExtractPhotoDateString(Some(ExifData(map[], map[])), m, fallbackMtime, exifOnly)
  {
  }

  /** A present but unparseable first field stops the search even when a
      later field holds a good date. */
  lemma BadOriginalHidesGoodDateTime(good: DateTime)
    requires ValidDateTime(good)
    ensures var d := ExifData(map[DateTimeOriginal := Text("garbage")],
                              map[DateTime_ := Text(ExifText(good))]);
      ExifDate(Some(d)) == None
  {
    var d := ExifData(map[DateTimeOriginal := Text("garbage")], map[DateTime_ := Text(ExifText(good))]);
    OriginalWins(d);
    StripOfStripped("garbage");
  }

  /** A DateTimeOriginal stored as the UTF-8 bytes of `s` reads back as `s`. */
  lemma ReadEncodedOriginal(s: string)
    ensures ReadExifDateTime(Some(ExifData(map[DateTimeOriginal := Bytes(Utf8.Encode(s))], map[])))
         == Some(s)
  {
    Utf8.DecodeEncode(s);
    OriginalWins(ExifData(map[DateTimeOriginal := Bytes(Utf8.Encode(s))], map[]));
  }

  /** EXIF data without any of the three fields gives no raw text. */
  lemma ReadWithoutDates()
    ensures ReadExifDateTime(Some(ExifData(map[], map[]))) == None
  {
    var d := ExifData(map[], map[]);
    assert forall i :: 0 <= i < |DateFieldOrder| ==> !IsTextual(Lookup(d, DateFieldOrder[i]));
  }

  /** The EXIF text used by tests/test_exif_utils.py and its fields. */
  const TestExifText: string := "2023:08:15 12:34:56"
  const TestDateTime: DateTime := DateTime(2023, 8, 15, 12, 34, 56)

  lemma TestTextFields()
    ensures HasExifShape(TestExifText) && FieldsOf(TestExifText) == TestDateTime
  {
    assert HasExifShape(TestExifText);
    FieldDigits(TestExifText);
  }

  lemma TestTextParses()
    ensures ParseExifDateTime(TestExifText) == Some(TestDateTime)
  {
    TestTextFields();
    ParseValidFields(TestExifText);
  }

  lemma TestDateFormats()
    ensures ValidDateTime(TestDateTime) && FormatDate(TestDateTime) == "2023-08-15"
  {
    assert Padded(2023, 4) == "2023";
    assert Padded(8, 2) == "08" && Padded(15, 2) == "15";
  }

  /** tests/test_exif_utils.py, first scenario: a DateTimeOriginal written
      as UTF-8 bytes gives its date with `exifOnly` and no fallback. */
  lemma ExifDateScenario()
    ensures ExtractPhotoDateString(
      Some(ExifData(map[DateTimeOriginal := Bytes(Utf8.Encode("2023:08:15 12:34:56"))], map[])),
      None, false, true) == Some("2023-08-15")
  {
    ReadEncodedOriginal(TestExifText);
    TestTextParses();
    TestDateFormats();
  }

  /** Second scenario: without EXIF, the modification date is used when the
      fallback is on. */
  lemma MtimeFallbackScenario()
    ensures ExtractPhotoDateString(Some(ExifData(map[], map[])),
      Some(DateTime(2022, 1, 2, 3, 4, 5)), true, false) == Some("2022-01-02")
  {
    ReadWithoutDates();
    assert Padded(2022, 4) == "2022";
    assert Padded(1, 2) == "01" && Padded(2, 2) == "02";
    assert FormatDate(DateTime(2022, 1, 2, 3, 4, 5)) == "2022-01-02";
  }

  /** Third scenario: without EXIF and with `exifOnly`, there is no date even
      with the fallback on. */
  lemma ExifOnlyScenario()
    ensures ExtractPhotoDateString(Some(ExifData(map[], map[])),
      Some(DateTime(2022, 1, 2, 3, 4, 5)), true, true) == None
  {
    ReadWithoutDates();
  }
}
