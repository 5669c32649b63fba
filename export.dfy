/**
  The name of the spreadsheet the selection is written to: the input file's name up to
  its first ".", then "_selected_", a `YYYYMMDD_HHMMSS` timestamp of the moment of
  writing, and ".xlsx". The clock is not read here: the moment is a parameter.
 */
module Export {
  import opened Wrappers
  import opened Strings

  /** The fields of a `datetime` that the timestamp shows. */
  datatype DateTime = DateTime(year: nat, month: nat, day: nat, hour: nat, minute: nat, second: nat)

  predicate IsLeapYear(year: nat) {
    year % 4 == 0 && (year % 100 != 0 || year % 400 == 0)
  }

  function DaysInMonth(year: nat, month: nat): (days: nat)
    requires 1 <= month <= 12
  {
    if month == 2 then (if IsLeapYear(year) then 29 else 28)
    else if month in {4, 6, 9, 11} then 30
    else 31
  }

  /** The values a `datetime` can hold (years 1 to 9999, no leap seconds). */
  predicate ValidDateTime(t: DateTime) {
    && 1 <= t.year <= 9999
    && 1 <= t.month <= 12
    && 1 <= t.day <= DaysInMonth(t.year, t.month)
    && t.hour < 24 && t.minute < 60 && t.second < 60
  }

  /** The `YYYYMMDD` date part followed by `_` and the `HHMMSS` time part. */
  predicate IsTimestampShape(ts: string) {
    |ts| == 15 && AllDigits(ts[..8]) && ts[8] == '_' && AllDigits(ts[9..])
  }

  /** The six fields of a timestamp sit at fixed positions around the underscore. */
  lemma FieldPositions(y: string, mo: string, d: string, h: string, mi: string, sec: string)
    requires |y| == 4 && |mo| == 2 && |d| == 2 && |h| == 2 && |mi| == 2 && |sec| == 2
    ensures var ts := y + mo + d + "_" + h + mi + sec;
            && |ts| == 15 && ts[8] == '_'
            && ts[..8] == y + mo + d && ts[9..] == h + mi + sec
            && ts[0..4] == y && ts[4..6] == mo && ts[6..8] == d
            && ts[9..11] == h && ts[11..13] == mi && ts[13..15] == sec
  {
    var ts := y + mo + d + "_" + h + mi + sec;
    assert ts == (y + mo + d) + ("_" + (h + mi + sec));
  }

  lemma AllDigitsConcat(a: string, b: string, c: string)
    requires AllDigits(a) && AllDigits(b) && AllDigits(c)
    ensures AllDigits(a + b + c)
  {
    var s := a + b + c;
    forall i | 0 <= i < |s| ensures IsDigit(s[i]) {
      if i < |a| { assert s[i] == a[i]; }
      else if i < |a| + |b| { assert s[i] == b[i - |a|]; }
      else { assert s[i] == c[i - |a| - |b|]; }
    }
  }

  /**
    `now.strftime("%Y%m%d_%H%M%S")`: always eight digits, an underscore and six digits.
   */
  function Timestamp(t: DateTime): (ts: string)
    requires ValidDateTime(t)
    ensures IsTimestampShape(ts)
  {
    var y, mo, d := ZeroPadded(t.year, 4), ZeroPadded(t.month, 2), ZeroPadded(t.day, 2);
    var h, mi, sec := ZeroPadded(t.hour, 2), ZeroPadded(t.minute, 2), ZeroPadded(t.second, 2);
    FieldPositions(y, mo, d, h, mi, sec);
    AllDigitsConcat(y, mo, d);
    AllDigitsConcat(h, mi, sec);
    y + mo + d + "_" + h + mi + sec
  }

  /** Reads the fields back from a timestamp; None when the text is not one. */
  function ParseTimestamp(ts: string): (r: Option<DateTime>) {
    if !IsTimestampShape(ts) then None
    else
      assert forall i :: 0 <= i < 8 ==> ts[i] == ts[..8][i];
      assert forall i :: 9 <= i < 15 ==> ts[i] == ts[9..][i - 9];
      var t := DateTime(DecimalValue(ts[0..4]), DecimalValue(ts[4..6]), DecimalValue(ts[6..8]),
                        DecimalValue(ts[9..11]), DecimalValue(ts[11..13]), DecimalValue(ts[13..15]));
      if ValidDateTime(t) then Some(t) else None
  }

  /** The timestamp of a moment reads back as that moment. */
  lemma TimestampRoundTrip(t: DateTime)
    requires ValidDateTime(t)
    ensures ParseTimestamp(Timestamp(t)) == Some(t)
  {
    FieldPositions(ZeroPadded(t.year, 4), ZeroPadded(t.month, 2), ZeroPadded(t.day, 2),
                   ZeroPadded(t.hour, 2), ZeroPadded(t.minute, 2), ZeroPadded(t.second, 2));
    ZeroPaddedValue(t.year, 4);
    ZeroPaddedValue(t.month, 2);
    ZeroPaddedValue(t.day, 2);
    ZeroPaddedValue(t.hour, 2);
    ZeroPaddedValue(t.minute, 2);
    ZeroPaddedValue(t.second, 2);
  }

  /** A timestamp-shaped text is its six digit fields around the underscore. */
  lemma TimestampFields(ts: string)
    requires IsTimestampShape(ts)
    ensures AllDigits(ts[0..4]) && AllDigits(ts[4..6]) && AllDigits(ts[6..8])
    ensures AllDigits(ts[9..11]) && AllDigits(ts[11..13]) && AllDigits(ts[13..15])
    ensures ts == ts[0..4] + ts[4..6] + ts[6..8] + "_" + ts[9..11] + ts[11..13] + ts[13..15]
    ensures '/' !in ts
  {
    assert forall i :: 0 <= i < 8 ==> ts[i] == ts[..8][i];
    assert forall i :: 9 <= i < 15 ==> ts[i] == ts[9..][i - 9];
  }

  /** A text that reads as a moment is exactly that moment's timestamp: no two texts name one moment. */
  lemma ParsedTimestampIsCanonical(ts: string, t: DateTime)
    requires ParseTimestamp(ts) == Some(t)
    ensures ValidDateTime(t) && Timestamp(t) == ts
  {
    TimestampFields(ts);
    PaddedDecimalValue(ts[0..4]);
    PaddedDecimalValue(ts[4..6]);
    PaddedDecimalValue(ts[6..8]);
    PaddedDecimalValue(ts[9..11]);
    PaddedDecimalValue(ts[11..13]);
    PaddedDecimalValue(ts[13..15]);
  }

  /**
    `Path(file_path).name.split(".")[0]`: the longest prefix of the file name that has
    no "." in it.
   */
  function BaseLabel(name: string): (base: string)
    ensures '.' !in base
    ensures base <= name
    ensures |base| < |name| ==> name[|base|] == '.'
  {
    Split(name, '.')[0]
  }

  const Infix: string := "_selected_"
  const Extension: string := ".xlsx"

  /** `file_name_hunt + f"_selected_{timestamp}.xlsx"`. */
  function OutputFileName(base: string, timestamp: string): (name: string) {
    base + Infix + timestamp + Extension
  }

  /** Recovers the base label and the moment from an output file name; None when it is not one. */
  function ParseOutputFileName(name: string): (r: Option<(string, DateTime)>) {
    var n := |name|;
    if n < 30 || name[n - 5..] != Extension || name[n - 30..n - 20] != Infix then None
    else match ParseTimestamp(name[n - 20..n - 5])
      case None => None
      case Some(t) => Some((name[..n - 30], t))
  }

  /** The output file name determines the base label and the moment it was built from. */
  lemma OutputFileNameRoundTrip(base: string, t: DateTime)
    requires ValidDateTime(t)
    ensures ParseOutputFileName(OutputFileName(base, Timestamp(t))) == Some((base, t))
  {
    var name := OutputFileName(base, Timestamp(t));
    var n := |name|;
    assert n == |base| + 30;
    assert name[n - 5..] == Extension;
    assert name[n - 30..n - 20] == Infix;
    assert name[n - 20..n - 5] == Timestamp(t);
    assert name[..n - 30] == base;
    TimestampRoundTrip(t);
  }

  lemma NoSlashInOutputFileName(base: string, ts: string)
    requires '/' !in base && '/' !in ts
    ensures '/' !in OutputFileName(base, ts)
  {
    var name := OutputFileName(base, ts);
    forall i | 0 <= i < |name| ensures name[i] != '/' {
      if i < |base| { assert name[i] == base[i]; }
      else if i < |base| + 10 { assert name[i] == Infix[i - |base|]; }
      else if i < |base| + 10 + |ts| { assert name[i] == ts[i - |base| - 10]; }
      else { assert name[i] == Extension[i - |base| - 10 - |ts|]; }
    }
  }

  /**
    The name `main` and `save_to_excel` give the spreadsheet for the file at `filePath`
    written at moment `now`. It has no "/", so the file lands in the working directory,
    and it determines the input file's base label and the moment.
   */
  function ExportFileName(filePath: string, now: DateTime): (name: string)
    requires ValidDateTime(now)
    ensures '/' !in name
    ensures |name| == |BaseLabel(PathName(filePath))| + 30
    ensures ParseOutputFileName(name) == Some((BaseLabel(PathName(filePath)), now))
  {
    var base := BaseLabel(PathName(filePath));
    var ts := Timestamp(now);
    OutputFileNameRoundTrip(base, now);
    TimestampFields(ts);
    NoSlashInOutputFileName(base, ts);
    OutputFileName(base, ts)
  }

}
