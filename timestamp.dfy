/**
 * The timestamp conversion of the enhanced indexer:
 * `datetime.strptime(text, '%Y-%m-%dT%H:%M:%SZ').isoformat()`.
 * The format fixes the Atom/RFC 3339 UTC form `YYYY-MM-DDTHH:MM:SSZ`;
 * the result is the ISO 8601 local form `YYYY-MM-DDTHH:MM:SS`.
 */
module Timestamp {
  import opened Wrappers
  import opened Text

  datatype DateTime = DateTime(year: nat, month: nat, day: nat, hour: nat, minute: nat, second: nat)

  const MinYear: nat := 1
  const MaxYear: nat := 9999

  /** Proleptic Gregorian leap years, as Python's `calendar.isleap`. */
  predicate IsLeapYear(y: nat) {
    y % 4 == 0 && (y % 100 != 0 || y % 400 == 0)
  }

  function DaysInMonth(y: nat, m: nat): nat
    requires 1 <= m <= 12
  {
    if m == 2 then (if IsLeapYear(y) then 29 else 28)
    else if m == 4 || m == 6 || m == 9 || m == 11 then 30
    else 31
  }

  /** The values Python's `datetime` constructor accepts. */
  predicate Valid(dt: DateTime) {
    && MinYear <= dt.year <= MaxYear
    && 1 <= dt.month <= 12
    && 1 <= dt.day <= DaysInMonth(dt.year, dt.month)
    && dt.hour < 24
    && dt.minute < 60
    && dt.second < 60
  }

  // ---------------------------------------------------------------------
  // Parsing with the format '%Y-%m-%dT%H:%M:%SZ'
  // ---------------------------------------------------------------------

  /** Positions of the twenty-character pattern that hold digits. */
  predicate DigitAt(i: nat) {
    i < 19 && i != 4 && i != 7 && i != 10 && i != 13 && i != 16
  }

  /** The text matches the pattern of the format; strptime compares the
      literal letters `T` and `Z` without regard to case. */
  predicate Shaped(s: string) {
    && |s| == 20
    && (forall i :: 0 <= i < 20 && DigitAt(i) ==> IsDigit(s[i]))
    && s[4] == '-' && s[7] == '-'
    && (s[10] == 'T' || s[10] == 't')
    && s[13] == ':' && s[16] == ':'
    && (s[19] == 'Z' || s[19] == 'z')
  }

  function Num2(s: string, i: nat): nat
    requires i + 1 < |s| && IsDigit(s[i]) && IsDigit(s[i + 1])
  {
    10 * DigitValue(s[i]) + DigitValue(s[i + 1])
  }

  function Num4(s: string, i: nat): nat
    requires i + 3 < |s| && IsDigit(s[i]) && IsDigit(s[i + 1]) && IsDigit(s[i + 2]) && IsDigit(s[i + 3])
  {
    100 * Num2(s, i) + Num2(s, i + 2)
  }

  /** `datetime.strptime(s, '%Y-%m-%dT%H:%M:%SZ')`: None where Python raises
      ValueError (pattern mismatch or a field out of range). */
  function Parse(s: string): (r: Option<DateTime>)
    ensures r.Some? ==> Shaped(s) && Valid(r.value)
  {
    if Shaped(s) then
      var dt := DateTime(Num4(s, 0), Num2(s, 5), Num2(s, 8), Num2(s, 11), Num2(s, 14), Num2(s, 17));
      if Valid(dt) then Some(dt) else None
    else None
  }

  // ---------------------------------------------------------------------
  // Formatting with isoformat()
  // ---------------------------------------------------------------------

  function Pad2(n: nat): (r: string)
    requires n < 100
    ensures |r| == 2 && IsDigit(r[0]) && IsDigit(r[1])
  {
    [DigitChar(n / 10), DigitChar(n % 10)]
  }

  function Pad4(n: nat): (r: string)
    requires n < 10000
    ensures |r| == 4
  {
    Pad2(n / 100) + Pad2(n % 100)
  }

  /** `dt.isoformat()` for a value without microseconds or time zone. */
  function IsoFormat(dt: DateTime): (r: string)
    requires Valid(dt)
    ensures |r| == 19
  {
    Pad4(dt.year) + "-" + Pad2(dt.month) + "-" + Pad2(dt.day)
      + "T" + Pad2(dt.hour) + ":" + Pad2(dt.minute) + ":" + Pad2(dt.second)
  }

  /** The timestamp that the enhanced `index_papers` stores,
      `strptime(...).isoformat()`, or None where that expression raises.
      It fails exactly where parsing fails, and what it returns is the input
      with an upper-case `T` and without the trailing `Z`. */
  function Convert(s: string): (r: Option<string>)
    ensures r.Some? <==> Parse(s).Some?
    ensures r.Some? ==> |s| == 20 && (s[19] == 'Z' || s[19] == 'z') && r.value == s[..10] + "T" + s[11..19]
  {
    match Parse(s)
    case None => None
    case Some(dt) =>
      IsoFormatOfParse(s, dt);
      Some(IsoFormat(dt))
  }

  // ---------------------------------------------------------------------
  // Round trips
  // ---------------------------------------------------------------------

  lemma {:induction false} Pad2Num2(s: string, i: nat)
    requires i + 1 < |s| && IsDigit(s[i]) && IsDigit(s[i + 1])
    ensures Num2(s, i) < 100 && Pad2(Num2(s, i)) == s[i..i + 2]
  {
  }

  lemma {:induction false} Num2Pad2(n: nat)
    requires n < 100
    ensures Num2(Pad2(n), 0) == n
  {
  }

  /** The text without its letters, cut at the field boundaries. */
  lemma {:induction false} TextPieces(s: string)
    requires |s| == 20
    ensures s[..10] + "T" + s[11..19]
         == s[0..2] + s[2..4] + [s[4]] + s[5..7] + [s[7]] + s[8..10] + "T"
            + s[11..13] + [s[13]] + s[14..16] + [s[16]] + s[17..19]
  {
    assert s[..10] == s[0..2] + s[2..4] + [s[4]] + s[5..7] + [s[7]] + s[8..10];
    assert s[11..19] == s[11..13] + [s[13]] + s[14..16] + [s[16]] + s[17..19];
  }

  /** Formatting a parsed value reproduces the text it came from, with the
      separator in upper case and without the trailing `Z`. */
  lemma {:induction false} IsoFormatOfParse(s: string, dt: DateTime)
    requires Parse(s) == Some(dt)
    ensures IsoFormat(dt) == s[..10] + "T" + s[11..19]
  {
    Pad2Num2(s, 0);
    Pad2Num2(s, 2);
    Pad2Num2(s, 5);
    Pad2Num2(s, 8);
    Pad2Num2(s, 11);
    Pad2Num2(s, 14);
    Pad2Num2(s, 17);
    assert dt.year / 100 == Num2(s, 0) && dt.year % 100 == Num2(s, 2);
    TextPieces(s);
  }

  /** A rendered two-digit field inside a longer text reads back as its value. */
  lemma {:induction false} Num2Slice(s: string, i: nat, n: nat)
    requires n < 100 && i + 1 < |s| && s[i..i + 2] == Pad2(n)
    ensures IsDigit(s[i]) && IsDigit(s[i + 1]) && Num2(s, i) == n
  {
    assert s[i] == s[i..i + 2][0] && s[i + 1] == s[i..i + 2][1];
    Num2Pad2(n);
  }

  /** Where each field and each separator of the rendering sits. */
  lemma {:induction false} IsoFormatFields(dt: DateTime, s: string)
    requires Valid(dt) && s == IsoFormat(dt) + "Z"
    ensures |s| == 20
    ensures s[0..2] == Pad2(dt.year / 100) && s[2..4] == Pad2(dt.year % 100)
    ensures s[5..7] == Pad2(dt.month) && s[8..10] == Pad2(dt.day)
    ensures s[11..13] == Pad2(dt.hour) && s[14..16] == Pad2(dt.minute) && s[17..19] == Pad2(dt.second)
    ensures s[4] == '-' && s[7] == '-' && s[10] == 'T' && s[13] == ':' && s[16] == ':' && s[19] == 'Z'
  {
    var y1, y2 := Pad2(dt.year / 100), Pad2(dt.year % 100);
    var mo, d := Pad2(dt.month), Pad2(dt.day);
    var h, mi, se := Pad2(dt.hour), Pad2(dt.minute), Pad2(dt.second);
    assert s == y1 + y2 + "-" + mo + "-" + d + "T" + h + ":" + mi + ":" + se + "Z";
  }

  /** Parsing the formatted value with a `Z` appended gives the value back. */
  lemma {:induction false} ParseOfIsoFormat(dt: DateTime)
    requires Valid(dt)
    ensures Parse(IsoFormat(dt) + "Z") == Some(dt)
  {
    var s := IsoFormat(dt) + "Z";
    IsoFormatFields(dt, s);
    Num2Slice(s, 0, dt.year / 100);
    Num2Slice(s, 2, dt.year % 100);
    Num2Slice(s, 5, dt.month);
    Num2Slice(s, 8, dt.day);
    Num2Slice(s, 11, dt.hour);
    Num2Slice(s, 14, dt.minute);
    Num2Slice(s, 17, dt.second);
    assert Shaped(s);
    assert Num4(s, 0) == dt.year;
  }

  /** Convert succeeds exactly on the texts that are, up to the case of the
      two letters, the canonical rendering of a valid date and time
      followed by `Z`; what it returns is that rendering without the `Z`. */
  lemma {:induction false} ConvertAcceptsExactly(s: string)
    ensures Convert(s).Some? <==>
      && |s| == 20 && (s[19] == 'Z' || s[19] == 'z') && (s[10] == 'T' || s[10] == 't')
      && exists dt :: Valid(dt) && IsoFormat(dt) == s[..10] + "T" + s[11..19]
  {
    if Convert(s).Some? {
      ConvertedIsCanonical(s);
    }
    if && |s| == 20 && (s[19] == 'Z' || s[19] == 'z') && (s[10] == 'T' || s[10] == 't')
       && exists dt :: Valid(dt) && IsoFormat(dt) == s[..10] + "T" + s[11..19]
    {
      var dt :| Valid(dt) && IsoFormat(dt) == s[..10] + "T" + s[11..19];
      CanonicalConverts(s, dt);
    }
  }

  /** A text that converts is the rendering of the value it parses to. */
  lemma {:induction false} ConvertedIsCanonical(s: string)
    requires Convert(s).Some?
    ensures |s| == 20 && (s[10] == 'T' || s[10] == 't') && (s[19] == 'Z' || s[19] == 'z')
    ensures Valid(Parse(s).value) && IsoFormat(Parse(s).value) == s[..10] + "T" + s[11..19]
  {
    IsoFormatOfParse(s, Parse(s).value);
  }

  /** The rendering of a valid value followed by `Z`, in either letter case,
      converts. */
  lemma {:induction false} CanonicalConverts(s: string, dt: DateTime)
    requires |s| == 20 && (s[19] == 'Z' || s[19] == 'z') && (s[10] == 'T' || s[10] == 't')
    requires Valid(dt) && IsoFormat(dt) == s[..10] + "T" + s[11..19]
    ensures Convert(s).Some?
  {
    ParseOfIsoFormat(dt);
    var c := IsoFormat(dt) + "Z";
    assert c[..10] == s[..10] && c[11..19] == s[11..19];
    assert forall i :: 0 <= i < 20 && i != 10 && i != 19 ==> s[i] == c[i] by {
      forall i | 0 <= i < 20 && i != 10 && i != 19 ensures s[i] == c[i] {
        if i < 10 {
          assert s[i] == s[..10][i] && c[i] == c[..10][i];
        } else {
          assert s[i] == s[11..19][i - 11] && c[i] == c[11..19][i - 11];
        }
      }
    }
    ParseIgnoresLetterCase(s, c);
  }

  /** Only the case of the two letters tells apart texts that Parse reads alike. */
  lemma {:induction false} ParseIgnoresLetterCase(s: string, c: string)
    requires |s| == 20 && |c| == 20
    requires forall i :: 0 <= i < 20 && i != 10 && i != 19 ==> s[i] == c[i]
    requires s[10] in "Tt" && c[10] in "Tt" && s[19] in "Zz" && c[19] in "Zz"
    ensures Parse(s) == Parse(c)
  {
    assert Shaped(s) == Shaped(c);
    if Shaped(s) {
      assert Num4(s, 0) == Num4(c, 0);
      assert Num2(s, 5) == Num2(c, 5) && Num2(s, 8) == Num2(c, 8);
      assert Num2(s, 11) == Num2(c, 11) && Num2(s, 14) == Num2(c, 14) && Num2(s, 17) == Num2(c, 17);
    }
  }

  /** The canonical form: a valid `YYYY-MM-DDTHH:MM:SSZ` text converts to
      the same text without its trailing `Z`. */
  lemma {:induction false} ConvertCanonical(dt: DateTime)
    requires Valid(dt)
    ensures Convert(IsoFormat(dt) + "Z") == Some(IsoFormat(dt))
  {
    ParseOfIsoFormat(dt);
  }
}
