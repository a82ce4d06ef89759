/** Calendar dates as `datetime.date` admits them, and the `YYYYMMDD`
    tokens of the statistics format (bin/get_rirstats.py:77-87). */
module Dates {
  import opened Text
  import opened Numbers

  datatype Date = Date(year: int, month: int, day: int)

  /** The proleptic Gregorian leap-year rule `datetime` uses. */
  predicate IsLeapYear(y: int) {
    y % 4 == 0 && (y % 100 != 0 || y % 400 == 0)
  }

  function DaysInMonth(y: int, m: int): (n: int)
    requires 1 <= m <= 12
    ensures 28 <= n <= 31
  {
    if m == 2 then (if IsLeapYear(y) then 29 else 28)
    else if m == 4 || m == 6 || m == 9 || m == 11 then 30
    else 31
  }

  /** What `datetime.date(y, m, d)` accepts: years 1 to 9999, months 1 to
      12, and a day that exists in that month. */
  predicate IsValidDate(d: Date) {
    1 <= d.year <= 9999 && 1 <= d.month <= 12 && 1 <= d.day <= DaysInMonth(d.year, d.month)
  }

  /** `get_date_from_yyyymmdd`: a date from an eight-digit token, or `None`
      when the token is not eight digits or names no calendar day. Year,
      month and day come from characters 0-3, 4-5 and 6-7. */
  function ParseDate(text: string): (r: Option<Date>)
    ensures r.Some? <==> |text| == 8 && AllDigits(text)
                         && IsValidDate(Date(DigitsValue(text[0..4]), DigitsValue(text[4..6]), DigitsValue(text[6..8])))
    ensures r.Some? ==> r.value.year == DigitsValue(text[0..4]) && r.value.month == DigitsValue(text[4..6])
                        && r.value.day == DigitsValue(text[6..8])
  {
    if |text| != 8 || !AllDigits(text) then None
    else
      var d := Date(DigitsValue(text[0..4]), DigitsValue(text[4..6]), DigitsValue(text[6..8]));
      if IsValidDate(d) then Some(d) else None
  }

  /** The token the registries write for a date: `YYYYMMDD`. */
  function Compact(d: Date): (t: string)
    requires IsValidDate(d)
    ensures |t| == 8 && AllDigits(t)
  {
    WidthLemmas(d);
    ZeroPad(NatToString(d.year), 4) + ZeroPad(NatToString(d.month), 2) + ZeroPad(NatToString(d.day), 2)
  }

  /** `str(date)`: ISO 8601 `YYYY-MM-DD`. */
  function IsoFormat(d: Date): string
    requires IsValidDate(d)
  {
    ZeroPad(NatToString(d.year), 4) + "-" + ZeroPad(NatToString(d.month), 2) + "-" + ZeroPad(NatToString(d.day), 2)
  }

  lemma WidthLemmas(d: Date)
    requires IsValidDate(d)
    ensures |ZeroPad(NatToString(d.year), 4)| == 4
    ensures |ZeroPad(NatToString(d.month), 2)| == 2 && |ZeroPad(NatToString(d.day), 2)| == 2
    ensures AllDigits(ZeroPad(NatToString(d.year), 4))
    ensures AllDigits(ZeroPad(NatToString(d.month), 2)) && AllDigits(ZeroPad(NatToString(d.day), 2))
  {
    assert Pow10(4) == 10000 && Pow10(2) == 100;
    NatToStringWidth(d.year, 4);
    NatToStringWidth(d.month, 2);
    NatToStringWidth(d.day, 2);
    ZeroPadValue(d.year, 4);
    ZeroPadValue(d.month, 2);
    ZeroPadValue(d.day, 2);
  }
  /** `str(date)` is made of digits and dashes only. */
  lemma IsoFormatAvoids(d: Date, c: char)
    requires IsValidDate(d) && !IsDigit(c) && c != '-'
    ensures c !in IsoFormat(d)
  {
    WidthLemmas(d);
  }


  /** Every valid date survives encoding to its token and decoding back. */
  lemma ParseCompact(d: Date)
    requires IsValidDate(d)
    ensures ParseDate(Compact(d)) == Some(d)
  {
    var t := Compact(d);
    WidthLemmas(d);
    var y, m, dd := ZeroPad(NatToString(d.year), 4), ZeroPad(NatToString(d.month), 2), ZeroPad(NatToString(d.day), 2);
    assert t[0..4] == y && t[4..6] == m && t[6..8] == dd;
    ZeroPadValue(d.year, 4);
    ZeroPadValue(d.month, 2);
    ZeroPadValue(d.day, 2);
  }

  /** A token that decodes is exactly the token of its date: no two tokens
      decode to the same date. */
  lemma CompactParse(text: string)
    requires ParseDate(text).Some?
    ensures Compact(ParseDate(text).value) == text
  {
    var d := ParseDate(text).value;
    ZeroPadOfValue(text[0..4]);
    ZeroPadOfValue(text[4..6]);
    ZeroPadOfValue(text[6..8]);
    assert text == text[0..4] + text[4..6] + text[6..8];
  }

  /** The ISO text of a date is its token with dashes after the year and the
      month, so the output column carries the registry's date unchanged. */
  lemma IsoFormatOfCompact(d: Date)
    requires IsValidDate(d)
    ensures |IsoFormat(d)| == 10
    ensures var t := Compact(d); IsoFormat(d) == t[0..4] + "-" + t[4..6] + "-" + t[6..8]
  {
    WidthLemmas(d);
    var t := Compact(d);
    assert t[0..4] == ZeroPad(NatToString(d.year), 4);
    assert t[4..6] == ZeroPad(NatToString(d.month), 2);
    assert t[6..8] == ZeroPad(NatToString(d.day), 2);
  }

  /** Eight digits that name a thirteenth month or later are refused. */
  lemma ParseDateRejects(text: string)
    requires |text| == 8 && AllDigits(text) && DigitsValue(text[4..6]) > 12
    ensures ParseDate(text).None?
  {
  }
}
