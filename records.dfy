/** The lines of an RIR extended delegation statistics file and how one
    line is decoded (bin/get_rirstats.py:91-169): the version line, summary
    lines and detail lines, with the process exit of the original shown as a
    `Fatal` outcome and an ignored line as `Skip`. */
module Records {
  import opened Text
  import opened Numbers
  import opened Dates
  import opened Ipv4

  const Ipv6Space: nat := 0x1_0000_0000_0000_0000_0000_0000_0000_0000

  type Ipv6Address = n: int | 0 <= n < Ipv6Space

  /** `ipaddress.IPv6Address(text)` (`None` where it raises) and
      `str(address)`. Their textual rules are not part of this model: the
      parser and the printer are given as this pair of functions. */
  datatype Ipv6Codec = Ipv6Codec(parse: string -> Option<Ipv6Address>, show: Ipv6Address -> string)

  /** The two halves of the codec fit together: printed text reads back as
      the same address and holds no field separator. */
  predicate IsFaithful(codec: Ipv6Codec) {
    forall a: Ipv6Address :: codec.parse(codec.show(a)) == Some(a) && '|' !in codec.show(a)
  }

  /** The result of decoding one line: a value, a line to ignore, or a
      malformed line that stops the whole run (`exit(1)`). */
  datatype Outcome<+T> = Ok(value: T) | Skip | Fatal

  /** `version|registry|serial|records|startdate|enddate|UTCoffset`. */
  datatype VersionRecord = VersionRecord(
    version: FloatLiteral, registry: string, serial: int, records: int,
    startDate: Option<Date>, endDate: Option<Date>, utcOffset: int)

  /** The first address of a delegated range, by address family. */
  datatype Start = Ipv4Start(address: Address) | Ipv6Start(address6: Ipv6Address)

  /** `registry|cc|type|start|value|date|status[|opaque-id]` for `ipv4` and
      `ipv6`: `value` is an address count for IPv4 and a prefix length for
      IPv6, exactly as the integer field reads. */
  datatype DetailRecord = DetailRecord(
    registry: string, cc: string, start: Start, value: int,
    date: Option<Date>, status: string, opaqueId: Option<string>)

  /** `registry|*|type|*|count|summary`. */
  datatype SummaryRecord = SummaryRecord(registry: string, family: string, count: int)

  datatype Record = Summary(summary: SummaryRecord) | Detail(detail: DetailRecord)

  /** The family name written in the `type` field and the CSV. */
  function FamilyName(s: Start): string {
    if s.Ipv4Start? then "ipv4" else "ipv6"
  }

  /** `not float(text)` or a `ValueError`: the version test of
      bin/get_rirstats.py:95-98 and :103. */
  predicate IsMissingVersion(text: string) {
    ParseFloat(text).None? || IsZero(ParseFloat(text).value)
  }

  /** `parse_version_record`: the version line is never skipped; it is
      either accepted or fatal. */
  function ParseVersionRecord(row: string): (r: Outcome<VersionRecord>)
    ensures !r.Skip?
  {
    var fields := Split(row, '|');
    if IsMissingVersion(fields[0]) || |fields| != 7 then Fatal
    else
      match (ParseInt(fields[2]), ParseInt(fields[3]), ParseInt(fields[6]))
      case (Some(serial), Some(records), Some(offset)) =>
        Ok(VersionRecord(ParseFloat(fields[0]).value, fields[1], serial, records,
                         ParseDate(fields[4]), ParseDate(fields[5]), offset))
      case _ => Fatal
  }

  /** A version field too small for a double, such as `1e-400`, reads as
      `0.0`, counts as missing, and stops the run whatever else the line
      holds. */
  lemma TinyVersionFatal(row: string)
    ensures IsMissingVersion("1e-400")
    ensures Split(row, '|')[0] == "1e-400" ==> ParseVersionRecord(row).Fatal?
  {
    FloatOfTinyText();
  }

  /** The version line is accepted exactly when it has seven fields, a
      non-zero number first, and integers for serial, record count and UTC
      offset; the record then holds those values, with each date `None`
      where it does not decode. The source's range test
      `3.0 <= version < 2.0` can never hold, so no version is refused for
      its value. */
  lemma VersionRecordOutcome(row: string)
    ensures var f := Split(row, '|');
            var r := ParseVersionRecord(row);
            (r.Ok? <==> !IsMissingVersion(f[0]) && |f| == 7
                        && ParseInt(f[2]).Some? && ParseInt(f[3]).Some? && ParseInt(f[6]).Some?)
            && (r.Ok? ==> r.value == VersionRecord(ParseFloat(f[0]).value, f[1], ParseInt(f[2]).value,
                                                   ParseInt(f[3]).value, ParseDate(f[4]), ParseDate(f[5]),
                                                   ParseInt(f[6]).value))
  {
  }

  /** The typed start and value of a detail line decode for its family:
      integers for `asn`, an IPv4 or IPv6 address and an integer for the
      address families; other families decode nothing and so never fail
      here (bin/get_rirstats.py:144-155). */
  predicate TypedFieldsDecode(fields: seq<string>, codec: Ipv6Codec)
    requires |fields| >= 5
  {
    match fields[2]
    case "asn" => ParseInt(fields[3]).Some? && ParseInt(fields[4]).Some?
    case "ipv4" => ParseAddress(fields[3]).Some? && ParseInt(fields[4]).Some?
    case "ipv6" => codec.parse(fields[3]).Some? && ParseInt(fields[4]).Some?
    case _ => true
  }

  /** `parse_record`: decodes a summary or a detail line from its fields.
      Only a detail line, of six fields or more, can stop the run. */
  function ParseRecord(row: string, codec: Ipv6Codec): (r: Outcome<Record>)
    ensures r.Fatal? ==> |Split(row, '|')| >= 6 && Split(row, '|')[5] != "summary"
  {
    DecodeFields(Split(row, '|'), codec)
  }

  /** The decoding of a line's fields: fewer than six fields is no record; a
      kept summary names its registry and its family; a kept detail record
      has a status field and the family of its start is the `type` field. */
  function DecodeFields(f: seq<string>, codec: Ipv6Codec): (r: Outcome<Record>)
    ensures |f| < 6 ==> r.Skip?
    ensures r.Ok? ==> |f| >= 6 && (r.value.Summary? <==> f[5] == "summary")
    ensures r.Ok? && r.value.Summary? ==> r.value.summary.registry == f[0] && r.value.summary.family == f[2]
    ensures r.Ok? && r.value.Detail? ==> |f| >= 7 && FamilyName(r.value.detail.start) == f[2]
  {
    if |f| < 6 then Skip
    else if f[5] == "summary" then
      match ParseInt(f[4])
      case None => Skip
      case Some(count) =>
        if f[2] == "ipv4" || f[2] == "ipv6" then Ok(Summary(SummaryRecord(f[0], f[2], count)))
        else Skip
    else if !TypedFieldsDecode(f, codec) || |f| < 7 then Fatal
    else
      var opaqueId := if |f| >= 8 then Some(f[7]) else None;
      var date := ParseDate(f[5]);
      if f[2] == "ipv4" then
        Ok(Detail(DetailRecord(f[0], f[1], Ipv4Start(ParseAddress(f[3]).value),
                               ParseInt(f[4]).value, date, f[6], opaqueId)))
      else if f[2] == "ipv6" then
        Ok(Detail(DetailRecord(f[0], f[1], Ipv6Start(codec.parse(f[3]).value),
                               ParseInt(f[4]).value, date, f[6], opaqueId)))
      else Skip
  }

  /** A line of fewer than six fields is skipped. */
  lemma ShortLineSkipped(row: string, codec: Ipv6Codec)
    requires |Split(row, '|')| < 6
    ensures ParseRecord(row, codec) == Skip
  {
  }

  /** A summary line is never fatal; it is kept exactly when its count is an
      integer and its family is `ipv4` or `ipv6`, and then it carries the
      registry, the family and the count. */
  lemma SummaryLineOutcome(row: string, codec: Ipv6Codec)
    requires var f := Split(row, '|'); |f| >= 6 && f[5] == "summary"
    ensures var f := Split(row, '|');
            var r := ParseRecord(row, codec);
            !r.Fatal?
            && (r.Ok? <==> ParseInt(f[4]).Some? && (f[2] == "ipv4" || f[2] == "ipv6"))
            && (r.Ok? ==> r.value == Summary(SummaryRecord(f[0], f[2], ParseInt(f[4]).value)))
  {
  }

  /** A detail line is fatal exactly when its typed fields do not decode
      for its family or the status field is missing; otherwise it is kept
      when its family is `ipv4` or `ipv6` and skipped for any other family,
      `asn` included. */
  lemma DetailLineOutcome(row: string, codec: Ipv6Codec)
    requires var f := Split(row, '|'); |f| >= 6 && f[5] != "summary"
    ensures var f := Split(row, '|');
            var r := ParseRecord(row, codec);
            (r.Fatal? <==> !TypedFieldsDecode(f, codec) || |f| < 7)
            && (r.Ok? <==> !r.Fatal? && (f[2] == "ipv4" || f[2] == "ipv6"))
            && (r.Ok? ==> r.value.Detail?)
  {
  }

  /** A kept detail record holds the fields of its line: registry, country,
      the decoded start address of the line's family, the integer value,
      the decoded date, the status, and the opaque id exactly when there is
      an eighth field. */
  lemma DetailRecordFields(row: string, codec: Ipv6Codec)
    requires ParseRecord(row, codec).Ok? && ParseRecord(row, codec).value.Detail?
    ensures var f := Split(row, '|');
            var d := ParseRecord(row, codec).value.detail;
            |f| >= 7 && FamilyName(d.start) == f[2]
            && (d.start.Ipv4Start? ==> ParseAddress(f[3]) == Some(d.start.address))
            && (d.start.Ipv6Start? ==> codec.parse(f[3]) == Some(d.start.address6))
            && d.registry == f[0] && d.cc == f[1] && ParseInt(f[4]) == Some(d.value)
            && d.date == ParseDate(f[5]) && d.status == f[6]
            && (d.opaqueId.None? <==> |f| < 8)
            && (d.opaqueId.Some? ==> d.opaqueId.value == f[7])
  {
  }

  /** The text of a date field: the token of the date, or empty. */
  function DateField(d: Option<Date>): string
    requires d.Some? ==> IsValidDate(d.value)
  {
    if d.Some? then Compact(d.value) else ""
  }

  /** A field holds no separator. */
  predicate IsField(s: string) {
    '|' !in s
  }

  /** The text fields of a version record hold no separator and its dates
      are valid. */
  predicate IsWritableVersion(versionText: string, v: VersionRecord) {
    IsField(versionText) && IsField(v.registry)
    && (v.startDate.Some? ==> IsValidDate(v.startDate.value))
    && (v.endDate.Some? ==> IsValidDate(v.endDate.value))
  }

  /** The version line of a record. */
  function VersionLine(versionText: string, v: VersionRecord): string
    requires IsWritableVersion(versionText, v)
  {
    Join(VersionFields(versionText, v), '|')
  }

  function VersionFields(versionText: string, v: VersionRecord): (f: seq<string>)
    requires IsWritableVersion(versionText, v)
    ensures |f| == 7
  {
    [versionText, v.registry, IntToString(v.serial), IntToString(v.records),
     DateField(v.startDate), DateField(v.endDate), IntToString(v.utcOffset)]
  }

  lemma NumeralIsField(i: int)
    ensures IsField(IntToString(i))
  {
    var s := IntToString(i);
    if i >= 0 {
      assert AllDigits(s);
    } else {
      assert AllDigits(s[1..]);
    }
  }

  lemma DateFieldFacts(d: Option<Date>)
    requires d.Some? ==> IsValidDate(d.value)
    ensures IsField(DateField(d)) && ParseDate(DateField(d)) == d
    ensures DateField(d) != "summary"
  {
    if d.Some? {
      ParseCompact(d.value);
      assert AllDigits(Compact(d.value));
      assert IsDigit(Compact(d.value)[0]);
    }
  }

  /** Every version record survives writing its line and parsing it again;
      in particular versions such as `1.9` or `3.0` are accepted. */
  lemma VersionRoundTrip(versionText: string, v: VersionRecord)
    requires IsWritableVersion(versionText, v)
    requires ParseFloat(versionText) == Some(v.version) && !IsZero(v.version)
    ensures ParseVersionRecord(VersionLine(versionText, v)) == Ok(v)
  {
    VersionLineSplits(versionText, v);
    VersionFieldsDecode(versionText, v);
    VersionFieldsAccepted(VersionFields(versionText, v), v);
  }

  lemma VersionFieldsDecode(versionText: string, v: VersionRecord)
    requires IsWritableVersion(versionText, v)
    ensures var f := VersionFields(versionText, v);
            ParseInt(f[2]) == Some(v.serial) && ParseInt(f[3]) == Some(v.records)
            && ParseInt(f[6]) == Some(v.utcOffset)
            && ParseDate(f[4]) == v.startDate && ParseDate(f[5]) == v.endDate
  {
    var f := VersionFields(versionText, v);
    NumeralReadsBack(f[2], v.serial);
    NumeralReadsBack(f[3], v.records);
    NumeralReadsBack(f[6], v.utcOffset);
    DateFieldReadsBack(f[4], v.startDate);
    DateFieldReadsBack(f[5], v.endDate);
  }

  lemma NumeralReadsBack(t: string, x: int)
    requires t == IntToString(x)
    ensures ParseInt(t) == Some(x) && IsField(t)
  {
    IntRoundTrip(x);
    NumeralIsField(x);
  }

  lemma DateFieldReadsBack(t: string, d: Option<Date>)
    requires d.Some? ==> IsValidDate(d.value)
    requires t == DateField(d)
    ensures ParseDate(t) == d && IsField(t) && t != "summary"
  {
    DateFieldFacts(d);
  }

  /** Fields that decode to the parts of `v` make up the line of `v`. */
  lemma VersionFieldsAccepted(f: seq<string>, v: VersionRecord)
    requires |f| == 7
    requires ParseFloat(f[0]) == Some(v.version) && !IsZero(v.version)
    requires ParseInt(f[2]) == Some(v.serial) && ParseInt(f[3]) == Some(v.records)
    requires ParseInt(f[6]) == Some(v.utcOffset)
    requires ParseDate(f[4]) == v.startDate && ParseDate(f[5]) == v.endDate
    requires v.registry == f[1]
    ensures forall row :: Split(row, '|') == f ==> ParseVersionRecord(row) == Ok(v)
  {
  }

  lemma VersionLineSplits(versionText: string, v: VersionRecord)
    requires IsWritableVersion(versionText, v)
    ensures Split(VersionLine(versionText, v), '|') == VersionFields(versionText, v)
  {
    var fields := VersionFields(versionText, v);
    NumeralIsField(v.serial);
    NumeralIsField(v.records);
    NumeralIsField(v.utcOffset);
    DateFieldFacts(v.startDate);
    DateFieldFacts(v.endDate);
    FieldsOfSeven(fields);
    SplitJoin(fields, '|');
  }

  /** Seven separator-free fields, checked one at a time. */
  lemma FieldsOfSeven(fields: seq<string>)
    requires |fields| == 7
    requires IsField(fields[0]) && IsField(fields[1]) && IsField(fields[2]) && IsField(fields[3])
    requires IsField(fields[4]) && IsField(fields[5]) && IsField(fields[6])
    ensures forall i :: 0 <= i < |fields| ==> '|' !in fields[i]
  {
  }

  /** A detail record that a registry could have written: text fields
      without separators and a valid date. */
  predicate IsWritableDetail(d: DetailRecord) {
    IsField(d.registry) && IsField(d.cc) && IsField(d.status)
    && (d.opaqueId.Some? ==> IsField(d.opaqueId.value))
    && (d.date.Some? ==> IsValidDate(d.date.value))
  }

  /** The text of the start field. */
  function StartField(s: Start, codec: Ipv6Codec): string {
    match s
    case Ipv4Start(a) => FormatAddress(a)
    case Ipv6Start(a) => codec.show(a)
  }

  /** The line of a detail record: seven fields, eight with an opaque id. */
  function DetailLine(d: DetailRecord, codec: Ipv6Codec): string
    requires IsWritableDetail(d)
  {
    Join(DetailFields(d, codec), '|')
  }

  function DetailFields(d: DetailRecord, codec: Ipv6Codec): (f: seq<string>)
    requires IsWritableDetail(d)
    ensures |f| == if d.opaqueId.Some? then 8 else 7
  {
    var common := [d.registry, d.cc, FamilyName(d.start), StartField(d.start, codec), IntToString(d.value),
                   DateField(d.date), d.status];
    if d.opaqueId.Some? then common + [d.opaqueId.value] else common
  }

  /** Every IPv4 or IPv6 detail record survives writing its line and parsing
      it again, with or without an opaque id. */
  lemma DetailRoundTrip(d: DetailRecord, codec: Ipv6Codec)
    requires IsWritableDetail(d) && IsFaithful(codec)
    ensures ParseRecord(DetailLine(d, codec), codec) == Ok(Detail(d))
  {
    var f := DetailFields(d, codec);
    DetailLineSplits(d, codec);
    assert f[0] == d.registry && f[1] == d.cc && f[2] == FamilyName(d.start) && f[6] == d.status;
    assert f[3] == StartField(d.start, codec) && f[4] == IntToString(d.value) && f[5] == DateField(d.date);
    assert d.opaqueId.Some? ==> f[7] == d.opaqueId.value;
    NumeralReadsBack(f[4], d.value);
    DateFieldReadsBack(f[5], d.date);
    StartFieldReadsBack(f, d.start, codec);
    DetailFieldsAccepted(f, d, codec);
  }

  /** The start field reads back as the start address. */
  lemma StartFieldReadsBack(f: seq<string>, s: Start, codec: Ipv6Codec)
    requires IsFaithful(codec)
    requires |f| >= 4 && f[2] == FamilyName(s) && f[3] == StartField(s, codec)
    ensures s.Ipv4Start? ==> ParseAddress(f[3]) == Some(s.address)
    ensures s.Ipv6Start? ==> codec.parse(f[3]) == Some(s.address6)
  {
    match s
    case Ipv4Start(a) => ParseFormat(a);
    case Ipv6Start(a) => assert codec.parse(codec.show(a)) == Some(a);
  }

  /** Fields that decode to the parts of `d` make up the line of `d`. */
  lemma DetailFieldsAccepted(f: seq<string>, d: DetailRecord, codec: Ipv6Codec)
    requires |f| == 7 || |f| == 8
    requires f[0] == d.registry && f[1] == d.cc && f[2] == FamilyName(d.start) && f[6] == d.status
    requires d.start.Ipv4Start? ==> ParseAddress(f[3]) == Some(d.start.address)
    requires d.start.Ipv6Start? ==> codec.parse(f[3]) == Some(d.start.address6)
    requires ParseInt(f[4]) == Some(d.value) && ParseDate(f[5]) == d.date && f[5] != "summary"
    requires d.opaqueId.None? <==> |f| == 7
    requires d.opaqueId.Some? ==> f[7] == d.opaqueId.value
    ensures DecodeFields(f, codec) == Ok(Detail(d))
  {
    assert TypedFieldsDecode(f, codec);
    var r := DecodeFields(f, codec);
    assert r.Ok? && r.value.Detail?;
    if d.start.Ipv4Start? {
      assert r.value.detail.start == d.start;
    } else {
      assert r.value.detail.start == d.start;
    }
  }

  lemma DetailLineSplits(d: DetailRecord, codec: Ipv6Codec)
    requires IsWritableDetail(d) && IsFaithful(codec)
    ensures Split(DetailLine(d, codec), '|') == DetailFields(d, codec)
  {
    var fields := DetailFields(d, codec);
    NumeralIsField(d.value);
    DateFieldFacts(d.date);
    assert IsField(StartField(d.start, codec)) by {
      match d.start
      case Ipv4Start(a) =>
        ParseFormat(a);
        SplitNoSepInverse(FormatAddress(a));
      case Ipv6Start(a) =>
        assert codec.parse(codec.show(a)) == Some(a) && '|' !in codec.show(a);
    }
    FieldsOfSeven(fields[..7]);
    assert forall i :: 0 <= i < |fields| ==> IsField(fields[i]) by {
      forall i | 0 <= i < |fields| ensures IsField(fields[i]) {
        if i < 7 {
          assert fields[i] == fields[..7][i];
        }
      }
    }
    SplitJoin(fields, '|');
  }

  /** Dotted-quad text holds digits and dots only. */
  lemma SplitNoSepInverse(s: string)
    requires ParseAddress(s).Some?
    ensures '|' !in s
  {
    var parts := Split(s, '.');
    JoinSplit(s, '.');
    forall i | 0 <= i < 4 ensures '|' !in parts[i] {
      assert AllDigits(parts[i]);
    }
    JoinAvoids(parts, '.', '|');
  }

  /** The summary line of a count. */
  function SummaryLine(s: SummaryRecord): string
    requires IsField(s.registry)
  {
    Join(SummaryFields(s), '|')
  }

  function SummaryFields(s: SummaryRecord): (f: seq<string>)
    ensures |f| == 6
  {
    [s.registry, "*", s.family, "*", IntToString(s.count), "summary"]
  }

  /** Summary lines of the two address families parse back to their record. */
  lemma SummaryRoundTrip(s: SummaryRecord, codec: Ipv6Codec)
    requires IsField(s.registry) && (s.family == "ipv4" || s.family == "ipv6")
    ensures ParseRecord(SummaryLine(s), codec) == Ok(Summary(s))
  {
    var f := SummaryFields(s);
    SummaryLineSplits(s);
    NumeralReadsBack(f[4], s.count);
    SummaryFieldsAccepted(f, s, codec);
  }

  lemma SummaryFieldsAccepted(f: seq<string>, s: SummaryRecord, codec: Ipv6Codec)
    requires |f| == 6 && f[5] == "summary" && ParseInt(f[4]) == Some(s.count)
    requires f[0] == s.registry && f[2] == s.family && (s.family == "ipv4" || s.family == "ipv6")
    ensures DecodeFields(f, codec) == Ok(Summary(s))
  {
  }

  lemma SummaryLineSplits(s: SummaryRecord)
    requires IsField(s.registry) && (s.family == "ipv4" || s.family == "ipv6")
    ensures Split(SummaryLine(s), '|') == SummaryFields(s)
  {
    var f := SummaryFields(s);
    NumeralIsField(s.count);
    assert forall i :: 0 <= i < |f| ==> '|' !in f[i];
    SplitJoin(f, '|');
  }

  /** A line that repeats the version line's shape later in the file is not
      a summary and names no known family, so it is skipped, not fatal. */
  lemma SecondVersionLineSkipped(row: string, codec: Ipv6Codec)
    requires var f := Split(row, '|');
             |f| == 7 && f[5] != "summary" && f[2] != "asn" && f[2] != "ipv4" && f[2] != "ipv6"
    ensures ParseRecord(row, codec) == Skip
  {
  }

  /** `asn` lines are never kept, however well-formed. */
  lemma AsnNeverKept(row: string, codec: Ipv6Codec)
    requires var f := Split(row, '|'); |f| >= 6 && f[2] == "asn"
    ensures !ParseRecord(row, codec).Ok?
  {
  }
}
