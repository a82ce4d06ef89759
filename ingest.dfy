/** From the lines of one statistics file to its detail records: the
    comment filter applied to downloaded lines (bin/get_rirstats.py:184-191)
    and the aggregation of `parse_stats_list` (bin/get_rirstats.py:196-217). */
module Ingest {
  import opened Text
  import opened Records

  /** A stripped line the filter passes on: not empty and not a comment. */
  predicate IsKept(row: string) {
    row != "" && row[0] != '#'
  }

  /** The rows kept from `lines`, in their order: each line stripped, and
      comment lines dropped. */
  function KeptRows(lines: seq<string>): (rows: seq<string>)
    ensures |rows| <= |lines|
  {
    KeptBy(lines, Strip)
  }

  /** The filter with the stripping function as a parameter, so that the
      lemmas about the filter do not depend on how lines are stripped. */
  function KeptBy(lines: seq<string>, strip: string -> string): (rows: seq<string>)
    ensures |rows| <= |lines|
  {
    if lines == [] then []
    else
      var row := strip(lines[|lines| - 1]);
      KeptBy(lines[..|lines| - 1], strip) + (if IsKept(row) then [row] else [])
  }

  /** The result of the filter: the kept rows, or the index of the first
      line that strips to nothing, where looking at its first character
      raises `IndexError` and ends the run. */
  datatype Filtered = Rows(rows: seq<string>) | BlankLine(index: nat)

  /** The loop over `r.text.splitlines()`. The test for a comment reads the
      first character before the test for an empty line, so a blank line is
      never skipped: it stops the filter. */
  method FilterLines(lines: seq<string>) returns (r: Filtered)
    ensures r.BlankLine? <==> exists i :: 0 <= i < |lines| && Strip(lines[i]) == ""
    ensures r.BlankLine? ==>
              r.index < |lines| && Strip(lines[r.index]) == ""
              && forall j :: 0 <= j < r.index ==> Strip(lines[j]) != ""
    ensures r.Rows? ==> r.rows == KeptRows(lines)
  {
    var result: seq<string> := [];
    var i := 0;
    while i < |lines|
      invariant 0 <= i <= |lines|
      invariant forall j :: 0 <= j < i ==> Strip(lines[j]) != ""
      invariant result == KeptRows(lines[..i])
    {
      var row := Strip(lines[i]);
      if |row| == 0 {
        return BlankLine(i);
      }
      KeptRowsExtend(lines, i);
      if row[0] != '#' {
        result := result + [row];
      }
      i := i + 1;
    }
    assert lines[..i] == lines;
    return Rows(result);
  }

  /** The rows kept from the first `i + 1` lines extend those kept from the
      first `i` by line `i`, when it is kept. */
  lemma KeptRowsExtend(lines: seq<string>, i: nat)
    requires i < |lines|
    ensures var row := Strip(lines[i]);
            KeptRows(lines[..i + 1]) == KeptRows(lines[..i]) + (if IsKept(row) then [row] else [])
  {
    assert lines[..i + 1][..i] == lines[..i];
  }

  /** Every kept row is stripped, not empty and not a comment. */
  lemma KeptRowsShape(lines: seq<string>)
    ensures forall k :: 0 <= k < |KeptRows(lines)| ==>
              IsKept(KeptRows(lines)[k]) && IsStripped(KeptRows(lines)[k])
  {
    var rows := KeptRows(lines);
    forall k | 0 <= k < |rows| ensures IsKept(rows[k]) && IsStripped(rows[k]) {
      KeptByMember(lines, rows[k], Strip);
      var i :| 0 <= i < |lines| && Strip(lines[i]) == rows[k];
      StripIsStripped(lines[i]);
    }
  }

  /** Filtering distributes over concatenation, so kept rows stay in their
      original relative order. */
  lemma {:induction false} KeptByAppend(a: seq<string>, b: seq<string>, strip: string -> string)
    ensures KeptBy(a + b, strip) == KeptBy(a, strip) + KeptBy(b, strip)
  {
    if b != [] {
      var c := a + b;
      var b' := b[..|b| - 1];
      var row := strip(b[|b| - 1]);
      var tail := if IsKept(row) then [row] else [];
      assert c[..|c| - 1] == a + b';
      assert c[|c| - 1] == b[|b| - 1];
      assert KeptBy(c, strip) == KeptBy(a + b', strip) + tail;
      assert KeptBy(b, strip) == KeptBy(b', strip) + tail;
      KeptByAppend(a, b', strip);
    } else {
      assert a + b == a;
    }
  }

  /** A row is kept exactly when some line strips to it and it is neither
      empty nor a comment. */
  lemma {:induction false} KeptByMember(lines: seq<string>, row: string, strip: string -> string)
    ensures row in KeptBy(lines, strip) <==> IsKept(row) && exists i :: 0 <= i < |lines| && strip(lines[i]) == row
  {
    if lines != [] {
      var init := lines[..|lines| - 1];
      KeptByMember(init, row, strip);
      if exists i :: 0 <= i < |init| && strip(init[i]) == row {
        var i :| 0 <= i < |init| && strip(init[i]) == row;
        assert lines[i] == init[i];
      }
      if exists i :: 0 <= i < |lines| && strip(lines[i]) == row {
        var i :| 0 <= i < |lines| && strip(lines[i]) == row;
        if i < |init| {
          assert init[i] == lines[i];
        }
      }
    }
  }

  /** The filter as the blank-line test intends it: a line that strips to
      nothing is dropped like a comment, wherever it stands. */
  lemma KeptRowsDropsBlank(before: seq<string>, blank: string, after: seq<string>)
    requires Strip(blank) == ""
    ensures KeptRows(before + [blank] + after) == KeptRows(before + after)
  {
    KeptByAppend(before + [blank], after, Strip);
    KeptByAppend(before, [blank], Strip);
    KeptByAppend(before, after, Strip);
    assert KeptBy([blank], Strip) == [];
  }

  /** The two line decoders `parse_stats_list` calls: the version line
      decoder and the record decoder. */
  datatype Decoders = Decoders(version: string -> Outcome<VersionRecord>, record: string -> Outcome<Record>)

  /** `parse_version_record` and `parse_record` (bin/get_rirstats.py:91-169)
      as the decoders of the statistics format. */
  function RirDecoders(codec: Ipv6Codec): Decoders {
    Decoders(ParseVersionRecord, row => ParseRecord(row, codec))
  }

  /** A version decoder accepts or fails, and never skips. */
  ghost predicate NeverSkipsVersion(dec: Decoders) {
    forall row :: !dec.version(row).Skip?
  }

  lemma RirDecodersNeverSkip(codec: Ipv6Codec)
    ensures NeverSkipsVersion(RirDecoders(codec))
  {
    forall row ensures !RirDecoders(codec).version(row).Skip? {
      assert RirDecoders(codec).version(row) == ParseVersionRecord(row);
    }
  }

  /** What `parse_stats_list` accumulates over the rows after the version
      line: the detail records in order and the number of summaries. */
  datatype Tally = Tally(details: seq<DetailRecord>, summaries: nat)

  /** One row's effect on the tally; a fatal row makes everything fatal. */
  function Step(t: Outcome<Tally>, row: string, dec: Decoders): Outcome<Tally> {
    if !t.Ok? then Fatal
    else
      match dec.record(row)
      case Fatal => Fatal
      case Skip => t
      case Ok(Summary(_)) => Ok(Tally(t.value.details, t.value.summaries + 1))
      case Ok(Detail(d)) => Ok(Tally(t.value.details + [d], t.value.summaries))
  }

  /** The tally of `rows`, row by row from the first. */
  function TallyRows(rows: seq<string>, dec: Decoders): (t: Outcome<Tally>)
    ensures !t.Skip?
    ensures t.Ok? ==> |t.value.details| + t.value.summaries <= |rows|
  {
    if rows == [] then Ok(Tally([], 0))
    else Step(TallyRows(rows[..|rows| - 1], dec), rows[|rows| - 1], dec)
  }

  /** `parse_stats_list`: the first row is the version line, every later row
      a summary or detail line. */
  function StatsList(items: seq<string>, dec: Decoders): (r: Outcome<seq<DetailRecord>>)
    ensures !r.Skip?
    ensures items == [] ==> r == Ok([])
    ensures r.Ok? && items != [] ==> |r.value| < |items|
  {
    if items == [] then Ok([])
    else if dec.version(items[0]).Fatal? then Fatal
    else
      match TallyRows(items[1..], dec)
      case Ok(t) => Ok(t.details)
      case _ => Fatal
  }

  /** The loop of `parse_stats_list`, with its version and counters; the
      counters are reported alongside the records. */
  method ParseStatsList(items: seq<string>, dec: Decoders)
    returns (r: Outcome<seq<DetailRecord>>, countVersion: nat, countSummary: nat, countDetail: nat)
    requires NeverSkipsVersion(dec)
    ensures r == StatsList(items, dec)
    ensures r.Ok? ==> countVersion == (if items == [] then 0 else 1) && countDetail == |r.value|
    ensures r.Ok? && items != [] ==> TallyRows(items[1..], dec) == Ok(Tally(r.value, countSummary))
  {
    var result: seq<DetailRecord> := [];
    var v: Option<VersionRecord> := None;
    countVersion, countSummary, countDetail := 0, 0, 0;
    var i := 0;
    while i < |items|
      invariant 0 <= i <= |items|
      invariant i == 0 <==> v.None?
      invariant countVersion == (if i == 0 then 0 else 1)
      invariant i > 0 ==> dec.version(items[0]) == Ok(v.value)
      invariant i > 0 ==> TallyRows(items[1..i], dec) == Ok(Tally(result, countSummary))
      invariant i == 0 ==> result == [] && countSummary == 0
      invariant countDetail == |result|
    {
      var item := items[i];
      if v.None? {
        var version := dec.version(item);
        if !version.Ok? {
          return Fatal, countVersion, countSummary, countDetail;
        }
        v := Some(version.value);
        countVersion := countVersion + 1;
        assert items[1..i + 1] == [];
        i := i + 1;
        continue;
      }
      TallyExtend(items, i, dec);
      match dec.record(item) {
        case Fatal =>
          assert items[1..][..i] == items[1..i + 1];
          TallyFatalStays(items[1..], dec, i);
          return Fatal, countVersion, countSummary, countDetail;
        case Skip =>
        case Ok(Summary(_)) =>
          countSummary := countSummary + 1;
        case Ok(Detail(d)) =>
          countDetail := countDetail + 1;
          result := result + [d];
      }
      i := i + 1;
    }
    assert i > 0 ==> items[1..i] == items[1..];
    r := Ok(result);
  }

  /** The tally of one more row is one more step. */
  lemma TallyExtend(items: seq<string>, i: nat, dec: Decoders)
    requires 1 <= i < |items|
    ensures TallyRows(items[1..i + 1], dec) == Step(TallyRows(items[1..i], dec), items[i], dec)
  {
    assert items[1..i + 1][..i - 1] == items[1..i];
  }

  /** Once a row is fatal, so is the tally of every longer prefix. */
  lemma {:induction false} TallyFatalStays(rows: seq<string>, dec: Decoders, n: nat)
    requires 1 <= n <= |rows|
    requires TallyRows(rows[..n], dec).Fatal?
    ensures TallyRows(rows, dec).Fatal?
    decreases |rows| - n
  {
    if n < |rows| {
      assert rows[..n + 1][..n] == rows[..n];
      TallyFatalStays(rows, dec, n + 1);
    } else {
      assert rows[..n] == rows;
    }
  }

  /** The detail records of `rows`, read from the first row on and
      independently of the tally: every `Ok` detail, nothing else. */
  function DetailsOf(rows: seq<string>, dec: Decoders): seq<DetailRecord> {
    if rows == [] then []
    else
      var r := dec.record(rows[0]);
      (if r.Ok? && r.value.Detail? then [r.value.detail] else []) + DetailsOf(rows[1..], dec)
  }

  lemma {:induction false} DetailsOfAppend(a: seq<string>, b: seq<string>, dec: Decoders)
    ensures DetailsOf(a + b, dec) == DetailsOf(a, dec) + DetailsOf(b, dec)
  {
    if a != [] {
      assert (a + b)[1..] == a[1..] + b;
      DetailsOfAppend(a[1..], b, dec);
    } else {
      assert a + b == b;
    }
  }

  /** The tally fails exactly when some row is fatal; otherwise its records
      are exactly the detail records of the rows, in row order. */
  lemma {:induction false} TallyRowsSpec(rows: seq<string>, dec: Decoders)
    ensures TallyRows(rows, dec).Fatal? <==> exists i :: 0 <= i < |rows| && dec.record(rows[i]).Fatal?
    ensures TallyRows(rows, dec).Ok? ==> TallyRows(rows, dec).value.details == DetailsOf(rows, dec)
    ensures !TallyRows(rows, dec).Skip?
  {
    if rows != [] {
      var init := rows[..|rows| - 1];
      var last := rows[|rows| - 1];
      TallyRowsSpec(init, dec);
      assert rows == init + [last];
      DetailsOfAppend(init, [last], dec);
      assert DetailsOf([last], dec) == (if dec.record(last).Ok? && dec.record(last).value.Detail? then [dec.record(last).value.detail] else []);
      if exists i :: 0 <= i < |init| && dec.record(init[i]).Fatal? {
        var i :| 0 <= i < |init| && dec.record(init[i]).Fatal?;
        assert rows[i] == init[i];
      }
      if exists i :: 0 <= i < |rows| && dec.record(rows[i]).Fatal? {
        var i :| 0 <= i < |rows| && dec.record(rows[i]).Fatal?;
        if i < |init| {
          assert init[i] == rows[i];
        }
      }
    }
  }

  /** `parse_stats_list` is fatal exactly when the version line is or some
      later row is; otherwise it returns the detail records of the rows after
      the first, in input order, and no summary. */
  lemma StatsListSpec(items: seq<string>, dec: Decoders)
    ensures StatsList(items, dec).Fatal? <==>
              items != [] && (dec.version(items[0]).Fatal?
                              || exists i :: 1 <= i < |items| && dec.record(items[i]).Fatal?)
    ensures StatsList(items, dec).Ok? ==>
              StatsList(items, dec).value == (if items == [] then [] else DetailsOf(items[1..], dec))
  {
    if items != [] {
      var rest := items[1..];
      TallyRowsSpec(rest, dec);
      if exists i :: 1 <= i < |items| && dec.record(items[i]).Fatal? {
        var i :| 1 <= i < |items| && dec.record(items[i]).Fatal?;
        assert rest[i - 1] == items[i];
      }
      if exists i :: 0 <= i < |rest| && dec.record(rest[i]).Fatal? {
        var i :| 0 <= i < |rest| && dec.record(rest[i]).Fatal?;
        assert items[i + 1] == rest[i];
      }
    }
  }

  /** A detail record is in the result exactly when some row after the first
      parses to it. */
  lemma {:induction false} DetailsOfMember(rows: seq<string>, dec: Decoders, d: DetailRecord)
    ensures d in DetailsOf(rows, dec) <==> exists i :: 0 <= i < |rows| && dec.record(rows[i]) == Ok(Detail(d))
  {
    if rows != [] {
      DetailsOfMember(rows[1..], dec, d);
      if exists i :: 0 <= i < |rows| - 1 && dec.record(rows[1..][i]) == Ok(Detail(d)) {
        var i :| 0 <= i < |rows| - 1 && dec.record(rows[1..][i]) == Ok(Detail(d));
        assert rows[i + 1] == rows[1..][i];
      }
      if exists i :: 0 <= i < |rows| && dec.record(rows[i]) == Ok(Detail(d)) {
        var i :| 0 <= i < |rows| && dec.record(rows[i]) == Ok(Detail(d));
        if i > 0 {
          assert rows[1..][i - 1] == rows[i];
        }
      }
    }
  }
}
