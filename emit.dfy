/** The CSV that `write_intermediate_stats_to_csv` writes to standard output
    (bin/get_rirstats.py:220-252), each written line kept as one element of
    a sequence, without its newline. */
module Emit {
  import opened Text
  import opened Numbers
  import opened Dates
  import opened Ipv4
  import opened Cidr
  import opened Records

  const Header: string := "type,subnet,registry,country,date,status,reg_id"

  /** The numeric value of a record's start address, the sort key. */
  function StartKey(r: DetailRecord): int {
    match r.start
    case Ipv4Start(a) => a
    case Ipv6Start(a) => a
  }

  /** Records in ascending start order. */
  predicate IsSortedByStart(rs: seq<DetailRecord>) {
    forall i, j :: 0 <= i < j < |rs| ==> StartKey(rs[i]) <= StartKey(rs[j])
  }

  /** The records whose start is `k`, in their order. */
  function WithStart(rs: seq<DetailRecord>, k: int): seq<DetailRecord> {
    if rs == [] then []
    else WithStart(rs[..|rs| - 1], k) + (if StartKey(rs[|rs| - 1]) == k then [rs[|rs| - 1]] else [])
  }

  /** Puts `r` right after the last record whose start is not greater. */
  function InsertByStart(sorted: seq<DetailRecord>, r: DetailRecord): (s: seq<DetailRecord>)
    ensures |s| == |sorted| + 1
  {
    if sorted == [] then [r]
    else if StartKey(sorted[|sorted| - 1]) <= StartKey(r) then sorted + [r]
    else InsertByStart(sorted[..|sorted| - 1], r) + [sorted[|sorted| - 1]]
  }

  /** `sorted(rs, key=lambda k: k["start"])`: a stable sort by start. */
  function SortByStart(rs: seq<DetailRecord>): (s: seq<DetailRecord>)
    ensures |s| == |rs|
  {
    if rs == [] then [] else InsertByStart(SortByStart(rs[..|rs| - 1]), rs[|rs| - 1])
  }

  lemma {:induction false} WithStartAppend(a: seq<DetailRecord>, b: seq<DetailRecord>, k: int)
    ensures WithStart(a + b, k) == WithStart(a, k) + WithStart(b, k)
  {
    if b == [] {
      assert a + b == a;
    } else {
      var c := a + b;
      assert c[..|c| - 1] == a + b[..|b| - 1];
      assert c[|c| - 1] == b[|b| - 1];
      WithStartAppend(a, b[..|b| - 1], k);
    }
  }

  lemma {:induction false} InsertPermutes(s: seq<DetailRecord>, r: DetailRecord)
    ensures multiset(InsertByStart(s, r)) == multiset(s) + multiset{r}
  {
    if s != [] {
      var init := s[..|s| - 1];
      var last := s[|s| - 1];
      assert s == init + [last];
      if StartKey(last) > StartKey(r) {
        InsertPermutes(init, r);
        assert InsertByStart(s, r) == InsertByStart(init, r) + [last];
      }
    }
  }

  lemma {:induction false} InsertStable(s: seq<DetailRecord>, r: DetailRecord)
    ensures forall k :: WithStart(InsertByStart(s, r), k) == WithStart(s, k) + WithStart([r], k)
  {
    if s != [] {
      var init := s[..|s| - 1];
      var last := s[|s| - 1];
      assert s == init + [last];
      if StartKey(last) <= StartKey(r) {
        forall k ensures WithStart(InsertByStart(s, r), k) == WithStart(s, k) + WithStart([r], k) {
          WithStartAppend(s, [r], k);
        }
      } else {
        InsertStable(init, r);
        var t := InsertByStart(init, r);
        assert InsertByStart(s, r) == t + [last];
        forall k ensures WithStart(InsertByStart(s, r), k) == WithStart(s, k) + WithStart([r], k) {
          WithStartAppend(t, [last], k);
          WithStartAppend(init, [last], k);
          assert WithStart([r], k) == [] || WithStart([last], k) == [] by {
            assert WithStart([r], k) == (if StartKey(r) == k then [r] else []);
            assert WithStart([last], k) == (if StartKey(last) == k then [last] else []);
          }
        }
      }
    }
  }

  /** Inserting a record no greater than a bound into records no greater than
      it leaves every record no greater than it. */
  lemma {:induction false} InsertBounded(s: seq<DetailRecord>, r: DetailRecord, bound: int)
    requires forall i :: 0 <= i < |s| ==> StartKey(s[i]) <= bound
    requires StartKey(r) <= bound
    ensures forall i :: 0 <= i < |InsertByStart(s, r)| ==> StartKey(InsertByStart(s, r)[i]) <= bound
  {
    if s != [] && StartKey(s[|s| - 1]) > StartKey(r) {
      var init := s[..|s| - 1];
      InsertBounded(init, r, bound);
      assert InsertByStart(s, r) == InsertByStart(init, r) + [s[|s| - 1]];
    }
  }

  lemma {:induction false} InsertSorted(s: seq<DetailRecord>, r: DetailRecord)
    requires IsSortedByStart(s)
    ensures IsSortedByStart(InsertByStart(s, r))
  {
    if s != [] {
      var init := s[..|s| - 1];
      var last := s[|s| - 1];
      if StartKey(last) > StartKey(r) {
        InsertSorted(init, r);
        InsertBounded(init, r, StartKey(last));
        var t := InsertByStart(init, r);
        assert InsertByStart(s, r) == t + [last];
      }
    }
  }

  /** The sort puts the records in ascending start order, keeps every record
      (a permutation), and is stable: records with the same start keep their
      relative order. */
  lemma SortByStartSpec(rs: seq<DetailRecord>)
    ensures IsSortedByStart(SortByStart(rs))
    ensures multiset(SortByStart(rs)) == multiset(rs)
    ensures forall k :: WithStart(SortByStart(rs), k) == WithStart(rs, k)
  {
    SortSorted(rs);
    SortPermutes(rs);
    SortStable(rs);
  }

  lemma {:induction false} SortSorted(rs: seq<DetailRecord>)
    ensures IsSortedByStart(SortByStart(rs))
  {
    if rs != [] {
      SortSorted(rs[..|rs| - 1]);
      InsertSorted(SortByStart(rs[..|rs| - 1]), rs[|rs| - 1]);
    }
  }

  lemma {:induction false} SortPermutes(rs: seq<DetailRecord>)
    ensures multiset(SortByStart(rs)) == multiset(rs)
  {
    if rs != [] {
      var init := rs[..|rs| - 1];
      var last := rs[|rs| - 1];
      assert rs == init + [last];
      assert multiset(rs) == multiset(init) + multiset{last};
      SortPermutes(init);
      InsertPermutes(SortByStart(init), last);
      assert SortByStart(rs) == InsertByStart(SortByStart(init), last);
    }
  }

  lemma {:induction false} SortStable(rs: seq<DetailRecord>)
    ensures forall k :: WithStart(SortByStart(rs), k) == WithStart(rs, k)
  {
    if rs != [] {
      var init := rs[..|rs| - 1];
      var last := rs[|rs| - 1];
      SortStable(init);
      InsertStable(SortByStart(init), last);
      assert rs == init + [last];
      forall k ensures WithStart(SortByStart(rs), k) == WithStart(rs, k) {
        WithStartAppend(init, [last], k);
      }
    }
  }

  /** The records of one family, in their order. */
  function OfFamily(rs: seq<DetailRecord>, ipv4: bool): (f: seq<DetailRecord>) {
    if rs == [] then []
    else
      var last := rs[|rs| - 1];
      OfFamily(rs[..|rs| - 1], ipv4) + (if last.start.Ipv4Start? == ipv4 then [last] else [])
  }

  lemma {:induction false} OfFamilyMembers(rs: seq<DetailRecord>, ipv4: bool)
    ensures forall r :: r in OfFamily(rs, ipv4) ==> r in rs && r.start.Ipv4Start? == ipv4
    ensures forall r :: r in rs && r.start.Ipv4Start? == ipv4 ==> r in OfFamily(rs, ipv4)
  {
    if rs != [] {
      var init := rs[..|rs| - 1];
      OfFamilyMembers(init, ipv4);
      assert rs == init + [rs[|rs| - 1]];
    }
  }

  /** `sorted_ranges`: the IPv4 records sorted by start, then the IPv6
      records sorted by start. */
  function SortedRanges(ranges: seq<DetailRecord>): (s: seq<DetailRecord>)
    ensures |s| == |ranges|
  {
    FamiliesPartition(ranges);
    assert |multiset(OfFamily(ranges, true))| + |multiset(OfFamily(ranges, false))| == |multiset(ranges)|;
    SortByStart(OfFamily(ranges, true)) + SortByStart(OfFamily(ranges, false))
  }

  /** Every IPv4 record comes before every IPv6 record; within each family
      the starts ascend and records with equal starts keep their input order;
      and every record appears exactly as often as in the input. */
  lemma SortedRangesSpec(ranges: seq<DetailRecord>)
    ensures var s := SortedRanges(ranges);
            var n4 := |OfFamily(ranges, true)|;
            n4 <= |s|
            && (forall i :: 0 <= i < |s| ==> (s[i].start.Ipv4Start? <==> i < n4))
            && IsSortedByStart(s[..n4]) && IsSortedByStart(s[n4..])
            && (forall k :: WithStart(s[..n4], k) == WithStart(OfFamily(ranges, true), k))
            && (forall k :: WithStart(s[n4..], k) == WithStart(OfFamily(ranges, false), k))
            && multiset(s) == multiset(ranges)
  {
    var v4 := OfFamily(ranges, true);
    var v6 := OfFamily(ranges, false);
    var s := SortedRanges(ranges);
    var s4 := SortByStart(v4);
    var s6 := SortByStart(v6);
    SortedFamily(ranges, true);
    SortedFamily(ranges, false);
    SortSorted(v4);
    SortSorted(v6);
    SortStable(v4);
    SortStable(v6);
    SortPermutes(v4);
    SortPermutes(v6);
    FamiliesPartition(ranges);
    assert s == s4 + s6;
    assert s[..|v4|] == s4 && s[|v4|..] == s6;
    forall i | 0 <= i < |s| ensures s[i].start.Ipv4Start? <==> i < |v4| {
      if i < |v4| {
        assert s[i] == s4[i];
      } else {
        assert s[i] == s6[i - |v4|];
      }
    }
  }

  /** The sorted records of one family are as many as the family has, and
      all of that family. */
  lemma SortedFamily(rs: seq<DetailRecord>, ipv4: bool)
    ensures var t := SortByStart(OfFamily(rs, ipv4));
            |t| == |OfFamily(rs, ipv4)| && forall i :: 0 <= i < |t| ==> t[i].start.Ipv4Start? == ipv4
  {
    var v := OfFamily(rs, ipv4);
    var t := SortByStart(v);
    SortPermutes(v);
    OfFamilyMembers(rs, ipv4);
    assert |multiset(t)| == |multiset(v)|;
    forall i | 0 <= i < |t| ensures t[i].start.Ipv4Start? == ipv4 {
      assert t[i] in multiset(t);
      assert t[i] in v;
    }
  }

  /** Splitting by family loses and adds nothing. */
  lemma {:induction false} FamiliesPartition(rs: seq<DetailRecord>)
    ensures multiset(OfFamily(rs, true)) + multiset(OfFamily(rs, false)) == multiset(rs)
  {
    if rs != [] {
      var init := rs[..|rs| - 1];
      var last := rs[|rs| - 1];
      FamiliesPartition(init);
      assert rs == init + [last];
      assert multiset(rs) == multiset(init) + multiset{last};
      if last.start.Ipv4Start? {
        assert OfFamily(rs, true) == OfFamily(init, true) + [last];
        assert OfFamily(rs, false) == OfFamily(init, false);
        assert multiset(OfFamily(rs, true)) == multiset(OfFamily(init, true)) + multiset{last};
      } else {
        assert OfFamily(rs, true) == OfFamily(init, true);
        assert OfFamily(rs, false) == OfFamily(init, false) + [last];
        assert multiset(OfFamily(rs, false)) == multiset(OfFamily(init, false)) + multiset{last};
      }
    }
  }

  /** A record the emitter can write: a valid date where there is one, and
      for IPv4 a count of at least one address that does not run past
      255.255.255.255 (other inputs make `ipaddress` raise). */
  predicate IsWritableRange(r: DetailRecord) {
    (r.date.Some? ==> IsValidDate(r.date.value))
    && (r.start.Ipv4Start? ==> 1 <= r.value && r.start.address + r.value - 1 < AddressSpace)
  }

  /** The date column: `str(date)`, or empty when there is no date. */
  function DateColumn(d: Option<Date>): string
    requires d.Some? ==> IsValidDate(d.value)
  {
    if d.Some? then IsoFormat(d.value) else ""
  }

  /** The registry id column: the opaque id, or empty. */
  function OpaqueColumn(id: Option<string>): string {
    if id.Some? then id.value else ""
  }

  /** The columns of one CSV row, given the family and subnet texts. */
  function RowColumns(family: string, subnet: string, r: DetailRecord): (c: seq<string>)
    requires IsWritableRange(r)
    ensures |c| == 7
  {
    [family, subnet, r.registry, r.cc, DateColumn(r.date), r.status, OpaqueColumn(r.opaqueId)]
  }

  function Row(family: string, subnet: string, r: DetailRecord): string
    requires IsWritableRange(r)
  {
    Join(RowColumns(family, subnet, r), ',')
  }

  /** A row reads back as its seven columns, provided that no column holds
      a comma: the emitter does no CSV quoting. */
  lemma RowSplits(family: string, subnet: string, r: DetailRecord)
    requires IsWritableRange(r)
    requires ',' !in family && ',' !in subnet && ',' !in r.registry && ',' !in r.cc && ',' !in r.status
    requires r.opaqueId.Some? ==> ',' !in r.opaqueId.value
    ensures Split(Row(family, subnet, r), ',') == RowColumns(family, subnet, r)
  {
    if r.date.Some? {
      IsoFormatAvoids(r.date.value, ',');
    }
    SplitJoin(RowColumns(family, subnet, r), ',');
  }

  /** The last address of an IPv4 record: `first_address + (value - 1)`. */
  function LastAddress(r: DetailRecord): Address
    requires IsWritableRange(r) && r.start.Ipv4Start?
  {
    r.start.address + (r.value - 1)
  }

  /** The rows of one IPv4 record, one per block of its range. */
  function BlockRows(blocks: seq<Block>, r: DetailRecord): (rows: seq<string>)
    requires IsWritableRange(r)
    ensures |rows| == |blocks|
  {
    if blocks == [] then []
    else BlockRows(blocks[..|blocks| - 1], r) + [Row("ipv4", FormatBlock(blocks[|blocks| - 1]), r)]
  }

  /** The rows of one record: the CIDR blocks of an IPv4 range, or the one
      `start/value` subnet of an IPv6 record. */
  function RecordRows(r: DetailRecord, codec: Ipv6Codec): (rows: seq<string>)
    requires IsWritableRange(r)
    ensures |rows| >= 1
    ensures r.start.Ipv6Start? ==> |rows| == 1
  {
    match r.start
    case Ipv4Start(a) => BlockRows(Summarize(a, LastAddress(r)), r)
    case Ipv6Start(a) => [Row("ipv6", codec.show(a) + "/" + IntToString(r.value), r)]
  }

  lemma Ipv4RecordRows(r: DetailRecord, codec: Ipv6Codec, blocks: seq<Block>)
    requires IsWritableRange(r) && r.start.Ipv4Start?
    requires blocks == Summarize(r.start.address, LastAddress(r))
    ensures RecordRows(r, codec) == BlockRows(blocks, r)
  {
  }

  lemma Ipv6RecordRows(r: DetailRecord, codec: Ipv6Codec)
    requires IsWritableRange(r) && r.start.Ipv6Start?
    ensures RecordRows(r, codec) == [Row("ipv6", codec.show(r.start.address6) + "/" + IntToString(r.value), r)]
  {
  }

  /** `RecordRows` as a value, defined on the records it can write. */
  function Render(codec: Ipv6Codec): DetailRecord --> seq<string> {
    r requires IsWritableRange(r) => RecordRows(r, codec)
  }

  lemma RenderApply(codec: Ipv6Codec, r: DetailRecord)
    requires IsWritableRange(r)
    ensures Render(codec).requires(r) && Render(codec)(r) == RecordRows(r, codec)
  {
  }

  /** The rows of a sequence of records, record by record, each rendered by
      `render`; the lemmas about it hold for any rendering. */
  function RowsBy(rs: seq<DetailRecord>, render: DetailRecord --> seq<string>): seq<string>
    requires forall r :: r in rs ==> render.requires(r)
  {
    if rs == [] then []
    else RowsBy(rs[..|rs| - 1], render) + render(rs[|rs| - 1])
  }

  /** Appending the rows of record `i` to the rows of the records before it
      gives the rows of the records up to and including it. */
  lemma RowsByExtend(rs: seq<DetailRecord>, i: nat, render: DetailRecord --> seq<string>, done: seq<string>, rows: seq<string>)
    requires i < |rs| && forall r :: r in rs ==> render.requires(r)
    requires done == RowsBy(rs[..i], render) && rows == render(rs[i])
    ensures done + rows == RowsBy(rs[..i + 1], render)
  {
    assert rs[..i + 1][..i] == rs[..i];
  }

  /** Everything written to standard output. */
  function Csv(ranges: seq<DetailRecord>, codec: Ipv6Codec): (out: seq<string>)
    requires forall r :: r in ranges ==> IsWritableRange(r)
    ensures |out| >= 1 && out[0] == Header
  {
    SortedRangesMembers(ranges);
    [Header] + RowsBy(SortedRanges(ranges), Render(codec))
  }

  lemma SortedRangesMembers(ranges: seq<DetailRecord>)
    ensures forall r :: r in SortedRanges(ranges) ==> r in ranges
  {
    SortedRangesSpec(ranges);
    var s := SortedRanges(ranges);
    forall r | r in s ensures r in ranges {
      assert r in multiset(s);
    }
  }

  /** `row` is a CSV row whose first column is `family`. */
  predicate IsFamilyRow(row: string, family: string) {
    |row| > |family| && row[..|family| + 1] == family + ","
  }

  /** The first column of a row is its family. */
  lemma RowStartsWithFamily(family: string, subnet: string, r: DetailRecord)
    requires IsWritableRange(r)
    ensures IsFamilyRow(Row(family, subnet, r), family)
  {
    var c := RowColumns(family, subnet, r);
    var rest := Join(c[1..], ',');
    assert Row(family, subnet, r) == family + [','] + rest;
    assert (family + [','] + rest)[..|family| + 1] == family + ",";
  }

  /** Row `k` of an IPv4 record is the row of its block `k`. */
  lemma {:induction false} BlockRowsAt(blocks: seq<Block>, r: DetailRecord, k: nat)
    requires IsWritableRange(r) && k < |blocks|
    ensures BlockRows(blocks, r)[k] == Row("ipv4", FormatBlock(blocks[k]), r)
  {
    var init := blocks[..|blocks| - 1];
    if k < |blocks| - 1 {
      BlockRowsAt(init, r, k);
      assert blocks[k] == init[k];
    }
  }

  /** What one record contributes: for IPv4, one row per block of the
      greedy cover of `[start, start + value - 1]`, in order; for IPv6, the
      single row of `start/value`. Either way, at least one row, and each
      row names the record's family first. */
  lemma RecordRowsSpec(r: DetailRecord, codec: Ipv6Codec)
    requires IsWritableRange(r)
    ensures |RecordRows(r, codec)| >= 1
    ensures forall k :: 0 <= k < |RecordRows(r, codec)| ==> IsFamilyRow(RecordRows(r, codec)[k], FamilyName(r.start))
    ensures r.start.Ipv4Start? ==>
              var blocks := Summarize(r.start.address, LastAddress(r));
              IsGreedyCover(blocks, r.start.address, LastAddress(r))
              && |RecordRows(r, codec)| == |blocks|
              && forall k :: 0 <= k < |blocks| ==> RecordRows(r, codec)[k] == Row("ipv4", FormatBlock(blocks[k]), r)
    ensures r.start.Ipv6Start? ==>
              RecordRows(r, codec) == [Row("ipv6", codec.show(r.start.address6) + "/" + IntToString(r.value), r)]
  {
    var rows := RecordRows(r, codec);
    if r.start.Ipv4Start? {
      var blocks := Summarize(r.start.address, LastAddress(r));
      SummarizeFacts(r.start.address, LastAddress(r));
      Ipv4RecordRows(r, codec, blocks);
      forall k | 0 <= k < |blocks| ensures rows[k] == Row("ipv4", FormatBlock(blocks[k]), r) {
        BlockRowsAt(blocks, r, k);
      }
      forall k | 0 <= k < |rows| ensures IsFamilyRow(rows[k], FamilyName(r.start)) {
        RowStartsWithFamily("ipv4", FormatBlock(blocks[k]), r);
      }
    } else {
      Ipv6RecordRows(r, codec);
      RowStartsWithFamily("ipv6", codec.show(r.start.address6) + "/" + IntToString(r.value), r);
    }
  }

  /** The rows of consecutive runs of records follow one another. */
  lemma {:induction false} RowsByAppend(a: seq<DetailRecord>, b: seq<DetailRecord>, render: DetailRecord --> seq<string>)
    requires forall r :: r in a + b ==> render.requires(r)
    ensures RowsBy(a + b, render) == RowsBy(a, render) + RowsBy(b, render)
  {
    if b == [] {
      assert a + b == a;
    } else {
      var c := a + b;
      var b' := b[..|b| - 1];
      var last := b[|b| - 1];
      assert c[..|c| - 1] == a + b';
      assert c[|c| - 1] == last;
      assert forall r :: r in a + b' ==> r in c;
      assert forall r :: r in b' ==> r in b;
      RowsByAppend(a, b', render);
      assert RowsBy(c, render) == RowsBy(a + b', render) + render(last);
      assert RowsBy(b, render) == RowsBy(b', render) + render(last);
    }
  }

  /** When every record of a run renders to at least one row, all of one
      family, the run's rows are all of that family and at least as many as
      its records. */
  lemma {:induction false} RowsByFamily(rs: seq<DetailRecord>, render: DetailRecord --> seq<string>, family: string)
    requires forall r :: r in rs ==> render.requires(r) && |render(r)| >= 1
    requires forall r :: r in rs ==> forall k :: 0 <= k < |render(r)| ==> IsFamilyRow(render(r)[k], family)
    ensures |RowsBy(rs, render)| >= |rs|
    ensures forall k :: 0 <= k < |RowsBy(rs, render)| ==> IsFamilyRow(RowsBy(rs, render)[k], family)
  {
    if rs != [] {
      var init := rs[..|rs| - 1];
      var last := rs[|rs| - 1];
      RowsByFamily(init, render, family);
      var a := RowsBy(init, render);
      var b := render(last);
      assert RowsBy(rs, render) == a + b;
      forall k | 0 <= k < |a + b| ensures IsFamilyRow((a + b)[k], family) {
        if k < |a| {
          assert (a + b)[k] == a[k];
        } else {
          assert (a + b)[k] == b[k - |a|];
        }
      }
    }
  }

  /** The output is the header, then the rows; every row is an IPv4 or an
      IPv6 row, no IPv4 row comes after an IPv6 row, and every record yields
      at least one row. */
  lemma CsvSpec(ranges: seq<DetailRecord>, codec: Ipv6Codec)
    requires forall r :: r in ranges ==> IsWritableRange(r)
    ensures var out := Csv(ranges, codec);
            out[0] == Header && |out| >= |ranges| + 1
            && (forall k :: 1 <= k < |out| ==> IsFamilyRow(out[k], "ipv4") || IsFamilyRow(out[k], "ipv6"))
            && (forall k, l :: 1 <= k < l < |out| && IsFamilyRow(out[l], "ipv4") ==> IsFamilyRow(out[k], "ipv4"))
  {
    var v4 := OfFamily(ranges, true);
    var v6 := OfFamily(ranges, false);
    var s4 := SortByStart(v4);
    var s6 := SortByStart(v6);
    var render := Render(codec);
    SortedRangesMembers(ranges);
    SortedFamily(ranges, true);
    SortedFamily(ranges, false);
    assert SortedRanges(ranges) == s4 + s6;
    assert |ranges| == |s4| + |s6| by {
      FamiliesPartition(ranges);
      assert |multiset(v4)| + |multiset(v6)| == |multiset(ranges)|;
    }
    FamilyRendering(s4, ranges, codec, true);
    FamilyRendering(s6, ranges, codec, false);
    RowsByAppend(s4, s6, render);
    RowsByFamily(s4, render, "ipv4");
    RowsByFamily(s6, render, "ipv6");
    var a := RowsBy(s4, render);
    var b := RowsBy(s6, render);
    var out := Csv(ranges, codec);
    assert RowsBy(SortedRanges(ranges), render) == a + b;
    assert [Header] + RowsBy(SortedRanges(ranges), render) == [Header] + a + b;
    TwoRuns(out, a, b);
  }

  /** A header followed by a run of IPv4 rows and then a run of IPv6 rows. */
  lemma TwoRuns(out: seq<string>, a: seq<string>, b: seq<string>)
    requires out == [Header] + (a + b)
    requires forall k :: 0 <= k < |a| ==> IsFamilyRow(a[k], "ipv4")
    requires forall k :: 0 <= k < |b| ==> IsFamilyRow(b[k], "ipv6")
    ensures forall k :: 1 <= k < |out| ==> IsFamilyRow(out[k], "ipv4") || IsFamilyRow(out[k], "ipv6")
    ensures forall k, l :: 1 <= k < l < |out| && IsFamilyRow(out[l], "ipv4") ==> IsFamilyRow(out[k], "ipv4")
  {
    forall k | 1 <= k < |out| ensures (k < 1 + |a| ==> IsFamilyRow(out[k], "ipv4")) && (k >= 1 + |a| ==> IsFamilyRow(out[k], "ipv6")) {
      if k < 1 + |a| {
        assert out[k] == a[k - 1];
      } else {
        assert out[k] == b[k - 1 - |a|];
      }
    }
    forall k, l | 1 <= k < l < |out| && IsFamilyRow(out[l], "ipv4") ensures IsFamilyRow(out[k], "ipv4") {
      if l >= 1 + |a| {
        assert out[l][..5] == "ipv6,";
      }
    }
  }

  /** The sorted records of one family render to rows of that family. */
  lemma FamilyRendering(sorted: seq<DetailRecord>, ranges: seq<DetailRecord>, codec: Ipv6Codec, ipv4: bool)
    requires forall r :: r in ranges ==> IsWritableRange(r)
    requires forall r :: r in sorted ==> r in ranges
    requires forall i :: 0 <= i < |sorted| ==> sorted[i].start.Ipv4Start? == ipv4
    ensures forall r :: r in sorted ==> Render(codec).requires(r) && |Render(codec)(r)| >= 1
    ensures forall r :: r in sorted ==>
              forall k :: 0 <= k < |Render(codec)(r)| ==> IsFamilyRow(Render(codec)(r)[k], if ipv4 then "ipv4" else "ipv6")
  {
    forall r | r in sorted
      ensures Render(codec).requires(r) && |Render(codec)(r)| >= 1
      ensures forall k :: 0 <= k < |Render(codec)(r)| ==> IsFamilyRow(Render(codec)(r)[k], if ipv4 then "ipv4" else "ipv6")
    {
      var i :| 0 <= i < |sorted| && sorted[i] == r;
      RecordRowsSpec(r, codec);
    }
  }

  /** The lines written for one record of `sorted_ranges`. */
  method WriteRecord(r: DetailRecord, codec: Ipv6Codec) returns (rows: seq<string>)
    requires IsWritableRange(r)
    ensures rows == RecordRows(r, codec)
  {
    if r.start.Ipv4Start? {
      var firstAddress := r.start.address;
      var lastAddress := LastAddress(r);
      var blocks := SummarizeAddressRange(firstAddress, lastAddress);
      rows := WriteBlocks(blocks, r);
      Ipv4RecordRows(r, codec, blocks);
    } else {
      rows := [Row("ipv6", codec.show(r.start.address6) + "/" + IntToString(r.value), r)];
      Ipv6RecordRows(r, codec);
    }
  }

  /** The inner loop: one line per CIDR block of an IPv4 record. */
  method WriteBlocks(blocks: seq<Block>, r: DetailRecord) returns (rows: seq<string>)
    requires IsWritableRange(r)
    ensures rows == BlockRows(blocks, r)
  {
    rows := [];
    var j := 0;
    while j < |blocks|
      invariant 0 <= j <= |blocks|
      invariant rows == BlockRows(blocks[..j], r)
    {
      BlockRowsExtend(blocks, j, r);
      rows := rows + [Row("ipv4", FormatBlock(blocks[j]), r)];
      j := j + 1;
    }
    assert blocks[..j] == blocks;
  }

  /** The rows of the first `j + 1` blocks extend those of the first `j`. */
  lemma BlockRowsExtend(blocks: seq<Block>, j: nat, r: DetailRecord)
    requires IsWritableRange(r) && j < |blocks|
    ensures BlockRows(blocks[..j + 1], r) == BlockRows(blocks[..j], r) + [Row("ipv4", FormatBlock(blocks[j]), r)]
  {
    assert blocks[..j + 1][..j] == blocks[..j];
  }

  /** The rows of the `i`-th sorted record, which extend the rows of the
      records before it. */
  method WriteNext(sortedRanges: seq<DetailRecord>, i: nat, codec: Ipv6Codec, ghost done: seq<string>)
    returns (rows: seq<string>)
    requires i < |sortedRanges|
    requires forall x :: x in sortedRanges ==> IsWritableRange(x)
    requires done == RowsBy(sortedRanges[..i], Render(codec))
    ensures done + rows == RowsBy(sortedRanges[..i + 1], Render(codec))
  {
    var r := sortedRanges[i];
    assert IsWritableRange(r);
    rows := WriteRecord(r, codec);
    RenderApply(codec, r);
    RowsByExtend(sortedRanges, i, Render(codec), done, rows);
  }

  /** Concatenation of rows is associative. */
  lemma AppendAssoc(a: seq<string>, b: seq<string>, c: seq<string>)
    ensures (a + b) + c == a + (b + c)
  {
  }

  /** `write_intermediate_stats_to_csv`: the header, then the rows of the
      sorted records; `outputCount` is the number of rows after the header. */
  method WriteIntermediateStats(ranges: seq<DetailRecord>, codec: Ipv6Codec)
    returns (out: seq<string>, outputCount: nat)
    requires forall r :: r in ranges ==> IsWritableRange(r)
    ensures out == Csv(ranges, codec)
    ensures outputCount == |out| - 1
  {
    outputCount := 0;
    out := [Header];
    var sortedRanges := SortByStart(OfFamily(ranges, true));
    sortedRanges := sortedRanges + SortByStart(OfFamily(ranges, false));
    SortedRangesMembers(ranges);
    assert sortedRanges == SortedRanges(ranges);
    assert forall x :: x in sortedRanges ==> IsWritableRange(x);
    var i := 0;
    ghost var done: seq<string> := [];
    while i < |sortedRanges|
      invariant 0 <= i <= |sortedRanges|
      invariant done == RowsBy(sortedRanges[..i], Render(codec))
      invariant out == [Header] + done
      invariant outputCount == |out| - 1
    {
      var rows := WriteNext(sortedRanges, i, codec, done);
      AppendAssoc([Header], done, rows);
      out := out + rows;
      done := done + rows;
      outputCount := outputCount + |rows|;
      i := i + 1;
    }
    assert sortedRanges[..i] == sortedRanges;
  }
}
