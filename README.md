# RIR delegation statistics to CSV, modelled in Dafny

`bin/get_rirstats.py` downloads the extended delegation statistics file of a
Regional Internet Registry (a `|`-separated text format with one version line,
summary lines and one detail line per delegated ASN, IPv4 or IPv6 range). It
drops comment lines and decodes every line. It keeps the IPv4 and IPv6 detail
records, then writes them to standard output as a CSV. In the CSV each IPv4
range is split into the CIDR blocks that cover it, and each IPv6 range is one
`address/prefix` row.

This project models that core, module by module:

- `Text` (`text.dfy`) models Python's `str.isspace`, `str.strip`,
  `str.split(sep)` and `sep.join`.
- `Numbers` (`numbers.dfy`) models `int(text)` and `str(n)` on ASCII digits.
  It also models the grammar `float(text)` accepts, kept as far as the
  truthiness test of the version field needs. A literal is zero when all its
  digits are `0`, or when its value is so small that it rounds to `0.0`
  (`1e-400`, say).
- `Dates` (`dates.dfy`) models `get_date_from_yyyymmdd` with the calendar
  rules of `datetime.date`, and `str(date)`.
- `Ipv4` (`ipv4.dfy`) models dotted-quad text as `ipaddress.IPv4Address`
  reads and prints it. This follows Python 3.9.5 and later, which refuses an
  octet with a leading zero. Python 3.8.0 to 3.9.4 accept `010` as ten.
- `Cidr` (`cidr.dfy`) models `ipaddress.summarize_address_range` as the
  greedy walk it runs. Each step takes the largest aligned block that does not
  pass the last address.
- `Records` (`records.dfy`) models `parse_version_record` and `parse_record`.
  Python's `exit(1)` is the outcome `Fatal`, and a `None` result is `Skip`.
- `Ingest` (`ingest.dfy`) models the comment filter applied to the downloaded
  lines, and `parse_stats_list` as a loop.
- `Emit` (`emit.dfy`) models `write_intermediate_stats_to_csv` as a loop.
  Standard output is a sequence of lines.

Each loop of the source is a method with loop invariants, proved against a
function that specifies it: `FilterLines`, `ParseStatsList`,
`SummarizeAddressRange`, `WriteBlocks` and `WriteIntermediateStats`.
`WriteRecord` has no loop of its own: it runs `SummarizeAddressRange` and
`WriteBlocks` for one record. The properties are proved as lemmas about those
functions: round trips, outcomes, sorting, covering and output shape.

Two behaviours of the code are modelled as written.

- The version test `3.0 <= version < 2.0` can never hold. So
  `parse_version_record` refuses a version only when it is missing or zero,
  and versions such as `1.9` or `3.0` are accepted (see
  `Records.VersionRoundTrip`).
- The comment filter reads the first character of a stripped line before it
  tests for an empty line. So a blank line raises `IndexError` instead of
  being skipped (see "## Findings").

## Model

| member | source | states |
|---|---|---|
| `Text.StripIsStripped` | bin/get_rirstats.py:185 | `row.strip()` leaves no whitespace at either end |
| `Text.StripEmpty` | bin/get_rirstats.py:185-188 | a line strips to the empty string exactly when every character is whitespace |
| `Text.StripIdempotent` | bin/get_rirstats.py:185 | stripping twice is stripping once |
| `Text.TrimLeftCutsSpace` | bin/get_rirstats.py:185 | only whitespace is cut from the left |
| `Text.TrimRightCutsSpace` | bin/get_rirstats.py:185 | only whitespace is cut from the right |
| `Text.Strip` | bin/get_rirstats.py:185 | `row.strip()` is no longer than the line; what it cuts is stated by the lemmas below |
| `Text.StripKeepsLast` | bin/get_rirstats.py:96 | a final character that is not whitespace stays the last character after stripping |
| `Text.Split` | bin/get_rirstats.py:93 | splitting a line at a separator yields at least one field and no field holds the separator |
| `Text.Join` | bin/get_rirstats.py:235-241 | a join starts with its first field, followed by the separator when more fields follow |
| `Text.JoinSplit` | bin/get_rirstats.py:125 | joining the fields of a split gives the line back |
| `Text.SplitJoin` | bin/get_rirstats.py:125 | splitting joined separator-free fields gives the fields back |
| `Text.SplitCount` | bin/get_rirstats.py:126 | a line has one more field than separators |
| `Text.JoinAvoids` | bin/get_rirstats.py:235-241 | a joined text holds no character foreign to its fields other than the separator |
| `Numbers.IntRoundTrip` | bin/get_rirstats.py:110-114 | `int(str(i)) == i` for every integer; Python keeps this only for numerals of at most 4300 digits (see "## Left out") |
| `Numbers.NatToStringOfValue` | bin/get_rirstats.py:80-82 | every canonical numeral is what `str` prints for its own value |
| `Numbers.ZeroPadOfValue` | bin/get_rirstats.py:80-82 | a fixed-width digit field is its value's numeral zero-padded to that width |
| `Numbers.ParseInt` | bin/get_rirstats.py:110-114 | `int(text)` succeeds exactly when the stripped text, after an optional sign, is a run of digits with single underscores between them; a non-zero result is negative exactly when the sign is `-` (also used at lines 135, 146, 151 and 155); the 4300-digit limit of recent CPython is not modelled (see "## Left out") |
| `Numbers.ParseFloat` | bin/get_rirstats.py:95-98 | a finite literal `float` accepts has at least one digit before or after the point |
| `Numbers.FloatOfSimpleDecimal` | bin/get_rirstats.py:95-103 | `float` reads a `d.d` version field as a number that is falsy exactly when both digits are 0 |
| `Numbers.SimpleDecimalZero` | bin/get_rirstats.py:103 | a `d.d` literal is zero exactly when both digits are 0; a non-zero one is too large to round to zero |
| `Numbers.TinyLiteralIsZero` | bin/get_rirstats.py:96-103 | the value with mantissa `1` and exponent `-k` is zero for every `k >= 359`: it rounds to `0.0` |
| `Numbers.FloatOfTinyText` | bin/get_rirstats.py:96 | `float("1e-400")` reads the literal with mantissa `1` and exponent `-400`, and that literal is zero |
| `Records.TinyVersionFatal` | bin/get_rirstats.py:96-105 | the version field `1e-400` counts as missing, so every version line that starts with it stops the run |
| `Numbers.FloatRefusesStrayChar` | bin/get_rirstats.py:95-98 | for every text: if, after stripping and dropping a sign, some character is neither a digit nor one of `_ . e E + -`, and the text is not `inf`, `infinity` or `nan` in any case, then it is not a float |
| `Numbers.FloatRefusesPoint` | bin/get_rirstats.py:95-98 | a lone point is not a float |
| `Numbers.FloatRefusesBareExponent` | bin/get_rirstats.py:95-98 | for every text `m`, `m` followed by `e` or `E` is not a float: an exponent mark must be followed by digits |
| `Dates.ParseDate` | bin/get_rirstats.py:77-87 | a date is returned exactly when the token is eight digits naming a calendar day, with year, month and day from characters 0-3, 4-5 and 6-7 |
| `Dates.ParseCompact` | bin/get_rirstats.py:77-87 | every valid date survives writing its `YYYYMMDD` token and decoding it |
| `Dates.CompactParse` | bin/get_rirstats.py:77-87 | a token that decodes is the token of its date, so no two tokens decode to the same date |
| `Dates.ParseDateRejects` | bin/get_rirstats.py:83-86 | eight digits naming a thirteenth month or later give `None` |
| `Dates.IsoFormatOfCompact` | bin/get_rirstats.py:239 | the CSV date column is the registry's token with dashes after year and month |
| `Dates.IsoFormatAvoids` | bin/get_rirstats.py:239 | the date column holds only digits and dashes |
| `Ipv4.ParseOctet` | bin/get_rirstats.py:150 | an octet reads exactly when it is one to three digits, at most 255, with no leading zero |
| `Ipv4.ParseAddress` | bin/get_rirstats.py:150 | `IPv4Address(text)` succeeds exactly when the text splits at dots into four parts that each read as an octet, and the address's octets are those four values in order |
| `Ipv4.FormatAddress` | bin/get_rirstats.py:236 | `str(address)` splits at dots into four canonical numerals, the address's octets in order |
| `Ipv4.ParseFormat` | bin/get_rirstats.py:150 | printing an IPv4 address and reading it back gives the address |
| `Ipv4.FormatParse` | bin/get_rirstats.py:150 | text that reads as an address is that address's printed form |
| `Ipv4.Octets` | bin/get_rirstats.py:236 | an address has four octets below 256 |
| `Ipv4.OctetsOfFromOctets` | bin/get_rirstats.py:150 | building an address from octets and splitting it again gives the octets back |
| `Ipv4.FromOctetsOfOctets` | bin/get_rirstats.py:236 | splitting an address into octets and building it again gives the address back |
| `Cidr.Summarize` | bin/get_rirstats.py:234 | every block of `summarize_address_range(first, last)` starts within `[first, last]` and has a valid prefix length; a non-empty range gives at least one block, the first at `first` |
| `Cidr.SummarizeAddressRange` | bin/get_rirstats.py:234 | the walk yields the greedy block sequence `Summarize(first, last)` |
| `Cidr.SummarizeFacts` | bin/get_rirstats.py:232-234 | the blocks of `[first, last]` start at `first`, tile the range in ascending order, are aligned and maximal, and hold `last - first + 1` addresses between them |
| `Cidr.SummarizeTiles` | bin/get_rirstats.py:234 | the greedy blocks tile the range end to end |
| `Cidr.SummarizeGreedy` | bin/get_rirstats.py:234 | each greedy block is aligned and could not have been twice as large |
| `Cidr.TilesCover` | bin/get_rirstats.py:234 | an address is in some block exactly when it is in the range |
| `Cidr.TilesAscending` | bin/get_rirstats.py:234 | tiling blocks are ascending and pairwise disjoint |
| `Cidr.TilesSize` | bin/get_rirstats.py:234 | tiling blocks hold exactly as many addresses as the range |
| `Cidr.BlockBitsFacts` | bin/get_rirstats.py:234 | each step's block is aligned at the current address and could not be doubled |
| `Cidr.BlockFits` | bin/get_rirstats.py:234 | each step's block ends within the range |
| `Cidr.SummarizeStep` | bin/get_rirstats.py:234 | one step of the walk is the current block followed by the walk from its end |
| `Cidr.FormatBlockAvoids` | bin/get_rirstats.py:236 | a block's text holds only digits, dots and a slash |
| `Records.ParseVersionRecord` | bin/get_rirstats.py:91-119 | the version line is accepted or fatal, never skipped |
| `Records.VersionRecordOutcome` | bin/get_rirstats.py:91-119 | the version line is accepted exactly when it has seven fields, a non-zero number first, and integers for serial, records and UTC offset; the record holds those values, with a date `None` where its token does not decode |
| `Records.VersionRoundTrip` | bin/get_rirstats.py:91-119 | every version record survives writing its line and parsing it, whatever its non-zero version number |
| `Records.ParseRecord` | bin/get_rirstats.py:123-169 | `parse_record` stops the run only on a line of six or more fields that is not a summary line |
| `Records.DecodeFields` | bin/get_rirstats.py:123-169 | fewer than six fields give no record; a kept record is a summary exactly when field 5 is `summary`; a kept summary holds fields 0 and 2 as registry and family; a kept detail record has a status field and the family of its start is field 2 |
| `Records.ShortLineSkipped` | bin/get_rirstats.py:126-128 | a line of fewer than six fields is skipped |
| `Records.SummaryLineOutcome` | bin/get_rirstats.py:130-139 | a summary line is never fatal, and is kept exactly when its count is an integer and its family is `ipv4` or `ipv6` |
| `Records.DetailLineOutcome` | bin/get_rirstats.py:140-169 | a detail line is fatal exactly when its typed fields do not decode for its family or it has no status field; otherwise it is kept exactly for `ipv4` and `ipv6` |
| `Records.DetailRecordFields` | bin/get_rirstats.py:141-161 | a kept detail record holds its line's registry, country, decoded start, value, date and status, and an opaque id exactly when there is an eighth field |
| `Records.DetailRoundTrip` | bin/get_rirstats.py:123-169 | every IPv4 or IPv6 detail record survives writing its line and parsing it, with or without an opaque id |
| `Records.SummaryRoundTrip` | bin/get_rirstats.py:130-139 | summary lines of the two address families parse back to their record |
| `Records.SecondVersionLineSkipped` | bin/get_rirstats.py:140-169 | a later line shaped like the version line is skipped, not fatal |
| `Records.AsnNeverKept` | bin/get_rirstats.py:144-147 | `asn` lines are never kept |
| `Ingest.FilterLines` | bin/get_rirstats.py:184-191 | the filter stops at the first line that strips to nothing, and otherwise returns the stripped lines that are not comments, in order |
| `Ingest.KeptRows` | bin/get_rirstats.py:184-191 | the filter, with the blank-line test as intended, keeps at most as many rows as there are lines |
| `Ingest.KeptRowsShape` | bin/get_rirstats.py:185-191 | every kept row is stripped, not empty and not a comment |
| `Ingest.KeptByMember` | bin/get_rirstats.py:184-191 | a row is kept exactly when some line strips to it and it is neither empty nor a comment |
| `Ingest.KeptByAppend` | bin/get_rirstats.py:184-191 | filtering distributes over concatenation, so kept rows keep their relative order |
| `Ingest.KeptRowsDropsBlank` | bin/get_rirstats.py:188-189 | with the blank-line test as intended, a blank line anywhere changes nothing |
| `Ingest.TallyRows` | bin/get_rirstats.py:208-214 | the rows after the version line are never skipped as a whole, and the details and summaries counted are at most the rows |
| `Ingest.StatsList` | bin/get_rirstats.py:196-217 | `parse_stats_list` never yields `None`; an empty list gives no records; otherwise fewer records than lines, since the first line is the version line |
| `Ingest.RirDecodersNeverSkip` | bin/get_rirstats.py:204-207 | the version decoder accepts or stops the run and never skips |
| `Ingest.ParseStatsList` | bin/get_rirstats.py:196-217 | the loop returns `StatsList(items)`, one version read, as many details counted as returned, and the summaries counted |
| `Ingest.TallyRowsSpec` | bin/get_rirstats.py:203-214 | the rows after the version line are fatal exactly when one of them is, and otherwise give exactly their detail records in row order |
| `Ingest.StatsListSpec` | bin/get_rirstats.py:196-217 | `parse_stats_list` fails exactly when the version line or a later line is fatal, and otherwise returns the detail records of the lines after the first, in order, without any summary |
| `Ingest.DetailsOfMember` | bin/get_rirstats.py:208-214 | a detail record is returned exactly when some line decodes to it |
| `Emit.SortByStart` | bin/get_rirstats.py:225-227 | `sorted` by start returns as many records as it is given |
| `Emit.SortedRanges` | bin/get_rirstats.py:225-228 | the IPv4 list extended by the IPv6 list holds as many records as the input |
| `Emit.SortByStartSpec` | bin/get_rirstats.py:225-227 | `sorted` by start orders ascending, is a permutation, and is stable |
| `Emit.SortedRangesSpec` | bin/get_rirstats.py:225-228 | all IPv4 records come before all IPv6 records; each family is sorted and stable; every input record appears as often as in the input |
| `Emit.OfFamilyMembers` | bin/get_rirstats.py:225-227 | a family's list holds exactly the input records of that family |
| `Emit.FamiliesPartition` | bin/get_rirstats.py:225-228 | the two families together hold every input record once |
| `Emit.RecordRowsSpec` | bin/get_rirstats.py:229-251 | an IPv4 record gives one row per block of the greedy cover of `[start, start + value - 1]`, in order; an IPv6 record gives the one row of `start/value`; every row names the record's family first |
| `Emit.RecordRows` | bin/get_rirstats.py:229-251 | one record gives at least one row, and an IPv6 record exactly one |
| `Emit.Csv` | bin/get_rirstats.py:224-251 | standard output starts with the header line |
| `Emit.RowSplits` | bin/get_rirstats.py:235-241 | a row reads back as its seven columns when no column holds a comma |
| `Emit.RowStartsWithFamily` | bin/get_rirstats.py:235 | the first column of a row is its family |
| `Emit.CsvSpec` | bin/get_rirstats.py:220-252 | the output is the header, then at least one row per record; every row is IPv4 or IPv6, and no IPv4 row follows an IPv6 row |
| `Emit.WriteBlocks` | bin/get_rirstats.py:234-242 | the inner loop writes one row per block, in block order |
| `Emit.WriteRecord` | bin/get_rirstats.py:229-251 | the rows written for one record are `RecordRows(r)` |
| `Emit.WriteNext` | bin/get_rirstats.py:229-251 | the rows of the next sorted record extend the rows of the records before it |
| `Emit.WriteIntermediateStats` | bin/get_rirstats.py:220-252 | standard output is `Csv(ranges)`, and `output_count` is the number of rows after the header |

## Left out

- The download (`get_stats_list_from_url`'s HTTP request and status check), logging, `main`, command-line handling and process exit codes are not modelled. `FilterLines` starts from the lines that `splitlines()` returns.
- The model never joins the filter, the parser and the emitter into one run, because `main` is not part of this model.
- Floating point: `float(text)` is kept as the literal's sign, digits and exponent. The zero test is exact: a literal is zero when every digit is `0`, or when its value is at most `2^-1075`, which rounds to `0.0` under ties-to-even. Its binary value is not otherwise modelled. So a literal too large for a double, which becomes `inf` and is truthy, is accepted as the model accepts every non-zero version. The order comparison of the version test at line 103 is not modelled, because as written it never holds.
- Text is ASCII in the numeric parsers. Python's `isdigit` and `int` also accept other Unicode decimal digits. `str.isspace` is modelled on its full set.
- Numbers.ParseInt: has no limit on the number of digits. CPython 3.11 and later, and the security releases 3.10.7, 3.9.14 and 3.8.14, limit `int` on decimal text to 4300 digits by default and raise `ValueError` above it. With that limit, an over-long serial, record count or UTC offset makes the version line fatal (lines 110-117). An over-long start or value in a detail line is fatal too (lines 146-164). An over-long count in a summary line makes it skipped (lines 135-139). The model accepts all three.
- Dates.ParseDate: a date token of eight characters that `isdigit` accepts but `int` does not (a superscript `²`, say) makes `int` raise at lines 80-82, so the source stops at lines 114-116 (version line) or 162-164 (detail line). The model returns `None` for such a token, because it reads dates as ASCII.
- IPv6 text (`ipaddress.IPv6Address` and `str` of an IPv6 address) is a pair of functions given as a parameter (`Records.Ipv6Codec`). The round-trip lemmas assume the pair reads back what it prints (`Records.IsFaithful`).
- Ingest.ParseStatsList: takes its two line decoders as a parameter (`Ingest.Decoders`). `Ingest.RirDecoders` instantiates them with the model's parsers. The lemmas hold for any decoders.
- Emit.WriteIntermediateStats: requires every record to be writable (`Emit.IsWritableRange`). For an IPv4 range whose count is below one or runs past 255.255.255.255, the source raises an exception (from `summarize_address_range` or from the address addition) that ends the run. That path is not modelled. The date part of the requirement holds for every record the parser produces.
- Emit.WriteIntermediateStats: standard output is one sequence element per written line, without the newline. The final log message with `output_count` is `outputCount`.
- Cidr.SummarizeAddressRange: states that it yields `Summarize(first, last)`. That these blocks are a tiling greedy cover is the separate lemma `Cidr.SummarizeFacts`. That no shorter sequence of CIDR blocks covers the range is not proved.
- Emit.RowSplits: the emitter does no CSV quoting, so a registry, country, status or opaque id holding a comma gives a row with extra columns. The lemma only covers rows where no column holds one.
- The counters of `parse_stats_list` are returned for inspection only: the source writes them to a commented-out log line.

## Findings

| source | as written | input that shows it | evidently intended | confidence | as-written member | corrected member |
|---|---|---|---|---|---|---|
| bin/get_rirstats.py:186-189 | `row[0]` is read before the test `len(row) == 0`, so a line that strips to nothing raises `IndexError` and the `skip blank line` branch is never reached | a downloaded text whose second line is empty | blank lines are skipped like comments: `Ingest.KeptRowsDropsBlank` and `Ingest.KeptByMember` prove the corrected filter drops them, and `Ingest.FilterLines` returns `BlankLine` exactly when some line strips to nothing | high, not executed | `Ingest.FilterLines` | `Ingest.KeptRows` |
