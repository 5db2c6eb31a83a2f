# quickhouse: a verified model of its core

quickhouse moves rows from databases and APIs into ClickHouse, BigQuery or CSV files. This project models
the self-contained algorithms that decide what ends up in the destination, and proves what they are for:

- **Exact decimals.** Two decoders, one of PostgreSQL's base-10000 `numeric` wire format and one of plain
  decimal text, accumulate digits into an `i128`, drop what no longer fits, rescale with rounding half away
  from zero and check a precision (`NumericWire`, `DecimalText`, `Decimal`). `PowersOfTen`, `Digits` and
  `DecimalRounding` give the exact arithmetic they are compared with, over unbounded integers; the two
  decoders meet in `DecimalAgreement`.
- **The streaming COPY decoder.** `CopyDecoder` is the class with its buffer, builders and counters, proved
  against `CopyStream`, a specification over byte sequences. There, cutting the stream into chunks is shown
  not to matter and the PostgreSQL "COPY: Binary Format" layout is shown to be inverted.
- **Printers and parsers.** Dates and timestamps over a proleptic Gregorian calendar (`Calendar`,
  `DateText`), CSV with a reader of RFC 4180 section 2 (`CsvText`, `CsvWriter`), protobuf rows with a reader
  of the Protocol Buffers Encoding specification (`ProtoWire`, `BigQueryProto`), and ClickHouse `Enum`
  definitions (`EnumDefault`).
- **Reconciliation.** The keyed comparison of two batched row sets (`ValueKeys`, `KeyIndex`, `ValueDiff`),
  and the two reads and the delete of `reconcile_keys` racing with writers and syncs (`Reconcile`).
- **State machines.** The fair byte semaphore (`MemoryBudget`), the archive uploads under any interleaving
  (`ArchiveUploads`), the NULL filter (`NullGuard`, `NullFilter`), and one row per key of a frame
  (`FrameDedup`).

`Options`, `Collections`, `Bytes` and `Digits` hold what several of these share.

Code that changes things in place is a class or a method with loops, each proved equal to a function of
its inputs or old state; the laws are lemmas about those functions. Concurrent protocols are state machines
whose runs are arbitrary sequences of events. `dafny verify dfyconfig.toml` checks everything.

## Where the code and its comments differ

The model follows the code.

- `decimal.rs:165-169` says a digit dropped for lack of room can never move a half-way decision. It can
  when the digits run out exactly at the column's scale: 2 followed by 37 zeros and a 5 is cut, not rounded
  up, in a `Decimal(38, 37)`. `DecimalRounding.CorrectIffNoRoundUpCutOff` gives the exact condition, which
  only 38-digit columns can meet.
- `memory.rs:10-13` calls `max_memory_bytes` an honest ceiling. A request is clamped to a `u32`, so it is one
  exactly for batches of at most min(max, 2^32 - 1) bytes (`MemoryBudget.CeilingInBatches`; a ceiling past the
  semaphore's own limit has some slack, which `MemoryBudget.CeilingHoldsIff` counts).
- `reconcile.rs:29-31` lists the source as read first. `reconcile_keys` reads the destination first, as the
  comment beside the reads explains; `Reconcile.SafeIff` shows that this order is needed.
- `csv_writer.rs:194-234` writes booleans without `push_field`, so a delimiter that is a letter of `true` or
  `false` cuts them. `CsvText.ReadsBackIffBooleansIntact` is the exact condition for reading back.
- `reconcile_values.rs:1147-1149` normalises a decimal key by dropping trailing zeros. A decimal with a
  negative scale is left as it is, so 1E1 and 10 are different keys (`ValueKeys.SameKeyIff`).

## Model

| member | source | states |
|---|---|---|
| PowersOfTen.RoundDivIsNearest | crates/quickhouse-core/src/decimal.rs:92-110 | what the other rows call rounding is the nearest integer, the one further from zero on a tie |
| Decimal.RescaleIsRounding | crates/quickhouse-core/src/decimal.rs:82-112 | for every mantissa and pair of scales, rescaling is the exact number rounded half away from zero at the new scale, or an overflow exactly when that does not fit an `i128` or a non-zero mantissa is narrowed by 2^31 digits or more |
| Decimal.RescaleDependsOnNumber | crates/quickhouse-core/src/decimal.rs:82-112 | two spellings of one number rescale alike if and only if it is zero, or both or neither are narrowed by 2^31 digits or more |
| Decimal.FarNarrowingExample | crates/quickhouse-core/src/decimal.rs:86-91 | an input narrowed that far is refused although it rounds to zero |
| DecimalText.ReadDigits | crates/quickhouse-core/src/decimal.rs:149-184 | the digit loops keep the longest prefix an `i128` holds with the scale it leaves, or report an overflow when that prefix ends in the integer part |
| DecimalText.ParseDecimalText | crates/quickhouse-core/src/decimal.rs:135-184 | the parser returns the meaning of its text |
| DecimalText.SpellingParses | crates/quickhouse-core/src/decimal.rs:135-184 | every spelling of a decimal (whitespace, sign, either part missing) parses to its sign and digits |
| DecimalText.ParsedIsSpelled | crates/quickhouse-core/src/decimal.rs:135-184 | nothing but such spellings parses |
| DecimalText.AppendText | crates/quickhouse-core/src/decode_api.rs:282-315 | the text decoder's decimal cell, a blank text an uncounted NULL and any other NULL counted |
| DecimalText.PrintParseRoundTrip | crates/quickhouse-core/src/decimal.rs:42-78 | parsing a printed decimal gives back sign, magnitude and scale with nothing cut |
| DecimalText.NegativeScaleParse | crates/quickhouse-core/src/decimal.rs:42-78 | at a negative scale the printed text is the number with its zeros written out |
| DecimalText.PrintedDecodesExactly | crates/quickhouse-core/src/decode_api.rs:282-315 | a printed decimal decodes to the same mantissa in a column of its scale |
| DecimalRounding.DecodeIsEmitted | crates/quickhouse-core/src/decimal.rs:156-184 | truncating at the accumulator and then rescaling and checking the precision depends on the exact number alone: it is the correctly rounded cell unless the digit that decides the rounding does not fit |
| DecimalRounding.CorrectIffNoRoundUpCutOff | crates/quickhouse-core/src/decimal.rs:165-184 | the emitted cell is the correctly rounded one if and only if no round-up was cut off at the column's scale |
| DecimalRounding.CutOffNeedsFullPrecision | crates/quickhouse-core/src/decode.rs:178-195 | only a 38-digit column can be affected |
| DecimalRounding.WithinOneUnit | crates/quickhouse-core/src/decimal.rs:156-184 | in every case the magnitude is the correct one or one unit below it, and a NULL is never wrong |
| DecimalRounding.RoundUpCutOffExample | crates/quickhouse-core/src/decimal.rs:165-184 | a concrete half-way value that is cut off instead of rounded up |
| NumericWire.ReadGroups | crates/quickhouse-core/src/decode.rs:438-481 | the loop over base-10000 groups keeps the longest digit prefix an `i128` holds, wherever inside a group it ends |
| NumericWire.ParseNumericWire | crates/quickhouse-core/src/decode.rs:416-482 | a well-formed `numeric` parses to the meaning of its groups; a NaN or infinity is not a number |
| NumericWire.AppendNumeric | crates/quickhouse-core/src/decode.rs:173-197 | the wire decoder's decimal cell: the decoded groups' mantissa, or a counted NULL |
| NumericWire.WireDecodes | crates/quickhouse-core/src/decode.rs:416-482 | every group sequence, of any weight and with or without its trailing zeros, is emitted as its number dictates |
| DecimalAgreement.TextDecodes | crates/quickhouse-core/src/decode_api.rs:282-315 | every decimal text is emitted as its number dictates |
| DecimalAgreement.WireAndTextAgree | crates/quickhouse-core/src/decode.rs:416-482 | one number on the wire and as text gives the same mantissa or the same NULL in every column, whatever each decoder truncated |
| DecimalAgreement.PayloadAndTextAgree | crates/quickhouse-core/src/decode.rs:173-197 | any well-formed payload's bytes and any text of one number are decoded to the same cell |
| DecimalAgreement.SentAndTextAgree | crates/quickhouse-core/src/decode.rs:416-482 | so are the bytes sent for any groups, weight and display scale |
| DecimalAgreement.TextRoundsCorrectly | crates/quickhouse-core/src/decode_api.rs:282-315 | text decoding is correct rounding end to end if and only if no round-up is cut off, hence in every column below 38 digits |
| DecimalAgreement.WireRoundsCorrectly | crates/quickhouse-core/src/decode.rs:173-197 | the same for wire decoding |
| CopyStream.FeedAllIsFeed | crates/quickhouse-core/src/decode.rs:571-612 | feeding chunks one by one is feeding their concatenation |
| CopyStream.ChunkingDoesNotMatter | crates/quickhouse-core/src/decode.rs:571-625 | two ways of cutting one stream give the same batches, the same final state (rows counted, trailer seen, coercions) and the same errors |
| CopyStream.BatchesAreBounded | crates/quickhouse-core/src/decode.rs:589-632 | every batch reaches the row or byte limit with its last row and not before, has at most `batch_rows` rows, and fewer are left for the end |
| CopyStream.DecoderInvertsLayout | crates/quickhouse-core/src/decode.rs:634-715 | a header, any rows of optional fields, a trailer and anything after it decode to exactly those rows in order, in any chunks |
| CopyDecoder.CopyDecoder.constructor | crates/quickhouse-core/src/decode.rs:515-546 | a new decoder is the specification's start state |
| CopyDecoder.CopyDecoder.Feed | crates/quickhouse-core/src/decode.rs:571-612 | one call does to the buffer, builders and counters what the specification's step does, and returns its batches by column |
| CopyDecoder.CopyDecoder.TakeTuple | crates/quickhouse-core/src/decode.rs:656-715 | a whole tuple is appended field by field; an unfinished one leaves every builder untouched |
| CopyDecoder.CopyDecoder.FlushBatch | crates/quickhouse-core/src/decode.rs:627-632 | the rows since the last cut become the batch's columns, or an error when a column that can't be NULL has one, and the builders start over |
| CopyDecoder.CopyDecoder.Finish | crates/quickhouse-core/src/decode.rs:615-621 | the rows left over, if any, are the last batch |
| Calendar.DateOfDayNumber | crates/quickhouse-core/src/sink/csv_writer.rs:254-266 | the date of a day number is the one date with that number, on a proleptic Gregorian calendar |
| Calendar.DayNumberInjective | crates/quickhouse-core/src/sink/csv_writer.rs:254-266 | no two dates have one day number |
| Calendar.EpochDay | crates/quickhouse-core/src/decode_api.rs:389-425 | 1970-01-01 is day 719163 |
| DateText.WindowYears | crates/quickhouse-core/src/decode_api.rs:383-387 | the accepted day window is exactly the years 1900 to 2299 |
| DateText.DateRoundTrip | crates/quickhouse-core/src/sink/csv_writer.rs:254-266 | every day of those years is parsed back from its printed text |
| DateText.TimestampRoundTrip | crates/quickhouse-core/src/sink/csv_writer.rs:268-304 | every UTC timestamp of those years, of any unit and before or after 1970, is parsed back to the microsecond |
| DateText.InstantParses | crates/quickhouse-core/src/decode_api.rs:429-452 | an RFC 3339 text of any date of the years 0 to 9999, any number of fractional digits and any offset is read as its instant, less the offset and rounded down to the microsecond, and refused exactly outside the window |
| DateText.OffsetParses | crates/quickhouse-core/src/decode_api.rs:434-437 | every `+hh:mm` and `-hh:mm` is read as its seconds east of UTC |
| DateText.CivilInstantParses | crates/quickhouse-core/src/decode_api.rs:438-440 | every civil text is read as its reading in UTC, under the same window |
| DateText.PackedInstantParses | crates/quickhouse-core/src/decode_api.rs:441-445 | and so is every 14-digit packed text, so the two forms of one instant are read alike |
| DateText.EpochParses | crates/quickhouse-core/src/decode_api.rs:446-451 | any other integer is read as seconds since 1970, or milliseconds when it has thirteen digits, under the same window: a product past an `i64` is outside it |
| DateText.PackedDayParses | crates/quickhouse-core/src/decode_api.rs:383-398 | every date is read from its 8-digit form and from a 14-digit one, whatever the digits after it |
| DateText.EpochDayParses | crates/quickhouse-core/src/decode_api.rs:399-405 | any other integer, read as a date, is the day of the instant it is read as |
| DateText.FractionIsFloored | crates/quickhouse-core/src/decode_api.rs:434-452 | a fraction of any length is read as its nanoseconds, rounded down |
| CsvText.FileReads | crates/quickhouse-core/src/sink/csv_writer.rs:194-235 | what an RFC 4180 reader makes of any rows' text, a cut boolean included |
| CsvText.ReadsBackIffBooleansIntact | crates/quickhouse-core/src/sink/csv_writer.rs:85-116 | reading gives back every row, NULL apart from empty, if and only if the delimiter is in no written boolean |
| CsvText.CutBooleanExample | crates/quickhouse-core/src/sink/csv_writer.rs:194-235 | a boolean under the delimiter `t` that does not read back |
| CsvWriter.PushField | crates/quickhouse-core/src/sink/csv_writer.rs:85-105 | a value is appended plain, or quoted with its quotes doubled |
| CsvWriter.PushHeader | crates/quickhouse-core/src/sink/csv_writer.rs:107-116 | the header is the row of its names |
| CsvWriter.PushValue | crates/quickhouse-core/src/sink/csv_writer.rs:194-235 | a cell is appended as its text, or refused for a date out of range |
| CsvWriter.PartWriter.constructor | crates/quickhouse-core/src/sink/csv_writer.rs:344-378 | a new part holds the header row or nothing |
| CsvWriter.PartWriter.Write | crates/quickhouse-core/src/sink/csv_writer.rs:386-413 | a batch appends exactly its rows' text to the file and returns its length, wherever the buffer is flushed |
| CsvWriter.TextOfFlatten | crates/quickhouse-core/src/sink/csv_writer.rs:386-424 | a part's text depends on its rows, not on how they were batched |
| CsvWriter.PartReadsBack | crates/quickhouse-core/src/sink/csv_writer.rs:344-424 | a whole part reads back as its header and every batch's rows |
| ProtoWire.VarintRoundTrip | crates/quickhouse-core/src/sink/bigquery_proto.rs:244-255 | a 64-bit varint takes at most ten bytes and is read back |
| ProtoWire.VarintIsMinimal | crates/quickhouse-core/src/sink/bigquery_proto.rs:244-255 | no shorter bytes decode to the same number |
| ProtoWire.NegativeTakesTen | crates/quickhouse-core/src/sink/bigquery_proto.rs:271-274 | a negative integer takes exactly ten bytes |
| ProtoWire.FieldReads | crates/quickhouse-core/src/sink/bigquery_proto.rs:258-287 | a tagged field is read as its number and value, and what follows it as before |
| BigQueryProto.ResolveFields | crates/quickhouse-core/src/sink/bigquery_proto.rs:53-72 | the loop that stops at the first unmapped type fails exactly when there is one, and otherwise gives every column its own number, from 1 in order |
| BigQueryProto.PushVarint | crates/quickhouse-core/src/sink/bigquery_proto.rs:244-255 | the loop appends the varint |
| BigQueryProto.WriteField | crates/quickhouse-core/src/sink/bigquery_proto.rs:258-287 | each writer appends one tagged field |
| BigQueryProto.EncodeRow | crates/quickhouse-core/src/sink/bigquery_proto.rs:133-233 | a row appends its message: a field for each value and none for a NULL |
| BigQueryProto.RowRoundTrip | crates/quickhouse-core/src/sink/bigquery_proto.rs:133-233 | decoding an encoded row gives exactly the row, NULL absent and zero or empty present, a `UInt64` modulo 2^64 as signed |
| BigQueryProto.NumericTextIsExact | crates/quickhouse-core/src/sink/bigquery_proto.rs:133-233 | a decimal column is delivered as text that parses back to the same sign, magnitude and scale |
| EnumDefault.Default | crates/quickhouse-core/src/null_guard.rs:539-590 | the character loops return the meaning of the definition, malformed ones included |
| EnumDefault.PrintedDefinitionReads | crates/quickhouse-core/src/null_guard.rs:536-590 | for every list of names and numbers, explicit or implied, with any escapes and whitespace, the default is the name of the lowest value, the first on ties |
| EnumDefault.LowestIsFirst | crates/quickhouse-core/src/null_guard.rs:580-582 | the running minimum is the first lowest element |
| NullGuard.New | crates/quickhouse-core/src/null_guard.rs:165-255 | the loops build the watermark, the keys' columns once each, and the other NOT NULL columns an option names |
| NullGuard.GuardIsDisjoint | crates/quickhouse-core/src/null_guard.rs:165-255 | no column is checked twice, and only columns of the plan are |
| NullGuard.ChecksExactly | crates/quickhouse-core/src/null_guard.rs:165-255 | a column is checked if and only if it is the watermark's and can't be NULL, or a key's, nullable or not, or one an option makes NOT NULL |
| NullFilter.Filter | crates/quickhouse-core/src/null_guard.rs:335-374 | the column-wise filter produces the row-wise result, in a batch valid under the strict schema, and fails exactly for a batch not shaped like the plan or a NULL without a default |
| NullFilter.KeepsExactly | crates/quickhouse-core/src/null_guard.rs:335-357 | exactly the rows with no NULL in a left-out column are kept, in order |
| NullFilter.EveryRowAccounted | crates/quickhouse-core/src/null_guard.rs:335-357 | every row is kept or charged to one column: the counts sum to the rows left out |
| NullFilter.FilledRow | crates/quickhouse-core/src/null_guard.rs:358-374 | a checked column's NULL becomes its default and no other cell changes |
| NullFilter.StrictSchemaHolds | crates/quickhouse-core/src/null_guard.rs:310-330 | no NULL is left in a checked column |
| NullFilter.SplittingDoesNotMatter | crates/quickhouse-core/src/null_guard.rs:335-374 | filtering two batches gives the rows, the summed counts and the failures of filtering them as one |
| NullFilter.FilterIsIdempotent | crates/quickhouse-core/src/null_guard.rs:335-374 | filtering the result again changes nothing and counts nothing |
| KeyIndex.Build | crates/quickhouse-core/src/reconcile_values.rs:1199-1224 | the index of batched rows is that of the row sequence: each key's place is its first row's, the keys are in order of appearance, and the duplicates are those that occur again |
| KeyIndex.FlatRow | crates/quickhouse-core/src/reconcile_values.rs:1185-1189 | a place within the batches is one position of the row sequence and holds its row |
| KeyIndex.OrderIs | crates/quickhouse-core/src/reconcile_values.rs:1199-1224 | the order lists every occurring key once |
| KeyIndex.OrderAscends | crates/quickhouse-core/src/reconcile_values.rs:1199-1224 | and by its first row |
| ValueKeys.KeyValueOf | crates/quickhouse-core/src/reconcile_values.rs:1162-1182 | the loop that drops trailing zeros computes the key |
| ValueKeys.SameKeyIff | crates/quickhouse-core/src/reconcile_values.rs:1162-1182 | two integer, decimal or boolean cells have one key if and only if they are one number, for scales that are not negative; otherwise also the same mantissa and scale |
| ValueKeys.NegativeScaleKeysDiffer | crates/quickhouse-core/src/reconcile_values.rs:1162-1182 | one number under two keys, at a negative scale |
| ValueKeys.ZeroToleranceIsExact | crates/quickhouse-core/src/reconcile_values.rs:1328-1346 | with no tolerance two decimals are equal if and only if they are one number, whenever the arithmetic fits an `i128` |
| ValueKeys.ExactOutcome | crates/quickhouse-core/src/reconcile_values.rs:1238-1258 | what a pair of exact cells counts as, from their values and the NULL-default flag alone |
| ValueDiff.FlagIsItsOwn | crates/quickhouse-core/src/reconcile_values.rs:873-888 | each column is compared with the flag column the destination read added for it |
| ValueDiff.Diff | crates/quickhouse-core/src/reconcile_values.rs:1381-1489 | the result is a function of each side's row sequence, however it is batched |
| ValueDiff.ComparedOnceOnBoth | crates/quickhouse-core/src/reconcile_values.rs:1428-1434 | the compared keys are those occurring exactly once on both sides |
| ValueDiff.ComparedInSourceOrder | crates/quickhouse-core/src/reconcile_values.rs:1428-1434 | each once, in the order of the source's rows |
| ValueDiff.CountsAreExact | crates/quickhouse-core/src/reconcile_values.rs:1449-1475 | each count is the number of compared rows that come out its way |
| ValueDiff.SampleIsFirst | crates/quickhouse-core/src/reconcile_values.rs:1449-1475 | the sample is the first differing keys in source order |
| ValueDiff.ColumnsReport | crates/quickhouse-core/src/reconcile_values.rs:1436-1477 | each reported column was compared on every compared key, its counts are how many keys occurring once on both sides come out each way, and its sample is the first of the differing ones |
| ValueDiff.KeysBalance | crates/quickhouse-core/src/reconcile_values.rs:1387-1426 | it refuses exactly two non-empty sides with no key in common; otherwise source keys less missing are destination keys less orphans |
| Reconcile.CommonKeysBalance | crates/quickhouse-core/src/reconcile.rs:230-252 | orphans and missing keys are the two set differences, and what is left is the same on both sides |
| Reconcile.RefusesExactly | crates/quickhouse-core/src/reconcile.rs:254-290 | it refuses exactly two non-empty keysets with nothing in common, and a delete over the ceiling |
| Reconcile.DeletesAreBounded | crates/quickhouse-core/src/reconcile.rs:153-163 | in every run keys are deleted only by a delete run with a window, and no more than the ceiling |
| Reconcile.RunKeepsInv | crates/quickhouse-core/src/reconcile.rs:206-302 | over every interleaving an orphan was once in the source and is gone from it for good |
| Reconcile.SafeIff | crates/quickhouse-core/src/reconcile.rs:206-302 | no interleaving deletes a key live in the source if and only if the destination is read first, keys are not reused, rows don't leave the window and destination keys came from the source |
| Reconcile.SourceFirstIsUnsafe | crates/quickhouse-core/src/reconcile.rs:206-215 | with the reads swapped, a run that deletes a live key |
| Reconcile.QuiescentRunRepairs | crates/quickhouse-core/src/reconcile.rs:206-302 | alone, a successful delete run leaves the destination's window within the source's and every other row as it was |
| MemoryBudget.StepKeepsInv | crates/quickhouse-core/src/memory.rs:67-116 | outstanding, given and free permits add up to the permit count after every step, and nothing is free while someone waits |
| MemoryBudget.BytesWithinCeiling | crates/quickhouse-core/src/memory.rs:42-85 | in every reachable state bytes in flight are within the ceiling, for batches of at most min(max, 2^32 - 1) |
| MemoryBudget.NeverMoreBytes | crates/quickhouse-core/src/memory.rs:42-85 | for every ceiling and bound on batches, the most bytes any run can have in flight |
| MemoryBudget.MostBytesReached | crates/quickhouse-core/src/memory.rs:42-85 | with batches past the largest request some run has exactly that many |
| MemoryBudget.CeilingHoldsIff | crates/quickhouse-core/src/memory.rs:42-85 | for every ceiling, bytes in flight stay within it in every run of batches within a bound if and only if that number does |
| MemoryBudget.CeilingInBatches | crates/quickhouse-core/src/memory.rs:42-56 | for a ceiling the semaphore can hold that is a bound of min(max, 2^32 - 1) on batches |
| MemoryBudget.OversizedRunsAlone | crates/quickhouse-core/src/memory.rs:62-75 | with a ceiling below 2^32 a batch of at least its size is the only one outstanding |
| MemoryBudget.NobodyWaitsForNothing | crates/quickhouse-core/src/memory.rs:62-85 | with nothing outstanding nobody waits and everything is free |
| MemoryBudget.NoOvertaking | crates/quickhouse-core/src/memory.rs:67-116 | a request is granted at once exactly when nobody waits and it fits; `try_reserve` changes nothing otherwise |
| MemoryBudget.GivenInOrder | crates/quickhouse-core/src/memory.rs:87-91 | returned permits serve a prefix of the line |
| MemoryBudget.ReleaseServes | crates/quickhouse-core/src/memory.rs:87-91 | every release leaves one request fewer and never strands a waiter |
| MemoryBudget.DropsServeInOrder | crates/quickhouse-core/src/memory.rs:87-91 | what any drops one after the other serve is the front of the line, in line order |
| MemoryBudget.DropsServeEveryone | crates/quickhouse-core/src/memory.rs:62-91 | from any reachable state, as many drops as there are requests leave nothing held, nobody waiting and every permit free, with every waiter served once, in line order |
| MemoryBudget.CanDrain | crates/quickhouse-core/src/memory.rs:62-91 | and there is a reservation to drop at each of them |
| MemoryBudget.MemoryBudget.Reserve | crates/quickhouse-core/src/memory.rs:67-85 | `reserve` takes the permits or joins the line, keeping the invariant |
| MemoryBudget.MemoryBudget.TryReserve | crates/quickhouse-core/src/memory.rs:103-116 | `try_reserve` takes the permits or changes nothing |
| ArchiveUploads.EndsAtMostOnce | crates/quickhouse-core/src/archive.rs:209-282 | in every interleaving an upload gets at most one shutdown or abort, nothing after it, and no put is going on when it is called |
| ArchiveUploads.ClosedForGood | crates/quickhouse-core/src/archive.rs:222-282 | a closed upload stays closed and its log is final once its end is called |
| ArchiveUploads.SweepClosesItsOwn | crates/quickhouse-core/src/archive.rs:239-246 | once an `abort_unfinished` is done, every upload it took is closed, whatever other calls do |
| ArchiveUploads.SweptAreClosed | crates/quickhouse-core/src/archive.rs:239-246 | once it and those before it are done, every upload registered before it took the list is closed |
| ArchiveUploads.EarlierSweepsMatter | crates/quickhouse-core/src/archive.rs:239-246 | that needs the earlier ones: a second call can finish while the first has yet to close what it took |
| FrameDedup.DedupeKeepsBest | python/quickhouse/pandas.py:389-440 | the sort, re-numbering, group maximum and mask keep exactly the best row of each key, in order, then every NULL-key row; with no shared key the rows stay as they were |
| FrameDedup.OneBestPerKey | python/quickhouse/pandas.py:389-440 | of the rows sharing a key exactly one is best by (watermark, position), or by position alone |
| FrameDedup.NullKeysSplitOff | python/quickhouse/pandas.py:389-397 | the rows set aside are exactly those with a NULL key and the others stay, each row once and in order |

## Left out

- NumericWire.AppendNumeric: malformed wire values (a negative group count, a group outside 0..9999) are not given the code's results; the model refuses a negative magnitude.
- NumericWire.ParseNumericWire: NaN and the infinities only; their treatment outside decimal columns is not modelled.
- DecimalAgreement.TextDecodes: texts with fewer than 2^31 fractional digits, so that the parser's 32-bit scale does not wrap.
- DecimalAgreement.WireAndTextAgree: columns with a scale from 0 to 127; a negative target scale is not modelled.
- CopyDecoder.CopyDecoder.Feed: a column's decoding is a parameter; only the decimal arm is modelled (in `NumericWire`), not the other types, UTF-8, UUIDs or times.
- CopyDecoder.CopyDecoder.FlushBatch: nothing is promised about a decoder after an error.
- CopyDecoder.CopyDecoder.TakeTuple: a field length below -1 and a negative header extension length are refused; what the code does with such malformed streams is not modelled.
- CopyStream.DecoderInvertsLayout: needs at least one column; a batch without columns is an error.
- DateText.TimestampRoundTrip: the parser is modelled on the spellings the printer and the API's documented forms use; chrono's other lenient spellings and leap seconds are not part of this model.
- CsvWriter.PushValue: numbers, text, booleans, dates, timestamps and decimals; base64 of binary columns and float rendering are not part of this model.
- CsvWriter.PartWriter.Write: gzip and file errors are not modelled; `file` is the text before compression.
- BigQueryProto.RowRoundTrip: a double is its eight bytes, and the descriptor sent to the server is not modelled.
- EnumDefault.PrintedDefinitionReads: a backslash stands for the next character itself, as in the code; an escape such as `\n` for a line break is read as the letter.
- NullGuard.New: `fates`, `decode_columns`, `tallies` and the warning texts are left out, and the engine's parameter columns are an input.
- ValueKeys.ZeroToleranceIsExact: a positive tolerance and arithmetic past an `i128` are decided on doubles, which are parameters of the model.
- ValueDiff.Diff: cells are held by row, not in Arrow's columns; `plan_columns`, the choice of a rule and the SQL of the reads are left out.
- Reconcile.SafeIff: each read and the delete is one atomic step, and a copied row is in both windows or in neither; the queries, the rendering of keys as text and `rows_deleted` are left out.
- MemoryBudget.MemoryBudget.Reserve: tokio's semaphore is modelled as documented (first come, first served, the first waiter keeping partial permits); an unbounded budget does no accounting.
- ArchiveUploads.EndsAtMostOnce: a state machine over atomic sections rather than shared mutable objects; whether a shutdown or abort succeeds is not modelled.
- FrameDedup.DedupeKeepsBest: watermarks are integers and never NULL; missing columns and the warning are left out.
- The network, async runtime, credentials, SQL building, retries, DDL, the MySQL, BigQuery and ClickHouse decoders, the command line and progress output: their behaviour lies in libraries or servers, or repeats decoders modelled here.
- Float decoding (`numeric_digits_to_f64`, `decimal_to_f64`, `floats_within`): rounding of IEEE doubles is not modelled.
