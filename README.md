# daysum, modelled in Dafny

daysum keeps a day's activities in a small binary log file. The file opens
with an 8-byte epoch timestamp. Then come entry records, each an 8-byte
timestamp, an 8-byte label length and the label bytes. `new_file` creates a
log holding only the epoch. `insert_label` splices a record into the file
in timestamp order. `summarize_file` walks the records and charges the time
between consecutive records to the label of the later one. It then reports
per-label totals and the elapsed time as hours and minutes.

The model has six modules:

- `Bytes`: the `i64` and `usize` byte encodings and their round trips.
- `Files`: an open file as a class with its bytes and a cursor. Its methods
  are the four file operations the program uses: read into a zero-filled
  buffer, relative seek, read to end and write all.
- `Timeline`: the log as values (`Log`, `Entry`), its exact byte layout, a
  strict parser, and ordered insertion into a sequence of entries.
- `Insertion`: `new_file` and `insert_label` as methods on an `OpenFile`.
  `InsertLabel` is proved against `InsertFile`, a function on the file's
  bytes, and `NewFile` against `Serialize(Log(time, []))`. Lemmas then
  relate `InsertFile` to the log's values.
- `Summary`: `summarize_file` as methods with its loop, proved against
  `SummaryOf`, which gives the `Report` it computes. Lemmas cover
  accounting (totals add up to the elapsed time, equal labels merge),
  bounds and the hours/minutes split.
- `Seqs`: small generic facts about sequence slices and concatenation.

The first read of both operations is not checked. A file shorter than 8
bytes is therefore read as zero-padded: its epoch is decoded from the bytes
present followed by zeros, and neither operation fails on it.

## Model

| member | source | states |
|---|---|---|
| Insertion.NewFile | src/main.rs:7-10 | a new file holds exactly the serialisation of a log with the given epoch and no entries |
| Insertion.NewFileIsEmptyLog | src/main.rs:7-10 | a new log file is 8 bytes, parses back to the empty log with that epoch, reads back that epoch, and is well-formed |
| Insertion.InsertLabel | src/main.rs:12-49 | the status and the new file contents are those of `InsertFile` on the old contents: reject at or before the epoch, report a corrupt length, or splice the record at the scan's insertion point |
| Insertion.InsertFile | src/main.rs:16-19 | a timestamp at or before the stored epoch is rejected (if and only if), and every rejected insert leaves the bytes unchanged |
| Insertion.InsertIntoLog | src/main.rs:12-49 | on a file holding a log, an insert at or before the epoch changes nothing; a later one succeeds and the file then holds exactly the log with the entry inserted in order |
| Insertion.InsertKeepsHeadAndTail | src/main.rs:39-48 | an accepted insert keeps every byte before the insertion point (the epoch among them), writes the record there, and moves the old tail behind it unchanged |
| Insertion.InsertKeepsLogWellFormed | src/main.rs:12-49 | an accepted insert into a well-formed log leaves a well-formed log with the same epoch, one more entry, and the old entries plus the new one as a multiset |
| Insertion.SeekInsertionPoint | src/main.rs:21-37 | the loop leaves the cursor at the insertion point `Scan` defines, or reports a corrupt length |
| Insertion.ScanRecord | src/main.rs:22-36 | one pass: at end of file or at a record at or after the timestamp it stops with the cursor at the insertion point; otherwise it moves strictly forward to a position from which the scan gives the same result |
| Insertion.SkipRecordLabel | src/main.rs:34-36 | skipping a label succeeds exactly when the length fits `i64`, and then lands where `SkipLabel` says |
| Insertion.SkipLabel | src/main.rs:34-36 | corrected skip: it refuses exactly the lengths above `i64::MAX`, and otherwise moves strictly forward past the record's timestamp |
| Insertion.SkipLabelPastLength | src/main.rs:34-36 | a successful skip also lands past the label length field |
| Insertion.SkipLabelAsWritten | src/main.rs:34-36 | the source's seek target after the length field; it lies before the length field's end exactly when the length exceeds `i64::MAX` |
| Insertion.SkipLabelAgrees | src/main.rs:34-36 | the corrected skip fails exactly when the source's seek would move backwards, and otherwise lands where the source's seek does |
| Insertion.Scan | src/main.rs:21-37 | the insertion point the loop finds from a given record: it never lies before that record (definition: stop at a short read or at a timestamp at or after the new one, else skip the label) |
| Insertion.ScanStopsAtLater | src/main.rs:29-32 | wherever the scan stops with a whole timestamp left to read, that timestamp is at or after the new one |
| Insertion.SkipLabelAsWrittenRevisits | src/main.rs:34-36 | on a record whose length field reads 2^64 - 16, the source's seek lands back on the same record |
| Insertion.ScanEncodedEntries | src/main.rs:21-37 | on the bytes of whole records, the scan stops in front of the first entry at or after the timestamp (so a tie goes in front of the existing entry), or at the end of the records |
| Insertion.ScanEncodedFront | src/main.rs:29-36 | over whole encoded records, the scan stops at a record at or after the timestamp, and otherwise carries on at the next record with the same result |
| Insertion.ReadEncodedRecord | src/main.rs:22-36 | a whole encoded record reads back as its timestamp, and skipping its label lands just behind it |
| Insertion.WriteRecord | src/main.rs:44-46 | the three writes put the record's timestamp, label length and label at the cursor and leave the cursor behind them |
| Insertion.WriteRecordBeforeTail | src/main.rs:39-48 | buffering the tail, seeking back and writing record then tail is a splice of the record at the cursor |
| Timeline.InsertEntryPlacement | src/main.rs:21-37 | the new entry sits at the first index whose old entry is at or after it; earlier entries are unchanged and strictly earlier; later ones are the old entries moved up by one; the result is a permutation of the old entries plus the new one |
| Timeline.InsertEntryKeepsWellFormed | src/main.rs:12-49 | insertion after the epoch keeps the entries sorted and all after the epoch |
| Timeline.FirstAtOrAfter | src/main.rs:29-32 | the index is that of the first entry at or after the timestamp, or the number of entries when there is none |
| Timeline.InsertEntry | src/main.rs:21-48 | ordered insertion on values: one entry more than before (definition; `InsertEntryPlacement` and `InsertEntryKeepsWellFormed` state where the entry goes and what is kept, and `InsertIntoLog` ties it to the bytes) |
| Timeline.LengthEnd | src/main.rs:35 | the cursor after reading a record's length field: 8 to 16 bytes past the record's start, never past the end of the file |
| Timeline.LabelLength | src/main.rs:76 | the label length field decoded from a zero-filled 8-byte buffer (definition; `RecordFields` reads it back from an encoded record) |
| Timeline.ReadEpoch | src/main.rs:16-17 | the epoch both operations read: the first 8 bytes decoded as an `i64`, zero-padded when the file is shorter |
| Timeline.EncodeEntry | src/main.rs:44-46 | a record is 16 bytes of timestamp and label length followed by the label |
| Timeline.Serialize | src/main.rs:7-10 | the file holding a log: the epoch's 8 bytes followed by the records in order (definition; `ParseSerialize` and `SerializeParse` are its partners) |
| Timeline.Parse | src/main.rs:74-79 | strict reading of a file: the epoch then whole records and nothing else; every label it yields fits a `String` |
| Timeline.ParseSerialize | src/main.rs:44-46 | reading back a written log gives the same log |
| Timeline.SerializeParse | src/main.rs:74-79 | a file that parses is exactly the serialisation of what it parses to |
| Timeline.RecordFields | src/main.rs:74-78 | the three fields of an encoded record read back as its timestamp, label length and label, and the label starts right after the length field |
| Bytes.EncodeI64 | src/main.rs:9 | `i64::to_ne_bytes`: always 8 bytes (definition; `I64RoundTrip` and `I64BytesRoundTrip` are its partners) |
| Bytes.DecodeI64 | src/main.rs:56 | `i64::from_ne_bytes` on 8 bytes, two's complement (definition; `I64RoundTrip` and `I64BytesRoundTrip` are its partners) |
| Bytes.EncodeU64 | src/main.rs:45 | `usize::to_ne_bytes`: always 8 bytes (definition; `U64RoundTrip` and `U64BytesRoundTrip` are its partners) |
| Bytes.DecodeU64 | src/main.rs:77 | `usize::from_ne_bytes` on 8 bytes (definition; `U64RoundTrip` and `U64BytesRoundTrip` are its partners) |
| Bytes.U64BytesRoundTrip | src/main.rs:76-77 | every 8-byte string is the encoding of the length it decodes to |
| Bytes.I64RoundTrip | src/main.rs:9 | decoding the 8 bytes written for a timestamp gives it back |
| Bytes.I64BytesRoundTrip | src/main.rs:74 | every 8-byte string is the encoding of the timestamp it decodes to |
| Bytes.U64RoundTrip | src/main.rs:45 | decoding the 8 bytes written for a label length gives it back |
| Bytes.UsizeAsI64 | src/main.rs:36 | the cast reinterprets the length's 8 bytes as an `i64`; it is non-negative exactly when the length is at most `i64::MAX` |
| Files.OpenFile.Open | src/main.rs:13 | opening an existing file gives its contents with the cursor at offset 0 |
| Files.OpenFile.Create | src/main.rs:8 | `File::create` gives an empty file with the cursor at offset 0 |
| Files.OpenFile.Read | src/main.rs:22 | a read returns as many bytes as are asked for or as remain, fills the rest of the buffer with zeros, and advances the cursor by the count |
| Files.OpenFile.Seek | src/main.rs:30 | a relative seek succeeds exactly when the target is not before the start |
| Files.OpenFile.ReadToEnd | src/main.rs:40 | returns the bytes from the cursor on and moves the cursor to the end |
| Files.OpenFile.WriteAll | src/main.rs:44 | writes at the cursor, zero-filling any gap past the end, and advances the cursor; an empty write leaves the file unchanged |
| Files.OverwriteNothing | src/main.rs:46-48 | writing nothing within the file leaves it as it was |
| Files.OverwriteTwice | src/main.rs:44-46 | two consecutive writes are one write of both |
| Files.OverwriteWithTail | src/main.rs:48 | writing a record followed by the old tail is a splice |
| Summary.SummarizeFile | src/main.rs:51-101 | the report is `SummaryOf` the file's bytes: the epoch, the per-label totals and the elapsed time of the records read |
| Summary.SummaryOf | src/main.rs:51-90 | the report as a function of the bytes: the epoch, `Totals` of the records read after it, and the last record's time minus the epoch (definition; `SummaryOfLog` and `SummaryOfSerialized` state it on a log) |
| Summary.RecordAt | src/main.rs:68-79 | the record read at an offset: its timestamp, and a label with exactly as many bytes as the length field says |
| Summary.RecordEnd | src/main.rs:76-78 | the cursor after a record lies at least 8 bytes further on and within the file |
| Summary.ReadEntries | src/main.rs:65-79 | the records the loop reads, up to the first short timestamp read (definition; `ReadEntriesCount` and `ReadEncodedEntries` state its properties) |
| Summary.ReadEntriesCount | src/main.rs:65-88 | the loop reads at most one record per 8 bytes of file, so it ends |
| Summary.AddTo | src/main.rs:85 | the map after `entry(..).and_modify(..).or_insert(..)`: the label becomes a key, its value grows by the delta (from 0 when new), and every other label is unchanged |
| Summary.Totals | src/main.rs:64-87 | the label map after the records, charging each the time since the previous one (definition; `TotalsSum`, `TotalsKeys` and `TotalsByLabel` state its properties) |
| Summary.ReadFirstTime | src/main.rs:53-57 | the epoch is decoded from the first 8 bytes, zero-padded when the file is shorter |
| Summary.LastTs | src/main.rs:57 | the value of `prev_time` after the records: the epoch when there are none, else the last record's timestamp |
| Summary.ChargeAll | src/main.rs:65-88 | the loop ends with the label map and `prev_time` of all records read from the cursor |
| Summary.ChargeNext | src/main.rs:66-87 | one pass reads the next record and charges the time since the previous one to its label, or finds the end of the log |
| Summary.ReadRecord | src/main.rs:68-79 | a full timestamp read yields the next record and the cursor lands past it; a short read ends the log |
| Summary.ReadEncodedEntries | src/main.rs:68-71 | on whole encoded records followed by fewer than 8 bytes, the loop reads back exactly the written entries and the short read ends it |
| Summary.SummaryOfSerialized | src/main.rs:51-90 | the summary of a written log, even with a cut-off tail of fewer than 8 bytes: its epoch, the totals of its entries, and the time from the epoch to its last entry |
| Summary.SummaryOfLog | src/main.rs:51-90 | the summary of a file that parses as a log is that log's epoch, totals and elapsed time; with no entries the elapsed time is 0 |
| Summary.TotalsSum | src/main.rs:85-90 | the per-label totals add up to the elapsed time |
| Summary.TotalsKeys | src/main.rs:85 | the label map has exactly one key per distinct label read: identical labels merge |
| Summary.TotalsByLabel | src/main.rs:74-87 | each label's total equals the time charged to it by a front-to-back reference definition |
| Summary.TotalsBounded | src/main.rs:74-90 | on sorted entries after the epoch, every total lies between 0 and the elapsed time |
| Summary.NoOverflow | src/main.rs:74-87 | on a well-formed log spanning at most `i64::MAX` seconds, every delta and every running total fits in `i64` |
| Summary.MapSumAddTo | src/main.rs:85 | adding a delta to a label, whether new or existing, adds it to the map's sum |
| Summary.TruncDiv | src/main.rs:91 | Rust's `/` on `i64` by a positive divisor: the remainder is under the divisor and carries the dividend's sign, so the quotient rounds toward zero |
| Summary.ClockOf | src/main.rs:91-92 | the hours and minutes shown for a duration: minutes lie strictly between -60 and 60, and both carry the sign of the duration |
| Summary.ClockOfNonNegative | src/main.rs:90-92 | for a non-negative duration: whole hours, minutes below 60, and under a minute dropped |
| Summary.ClockOfSplit | src/main.rs:96-97 | any split into hours, minutes and seconds under 60 is recovered exactly |
| Summary.ClockOfNegated | src/main.rs:96-97 | division rounds toward zero, so a negative duration splits as the mirror image of the positive one |

## Left out

- `main` and argument handling: not part of this model; the three operations take their inputs as parameters.
- The clock (`chrono::Local`) and the RFC 2822 dates printed: times are plain parameters, and printing is not modelled.
- All `println!` output: the summary is returned as a value (`Report`) with the hours/minutes split given by `ClockOf`.
- The `f32` percentage per label: floating point is not modelled.
- The iteration order of the `HashMap`: the label map is a Dafny `map`, which has no order.
- I/O errors and the panics they cause: reads and writes always succeed here, a read returns all the bytes available, and a seek fails only before offset 0, which the corrected insertion never attempts. The file system's size limit is not modelled either: a seek or write far past the end (say to a label length near `i64::MAX`) makes `lseek` or `write_all` fail and `unwrap` panic in the program, whereas the model's file just grows, zero-filled up to that offset.
- Opening a missing file: `NewFile` starts from an empty file, as `File::create` truncates; `SummarizeFile` starts from given contents, and `InsertLabel` from an open file.
- The panic on a rejected timestamp: it becomes the status `NotAfterEpoch`, with the file left unchanged.
- UTF-8 validation of labels (`String::from_utf8(..).unwrap()`): labels are byte strings.
- Native byte order and word size: fixed as little-endian with an 8-byte `usize`.
- Integer width: arithmetic is unbounded. `NoOverflow` shows it agrees with `i64` on well-formed logs spanning at most `i64::MAX` seconds; on other files the source could overflow where the model does not.
- A short read of a label length or a label inside `summarize_file`: the code does not check it, so the missing bytes read as zeros. The model does the same (`RecordAt`).
- Summary.RecordAt: a length field too large for `vec![0u8; len]` makes `summarize_file` panic or abort on allocation; the model has no memory limit and reads a zero-padded label of that length instead.
- Summary.ClockOfNonNegative: states the split only for non-negative durations; `ClockOfNegated` covers the rest.

## Findings

| source | as written | input that shows it | evidently intended | confidence | as-written member | corrected member |
|---|---|---|---|---|---|---|
| src/main.rs:34-36 | the label length is cast with `as i64` before the relative seek, so a length of 2^63 or more seeks backwards | a record with timestamp 1 after epoch 0, inserting at timestamp 5, whose length field reads 2^64 - 16: the seek returns to the same record and `insert_label` never ends | treat such a length as a corrupt record and stop | not executed | Insertion.SkipLabelAsWrittenRevisits | Insertion.SkipLabel |
