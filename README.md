# CSV reader model

This project models the CSV reader of the `php-csv-reader` library (class
`CsvReader` in `src/CsvReader.php`). The model is written in Dafny, and its
properties are proved there.

The reader is an object over an open byte stream. **Loading** a file does
four things:

- It reads the byte order mark, when the caller's file inspection reports
  one, and picks the longest of fifteen known marks.
- It scans the first line. On the way it counts the four candidate
  separators (`,` `;` tab `|`) into counters that live on the object, and it
  notes the line ending. That ending is a one- or two-byte CR/LF ending,
  written byte by byte over the previous one, so a reload can give LF LF or
  keep a stale second byte.
- It picks the separator from those counters: as written, the last
  candidate whose count is positive.
- It counts the fields of the first line.

**Reading** returns one record at a time, in one of two modes:

- Delimited mode handles double quotes, doubled quotes inside them, and a
  one- or two-byte line ending. It repairs a field that is not UTF-8 by
  rereading it as ISO-8859-1, and optionally strips tags.
- Fixed-width mode cuts the line into characters by a width list.

The record reader retries over lines that give no record: empty lines and
skipped lines. The **dataset loop** does three things:

- It skips the header line, or reads it into the header fields.
- It skips `offset` records and stops after `limit` delivered rows.
- It pads or cuts every row to the field count.

A **format file** fills the width list (and optionally the header names) in
one of two ways:

- from a header row naming `length`, `start`/`stop` and `fieldname`
  columns, with one width per following row;
- from a bare list of integers.

The model has these modules:

- `Streams`: the `Stream` class. It holds the content, the cursor and PHP's
  end-of-file flag, and provides `fgetc` and `fseek`.
- `Bytes`: bytes, `trim`, `strtolower` and the integer syntax.
- `Utf8`: UTF-8 validity, characters, the ISO-8859-1 repair and `mb_substr`.
- `Sniffing`: the byte order mark table, the line-ending and separator
  detection, and the field count.
- `Tokenizer`: reading one record, as values over the content and a cursor.
- `TokenizerProps`: round trips and other properties of the tokenizer.
- `FormatPlan`: what a format file sets.
- `Delivery`: which rows the dataset loop delivers.
- `Datasets`: the dataset loop as a value.
- `CsvReaders`: the `CsvReader` class. Its methods run the source's loops on
  a `Stream` and are proved equal to the functions above.

## Model

| member | source | states |
|---|---|---|
| `CsvReaders.CsvReader.constructor` | src/CsvReader.php:39-70 | A new reader has no stream, no byte order mark, zero separator counters, separator `,`, no line ending, no widths and no header fields. Its options come from the caller. |
| `CsvReaders.CsvReader.Get` | src/CsvReader.php:86-98 | Each of the seven property names gives its field, and `IsLoaded` is whether a stream is open. Every other name, and only those, goes to the parent class. |
| `CsvReaders.CsvReader.SetStripTags` | src/CsvReader.php:699-704 | Sets the flag and returns the same object. |
| `CsvReaders.CsvReader.DetectSeparator` | src/CsvReader.php:100-131 | Counts the candidate bytes of the line and returns `SeparatorOfAsWritten(line)`: the last candidate in the order `,` `;` tab and the pipe that occurs in the line, `,` when none occurs. |
| `CsvReaders.CsvReader.ChooseFromCounters` | src/CsvReader.php:118-124 | The selection loop, whose threshold stays 0, returns `LastPositive(m, 4)`: the last key with a positive count, or the NUL sentinel. |
| `CsvReaders.CsvReader.ReadHead` | src/CsvReader.php:198-206 | Reads up to four bytes from the cursor. Bytes past the end stay `0x00`. |
| `CsvReaders.CsvReader.DetectBom` | src/CsvReader.php:208-224 | The scan over the table leaves the length and name that `ChoiceAmong` describes for the whole table. |
| `CsvReaders.CsvReader.DetectEndingLoop` | src/CsvReader.php:230-254 | The first-line loop leaves the ending that `DetectEnding` names. The counters grow by the candidates of the first line. |
| `CsvReaders.CsvReader.CountUpToBreak` | src/CsvReader.php:230-236 | Counts the candidates up to the first CR or LF and reports that byte, with the cursor just after it. If there is none, it reports nothing. |
| `CsvReaders.CsvReader.CountFields` | src/CsvReader.php:270-278 | The field count grows by `CountLoop`: the separators up to and including the first occurrence of the ending's first byte. |
| `CsvReaders.CsvReader.LoadFileInternal` | src/CsvReader.php:188-281 | With a mark, the mark chosen is the one the table selection determines; without one, the length is 0. The ending and the counters are detected from the end of the mark. The separator is `ChooseSeparatorAsWritten` of the accumulated counters and the previous separator. The field count is the old count plus one plus the separators of the first line. The cursor ends just after the mark. |
| `CsvReaders.CsvReader.LoadFile` | src/CsvReader.php:175-184 | A fresh stream over the content replaces the old one. The object's separator (chosen as written), field count and line ending are updated as `LoadFileInternal` states. |
| `CsvReaders.CsvReader.EndingAfterFirstByte` | src/CsvReader.php:592-605 | After the ending's first byte, whether the line ends and the cursor are what `EndingAfterFirst` says. |
| `CsvReaders.CsvReader.DelimitedTurn` | src/CsvReader.php:584-662 | One turn of the delimited loop is one `DelimitedStep`. It gives the same state, and it stops exactly when the step is `Done`. |
| `CsvReaders.CsvReader.ScanDelimitedFields` | src/CsvReader.php:582-662 | The whole delimited loop ends in the state and end flag of `ScanDelimited`. |
| `CsvReaders.CsvReader.GatherFixedLine` | src/CsvReader.php:534-558 | The fixed-width line loop ends where `GatherLine` says, with the same line and end flag. |
| `CsvReaders.CsvReader.SliceLine` | src/CsvReader.php:571-580 | The width loop gives `SliceFields` of the characters. |
| `CsvReaders.CsvReader.StripLoop` | src/CsvReader.php:688-694 | Every field is replaced by its stripped form, and the length is kept. |
| `CsvReaders.CsvReader.ReadNextLineInternal` | src/CsvReader.php:527-697 | The record, success flag, cursor and end flag are those of `ReadRecord` under the reader's configuration. |
| `CsvReaders.CsvReader.ReadNextLine` | src/CsvReader.php:510-521 | With no stream it fails with no fields. Otherwise the retry loop gives `ReadLine`. |
| `CsvReaders.CsvReader.ReadHeaderFields` | src/CsvReader.php:499-505 | The header fields become the next record when one is read, and are kept otherwise. |
| `CsvReaders.CsvReader.PadRow` | src/CsvReader.php:481-489 | The row vector is `Pad(fields, width)`. |
| `CsvReaders.CsvReader.DeliverTurn` | src/CsvReader.php:470-494 | One turn reads one line. It stops on a failed read or a reached limit, and otherwise counts the record. It skips the record below the offset, or delivers it padded and numbered. |
| `CsvReaders.CsvReader.DeliverLoop` | src/CsvReader.php:467-494 | The loop's rows and its final cursor are those of `DatasetLoop`. |
| `CsvReaders.CsvReader.ReadDatasetsCallback` | src/CsvReader.php:450-497 | With no stream it returns 0. Otherwise it rereads from the end of the mark and treats the header line as the source does. It returns `Deliver` over the records after it and the number of rows. The final cursor is that of the last read. |
| `CsvReaders.CsvReader.ScanLabels` | src/CsvReader.php:339-357 | The header loop gives `LabelsOf(fields)`. |
| `CsvReaders.CsvReader.ReadWidthRows` | src/CsvReader.php:366-401 | The row loop succeeds exactly when `HeaderRows` over the records up to the first failed read is defined, and then returns its widths and names. |
| `CsvReaders.CsvReader.AppendWidths` | src/CsvReader.php:403-405 | The widths are appended to the reader's width list. |
| `CsvReaders.CsvReader.AppendNames` | src/CsvReader.php:407-411 | The names are appended to the header fields. |
| `CsvReaders.CsvReader.AppendBareWidths` | src/CsvReader.php:412-423 | Appends the values of the leading integer fields. It succeeds exactly when every field is an integer (`BareWidths`). |
| `CsvReaders.CsvReader.ApplyHeader` | src/CsvReader.php:361-411 | With a header, widths and names are appended exactly when every row is good, and nothing is appended otherwise. A `start`/`stop` row's width is `1 - start`, as written. |
| `CsvReaders.CsvReader.ApplyFormat` | src/CsvReader.php:339-425 | The state after the first record is the old state extended by `PlanOf`. The field count becomes the width count on success and is unchanged on failure. |
| `CsvReaders.CsvReader.LoadFormat` | src/CsvReader.php:324-425 | Loading a format file: separator and ending are detected as for a CSV file from `,`, `[]` and mark length 0, with the separator chosen as written. The first record is read, and the widths, names and field count follow `PlanOf`. The counters accumulate. |
| `Streams.Stream.constructor` | src/CsvReader.php:175-184 | A stream opens at offset 0 with the end flag clear. |
| `Streams.Stream.Getc` | src/CsvReader.php:584 | `fgetc`: the byte at the cursor and one step on. At the end it returns no byte, keeps the cursor and sets the end flag. |
| `Streams.Stream.Seek` | src/CsvReader.php:227 | `fseek` to an offset moves the cursor there and clears the end flag. |
| `Streams.Stream.SeekBack` | src/CsvReader.php:546 | `fseek(-1, SEEK_CUR)` steps back one byte and clears the flag. At offset 0 it fails and changes nothing. |
| `Bytes.TrimSpec` | src/CsvReader.php:369 | `trim` gives a slice of the input: everything before and after it is whitespace, and its first and last bytes are not. |
| `Bytes.IntRoundTrip` | src/CsvReader.php:376 | Every integer's decimal rendering is in the numeric syntax and converts back to it. |
| `Utf8.Chars` | src/CsvReader.php:573-577 | A valid UTF-8 string splits into complete characters that concatenate back to it. |
| `Utf8.Substr` | src/CsvReader.php:577 | `mb_substr` with a non-negative start and length is the slice, clamped at the end. |
| `Utf8.Latin1ToUtf8Chars` | src/CsvReader.php:565 | `iconv` from ISO-8859-1 gives valid UTF-8 with one character per input byte. |
| `Utf8.Latin1RoundTrip` | src/CsvReader.php:565 | The code points of the converted string are the original bytes. |
| `Utf8.RepairSpec` | src/CsvReader.php:564-569 | The repair always gives valid UTF-8 and leaves valid input unchanged. Invalid input keeps its bytes as code points, and only the empty string repairs to empty. |
| `Sniffing.BomTableShape` | src/CsvReader.php:21-37 | The table has 15 marks of 2 to 4 bytes. |
| `Sniffing.Head` | src/CsvReader.php:199-206 | The four bytes compared: the stream's first bytes, then `0x00`. |
| `Sniffing.BomChoiceUnique` | src/CsvReader.php:208-224 | The table selection determines one length and one name. |
| `Sniffing.Utf8Bom` | src/CsvReader.php:208-224 | `EF BB BF` is UTF-8 with length 3. |
| `Sniffing.Utf32LeBeatsUtf16Le` | src/CsvReader.php:218-223 | `FF FE 00 00` is UTF-32 (LE), not UTF-16 (LE), because the longer match wins. |
| `Sniffing.ShortStreamBom` | src/CsvReader.php:199-224 | The two-byte stream `FF FE` compares as `FF FE 00 00` and is taken as UTF-32 (LE) with length 4. |
| `Sniffing.AddCountsSpec` | src/CsvReader.php:233-235 | Each candidate's counter grows by its occurrences, and other keys are unchanged. |
| `Sniffing.FirstBreak` | src/CsvReader.php:230-237 | The first-line loop stops at the first CR or LF, or at the end. |
| `Sniffing.SetByte` | src/CsvReader.php:239 | A string offset write replaces that byte or appends at the end, and leaves every other byte. |
| `Sniffing.FreshEnding` | src/CsvReader.php:230-254 | From an empty ending: none, LF, CRLF or CR, by the first break and the byte after it. |
| `Sniffing.EndingAccumulates` | src/CsvReader.php:239-243 | Writing offset 0 keeps an earlier second byte: after CRLF, an LF file gives LF LF. |
| `Sniffing.DetectEndingKeepsShape` | src/CsvReader.php:230-254 | The ending stays at most two bytes, each CR or LF. |
| `Sniffing.CountLoopSpec` | src/CsvReader.php:270-278 | The counting loop counts the separator in the bytes up to and including the ending's first byte. |
| `Sniffing.CountScanIsFirstLine` | src/CsvReader.php:270-278 | With the ending just detected, that is the count over the first line. |
| `Sniffing.ChooseSeparatorAsWritten` | src/CsvReader.php:256-268 | The selection as written, which the reader model runs: the last candidate with a positive count, or the previous separator when all counts are zero. |
| `Sniffing.LastPositiveChoice` | src/CsvReader.php:258-264 | As written, the choice is the last positive counter in table order. |
| `Sniffing.ChoiceIgnoresMagnitude` | src/CsvReader.php:258-264 | As written, the choice depends only on which counters are positive. |
| `Sniffing.StrongestSpec` | src/CsvReader.php:258-264 | The corrected loop keeps a candidate with the largest count seen, the earliest on a tie, or none while all counts are zero. |
| `Sniffing.ChooseSeparator` | src/CsvReader.php:256-268 | The corrected selection: a candidate with the largest positive count, earliest on a tie, or the previous separator when all counts are zero. |
| `Sniffing.SeparatorChoiceDiscrepancy` | src/CsvReader.php:118-124 | With counts of 2 for the comma and 1 for the pipe, the code as written picks the pipe and the corrected code picks the comma. |
| `Sniffing.SeparatorOf` | src/CsvReader.php:110-128 | The corrected separator of a line: a candidate, `,` when none occurs, whose count is the largest, and the earliest candidate with that count. |
| `Sniffing.SeparatorOfAsWritten` | src/CsvReader.php:100-131 | The separator `detectSeparator` returns: a candidate, `,` when none occurs; otherwise one that occurs in the line while no later candidate in the order `,` `;` tab and the pipe does. |
| `Sniffing.LineSeparatorDiscrepancy` | src/CsvReader.php:118-124 | For the line `,,` followed by a pipe, the code as written picks the pipe and the corrected choice picks the comma. |
| `Tokenizer.EndingAfterFirst` | src/CsvReader.php:592-605 | After the ending's first byte, the line ends exactly when the ending has one byte or the next byte is its second. The cursor never goes back before the first byte. |
| `Tokenizer.DelimitedStepBounds` | src/CsvReader.php:584-662 | A turn never moves the cursor back or past the end. It stops without the end flag only after a line ending, with the last field closed. |
| `Tokenizer.ScanDelimitedBounds` | src/CsvReader.php:584-662 | The delimited loop moves forward, and a loop that reads nothing ends at the end of the stream. |
| `Tokenizer.Stripped` | src/CsvReader.php:688-694 | With stripping on, every field is replaced by `strip_tags` of it. Otherwise the fields are unchanged. |
| `Tokenizer.GatherLine` | src/CsvReader.php:535-558 | The fixed-width line loop only extends the bytes gathered so far and moves the cursor forward. It ends without the end flag only after an ending. |
| `Tokenizer.ReadRecord` | src/CsvReader.php:527-697 | A successful read consumes input and gives at least one field. At the end of the stream nothing is read and the end flag is set. |
| `Tokenizer.ReadLine` | src/CsvReader.php:516-518 | The retry loop ends in a success or at the end of the stream. |
| `Tokenizer.Records` | src/CsvReader.php:470 | Every delivered record has at least one field. |
| `TokenizerProps.SplitJoin` | src/CsvReader.php:608-615 | The pieces between separators contain no separator, join back to the line, and number one more than the separators. |
| `TokenizerProps.JoinSplit` | src/CsvReader.php:608-615 | Separator-free pieces, joined and split again, come back unchanged. |
| `TokenizerProps.PlainLine` | src/CsvReader.php:584-619 | A line in which no field starts with a quote and every first ending byte is lone, followed by its ending, reads as its pieces between separators, each repaired (and stripped), with the cursor after the ending. An empty line counts as a record unless empty lines are ignored. |
| `TokenizerProps.EmptyLineSkipped` | src/CsvReader.php:664-672 | When empty lines are ignored, the retry loop reads on past an empty line. |
| `TokenizerProps.LoneEndingByteKept` | src/CsvReader.php:592-605 | With a two-byte ending, its first byte followed by any other byte is field data: the peeked byte is pushed back and read again, so the line reads as one field holding all its bytes, and the cursor ends after the real ending. |
| `TokenizerProps.InnerQuoteIsData` | src/CsvReader.php:585 | A quote opens quoting only as the first byte of a field: `u"v` and its ending, with `u` non-empty, read as the one field `u"v`. |
| `TokenizerProps.CloseSkipsByte` | src/CsvReader.php:621-653 | In quoting, a quote followed by a byte that is neither a quote nor the first ending byte closes the field and skips that byte. |
| `TokenizerProps.QuotedFieldSkipsByte` | src/CsvReader.php:621-653 | A closed quoted field followed by any such byte drops it: the next field starts after it, whatever it is. |
| `TokenizerProps.QuotedPairAnyByte` | src/CsvReader.php:621-653 | `"v"b"w"` and its ending read as the two fields `v` and `w` for every byte `b` other than a quote and the first ending byte, the separator included. |
| `TokenizerProps.UnterminatedLine` | src/CsvReader.php:584-686 | A last unquoted line without an ending reads with the end-of-file flag set and the cursor at the end. A single empty closed field reads as an empty line. Otherwise the open field is added only when non-empty, and an empty rest is a failure. |
| `TokenizerProps.FinishOpen` | src/CsvReader.php:664-686 | The checks after the loop, on a state with closed fields and an open field: the single empty field first, then the non-empty open field, then the failure on no fields. |
| `TokenizerProps.TrailingSeparatorAtEnd` | src/CsvReader.php:675-681 | A last line ending in a separator, with no line ending, has no empty last field: its fields are the pieces before that separator. |
| `TokenizerProps.EmptyFirstFieldAtEnd` | src/CsvReader.php:664-673 | A last line without an ending whose only separator is its first byte reads as one empty field, a failure when empty lines are ignored; the text after the separator is lost. |
| `TokenizerProps.EscapedScan` | src/CsvReader.php:621-626 | Inside quotes, a field with its quotes doubled reads back as the field. |
| `TokenizerProps.QuotedRoundTrip` | src/CsvReader.php:584-662 | Fields written quoted with doubled quotes, joined by the separator and ended by the line ending read back as the same fields, repaired (and stripped), with the cursor after the line. |
| `TokenizerProps.ReadLineAtEnd` | src/CsvReader.php:684-686 | At the end of the stream no record is read and the end flag is set. |
| `TokenizerProps.GatherTerminated` | src/CsvReader.php:535-558 | A line followed by the ending is gathered without the ending, with the cursor after it. |
| `TokenizerProps.GatherLast` | src/CsvReader.php:535-558 | A last line without an ending is gathered to the end, with the end flag set. |
| `TokenizerProps.SliceCovers` | src/CsvReader.php:571-580 | With non-negative widths the fields, read together, are the characters up to the total width or the end of the line. |
| `TokenizerProps.SliceIndex` | src/CsvReader.php:571-580 | With non-negative widths, field `i` is the characters from the sum of the earlier widths, at most `plan[i]` of them; there is a field for every width whose start lies inside the line, and none after. |
| `TokenizerProps.FixedWidthRoundTrip` | src/CsvReader.php:571-580 | Columns of exactly the planned positive widths, written one after another, are cut back into the same columns. |
| `Delivery.PadSpec` | src/CsvReader.php:481-489 | The row vector has exactly `fieldsCount` entries: the field where one exists, the empty string after. |
| `Delivery.DeliverWindow` | src/CsvReader.php:470-494 | The delivered rows are the records after the skipped ones, as many as the limit allows. They are numbered by their position and padded, and the loop consumes the skipped and the delivered records. |
| `Delivery.DeliverFromStart` | src/CsvReader.php:470-494 | From the start, rows come from record `offset + 1` on, at most `limit` of them, each numbered and exactly `fieldsCount` wide. |
| `Datasets.DatasetLoopSpec` | src/CsvReader.php:467-494 | The dataset loop delivers `Deliver` over the records and ends at the read that follows the consumed ones. |
| `FormatPlan.LabelsOfSpec` | src/CsvReader.php:339-357 | Each label's column is the last one whose lower-cased text is that label, or -1. |
| `FormatPlan.LabelsOfColumns` | src/CsvReader.php:339-357 | The header loop equals a separate last-match search for each label. |
| `FormatPlan.NumbersAreNoHeader` | src/CsvReader.php:339-361 | A first row of numbers names no label, so it is a bare list. |
| `FormatPlan.EmptyFormatFails` | src/CsvReader.php:332-337 | A format whose first record has no fields sets nothing. |
| `FormatPlan.StartStopWidth` | src/CsvReader.php:385-395 | The corrected width of a `start`/`stop` row: the columns from start to stop, both counted, so `start + w - 1 == stop`. |
| `FormatPlan.StartStopWidthAsWritten` | src/CsvReader.php:394-395 | As written, the width is `1 - start` whatever `stop` says. The format loader model uses this width. |
| `FormatPlan.StartStopWidthDiscrepancy` | src/CsvReader.php:394-395 | The two differ whenever `stop` is not 0. For example, start 1 and stop 3 give 0 as written and 3 corrected. |
| `FormatPlan.RowEntrySpec` | src/CsvReader.php:366-401 | A row gives a width, and its trimmed name when names are wanted, exactly when the cells it needs exist and hold integers. |
| `FormatPlan.HeaderRowsSpec` | src/CsvReader.php:366-401 | The row loop succeeds exactly when every row is good, and then gives every row's width and name. |
| `FormatPlan.HeaderRowsAbort` | src/CsvReader.php:366-401 | A bad row aborts the loop whatever follows it. |
| `FormatPlan.WidthsIndex` | src/CsvReader.php:366-401 | The i-th width is the i-th row's width. |
| `FormatPlan.NamesIndex` | src/CsvReader.php:397-399 | With names wanted and a `fieldname` column, the i-th name is that row's trimmed cell. Otherwise there are no names. |
| `FormatPlan.LengthTakesPrecedence` | src/CsvReader.php:367-376 | With a `length` column each width is that column's integer, whatever `start` and `stop` say. A failure adds nothing. |
| `FormatPlan.StartStopWidths` | src/CsvReader.php:377-395 | With `start` and `stop` and no `length`, the loader succeeds exactly when every row is good, and each width is `1 - start` as the code computes it. |
| `FormatPlan.BareWidthsSpec` | src/CsvReader.php:412-423 | The bare loop keeps the values of the leading integer fields, and succeeds exactly when all are integers. |
| `FormatPlan.BareWidthsStop` | src/CsvReader.php:413-419 | The first non-integer field stops the loop, and the widths before it stay. |
| `FormatPlan.BareListIsPlan` | src/CsvReader.php:412-423 | A bare list succeeds exactly when every field is an integer, and sets the widths read and no names. |
| `FormatPlan.BareListRoundTrip` | src/CsvReader.php:412-425 | A line of rendered non-negative widths loads as exactly those widths. |

## Left out

- `loadFile` runs the `file` command on the file and matches its output
  against a regular expression. That yields the `withBOM` flag, which is a
  parameter here. The two exceptions for an unreadable or unrecognised
  file are not modelled (src/CsvReader.php:135-173).
- `fopen` failure and the error exceptions of `loadFile` and
  `loadFormatFile` are not modelled. A failed format parse is `ok == false`,
  with the state the exception would leave. `loadString`,
  `loadFormatString`, temporary files and the destructor are file-system
  work and are left out.
- The callback of `readDatasetsCallbackInternal`: its calls are returned
  as a list of rows, in order.
- `strip_tags` is a function the reader is given, not a model of HTML
  tag removal.
- `is_numeric` and `(int)` become optionally signed decimal integers. PHP
  also accepts surrounding whitespace, fractions and exponents. So
  `AppendBareWidths` and `FormatPlan.BareWidths` reject a bare width such
  as `" 5"`, which the source accepts.
- The options of the base class `BaseTableReader` (ignoring empty lines,
  first line as header) and its `__get` fallback are not part of this
  model. The options are constructor parameters, and the fallback is the
  value `FromParent`.
- Tokenizable: with a two-byte line ending, a stream whose last byte is the
  ending's first byte can make the record reader step back onto that byte
  forever. That happens when the byte is read outside quotes
  (src/CsvReader.php:592-602), right after a closing quote (636-645), or in
  fixed-width mode (537-547). The reading members require of the whole
  stream that its last byte is not that byte. So the precondition also
  excludes streams on which the source does end:
  - streams where that last byte falls inside an open quoted field, which
    appends it without a peek (620, 659);
  - streams whose reads stop before the last byte, such as a header read of
    `a` CRLF `b` CR.
- `CsvReaders.CsvReader.LoadFormat`: the format stream's final cursor and
  the local field count of the format file are not stated. No caller
  observes them.
- A missing cell in a format row makes `trim` raise a `TypeError` under
  strict types, so the model treats it as a failed parse.
- `mb_check_encoding`, `iconv` and `mb_substr` are modelled for UTF-8
  input and ISO-8859-1 repair only. No other encoding is modelled, and
  the byte order mark found is reported but never used, as in the source.
- `CsvReaders.CsvReader.LoadFileInternal` and
  `CsvReaders.CsvReader.LoadFile` state the field count with `CountLoop`.
  `Sniffing.CountLoopSpec` and `Sniffing.CountScanIsFirstLine` relate it
  to the count over the first line.

## Findings

| source | as written | input that shows it | evidently intended | confidence | as-written member | corrected member |
|---|---|---|---|---|---|---|
| src/CsvReader.php:394 | `$stopPosition = (int)$stopPosition;` converts the variable itself, which is still 0, instead of the `stop` cell it has just trimmed and checked. So the width is `1 - start`. | A format row with start 1 and stop 3 gives width 0. | Width `stop - start + 1`, here 3. | not executed | `FormatPlan.StartStopWidthAsWritten`, `FormatPlan.StartStopWidthDiscrepancy` | `FormatPlan.StartStopWidth` |
| src/CsvReader.php:118-124, 258-264 | The selection loop never raises `$maxValue` above 0, so every positive counter replaces the choice, and the last positive candidate wins. | A first line with two commas and one pipe, such as `,,` then a pipe, gives the pipe. | The most frequent candidate, here the comma. | not executed | `Sniffing.ChooseSeparatorAsWritten`, `Sniffing.SeparatorChoiceDiscrepancy`, `Sniffing.LineSeparatorDiscrepancy` | `Sniffing.ChooseSeparator`, `Sniffing.SeparatorOf` |

The reader model runs the code as written: the loading methods choose the
separator with `Sniffing.ChooseSeparatorAsWritten`, and the format loader
uses `FormatPlan.StartStopWidthAsWritten`. The corrected members state the
intended behaviour beside them. On the lines of
tests/CsvReaderTest.php:671-680 the two separator choices agree, so those
expectations do not tell them apart.
