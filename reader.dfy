/**
 * The reader object: a loaded stream with what loading detected (byte-order
 * mark, separator, line ending, field count), the fixed-width plan and the
 * header fields, and the loops that load, read records and deliver rows.
 * Every loop is proved to end in the state the value-level functions of
 * `Sniffing`, `Tokenizer`, `FormatPlan` and `Delivery` describe.
 */
module CsvReaders {
  import opened Bytes
  import opened Utf8
  import opened Wrappers
  import opened Streams
  import opened Sniffing
  import opened Tokenizer
  import opened FormatPlan
  import opened Delivery
  import opened Datasets

  /** A value read through the property getter; `FromParent` is a name the base class answers. */
  datatype Property =
    | StringValue(text: string)
    | BytesValue(bytes: Bytes)
    | IntValue(number: int)
    | IntListValue(numbers: seq<int>)
    | BoolValue(flag: bool)
    | FromParent(name: string)

  class CsvReader {
    /** The loaded stream, `null` before a load. */
    var stream: Stream?
    var bomLength: nat
    var bomEncoding: string
    /** Separator counters; they accumulate over every load of this reader. */
    var separators: Counters
    var separator: Byte
    var lineEnding: Bytes
    var fieldsCount: nat
    var fixedWidthFields: seq<int>
    var headerFields: seq<Bytes>
    var ignoreEmptyLines: bool
    var firstLineIsHeader: bool
    var stripTags: bool
    /** `strip_tags`. */
    const strip: Bytes -> Bytes

    ghost predicate Valid()
      reads this
    {
      HasCounters(separators)
    }

    /**
     * A fresh reader. The two options of the base class are given here; the
     * separator starts as `,`, the counters at 0 and the line ending empty.
     */
    constructor (ignoreEmpty: bool, firstIsHeader: bool, stripFunction: Bytes -> Bytes)
      ensures Valid()
      ensures stream == null && bomLength == 0 && bomEncoding == "" && separators == ZeroCounters
      ensures separator == COMMA && lineEnding == [] && fieldsCount == 0
      ensures fixedWidthFields == [] && headerFields == []
      ensures ignoreEmptyLines == ignoreEmpty && firstLineIsHeader == firstIsHeader && !stripTags
      ensures strip == stripFunction
    {
      stream := null;
      bomLength := 0;
      bomEncoding := "";
      separators := ZeroCounters;
      separator := COMMA;
      lineEnding := [];
      fieldsCount := 0;
      fixedWidthFields := [];
      headerFields := [];
      ignoreEmptyLines := ignoreEmpty;
      firstLineIsHeader := firstIsHeader;
      stripTags := false;
      strip := stripFunction;
    }

    /** What a read with separator `sep` and ending `ending` depends on in this reader. */
    function Cfg(sep: Byte, ending: Bytes): (cfg: Config)
      reads this`fixedWidthFields, this`ignoreEmptyLines, this`stripTags
      ensures cfg.sep == sep && cfg.ending == ending && cfg.plan == fixedWidthFields
      ensures cfg.ignoreEmpty == ignoreEmptyLines && cfg.stripTags == stripTags && cfg.strip == strip
    {
      Config(sep, ending, fixedWidthFields, ignoreEmptyLines, stripTags, strip)
    }

    /**
     * The property getter: each of the seven names reads its field (the
     * separator as a one-byte string, `IsLoaded` whether a stream is
     * loaded); every other name is answered by the base class.
     */
    function Get(name: string): (v: Property)
      reads this
      ensures name == "BOMEncoding" ==> v == StringValue(bomEncoding)
      ensures name == "BOMLength" ==> v == IntValue(bomLength)
      ensures name == "FixedWidthFields" ==> v == IntListValue(fixedWidthFields)
      ensures name == "IsLoaded" ==> v == BoolValue(stream != null)
      ensures name == "LineEnding" ==> v == BytesValue(lineEnding)
      ensures name == "Separator" ==> v == BytesValue([separator])
      ensures name == "StripTags" ==> v == BoolValue(stripTags)
      ensures v.FromParent? <==>
        name !in {"BOMEncoding", "BOMLength", "FixedWidthFields", "IsLoaded", "LineEnding", "Separator", "StripTags"}
    {
      match name
      case "BOMEncoding" => StringValue(bomEncoding)
      case "BOMLength" => IntValue(bomLength)
      case "FixedWidthFields" => IntListValue(fixedWidthFields)
      case "IsLoaded" => BoolValue(stream != null)
      case "LineEnding" => BytesValue(lineEnding)
      case "Separator" => BytesValue([separator])
      case "StripTags" => BoolValue(stripTags)
      case _ => FromParent(name)
    }

    /** Turns tag stripping on or off for the reads that follow; returns the reader itself. */
    method SetStripTags(b: bool) returns (self: CsvReader)
      modifies this`stripTags
      ensures self == this && stripTags == b
    {
      stripTags := b;
      self := this;
    }

    /**
     * The separator of a sample line: count the four candidates, then run
     * the selection loop (`ChooseFromCounters`), which keeps the last
     * candidate that occurs.
     */
    static method DetectSeparator(line: Bytes) returns (sep: Byte)
      ensures sep == SeparatorOfAsWritten(line)
    {
      sep := COMMA;
      var counts := ZeroCounters;
      var i := 0;
      while i < |line|
        invariant 0 <= i <= |line| && HasCounters(counts)
        invariant AddCounts(counts, line[i..]) == AddCounts(ZeroCounters, line)
      {
        var c := line[i];
        assert line[i..] == [c] + line[i + 1..];
        AddCountsCons(counts, c, line[i + 1..]);
        if IsCandidate(c) {
          counts := counts[c := counts[c] + 1];
        }
        i := i + 1;
      }
      var maxChar := ChooseFromCounters(counts);
      if maxChar != 0 {
        sep := maxChar;
      }
      LastPositiveChoice(counts, COMMA);
    }

    /**
     * The selection loop as written: the threshold `maxValue` stays 0, so
     * every key with a positive count replaces the choice, and the result is
     * the last such key, or the NUL sentinel when every count is 0.
     */
    static method ChooseFromCounters(m: Counters) returns (maxChar: Byte)
      requires HasCounters(m)
      ensures maxChar == LastPositive(m, 4)
    {
      maxChar := 0;
      var maxValue: nat := 0;
      var j := 0;
      while j < 4
        invariant 0 <= j <= 4 && maxChar == LastPositive(m, j)
      {
        var key := Candidates[j];
        if m[key] > maxValue {
          maxChar := key;
        }
        j := j + 1;
      }
    }

    /**
     * The load-time scans of a stream: the byte-order mark (when `withBOM`),
     * the line ending and the separator counts over the first line, the
     * separator choice, and the field count of the first line. The separator,
     * the field count and the line ending come in as `sep0`, `count0` and
     * `ending0` and go out updated; the stream is left at the end of the mark.
     */
    method LoadFileInternal(s: Stream, sep0: Byte, count0: nat, ending0: Bytes, withBOM: bool)
      returns (sep: Byte, count: nat, ending: Bytes)
      requires Valid()
      modifies this`bomLength, this`bomEncoding, this`separators, s
      ensures Valid()
      ensures s.pos == bomLength && !s.eof
      ensures withBOM ==> IsBomChoice(Head(s.data[Min(old(s.pos), |s.data|)..]), bomLength, bomEncoding)
      ensures !withBOM ==> bomLength == 0 && bomEncoding == old(bomEncoding)
      ensures var from := if withBOM then bomLength else old(s.pos);
        && ending == DetectEnding(ending0, s.data, from)
        && separators == AddCounts(old(separators), FirstLine(s.data, from))
      ensures sep == ChooseSeparatorAsWritten(separators, sep0)
      ensures count == count0 + 1 + CountLoop(s.data, bomLength, ending, sep)
    {
      bomLength := 0;
      ghost var from := s.pos;
      if withBOM {
        var head := ReadHead(s);
        BomTableShape();
        DetectBom(head, BomTable);
        s.Seek(bomLength);
        from := bomLength;
      }
      ending := DetectEndingLoop(s, ending0);
      s.Seek(bomLength);
      var maxChar := ChooseFromCounters(separators);
      sep := if maxChar != 0 then maxChar else sep0;
      LastPositiveChoice(separators, sep0);
      count := CountFields(s, sep, ending, count0 + 1);
      s.Seek(bomLength);
    }

    /**
     * Loading a file's contents: a fresh stream over `content`, then the
     * detection with the reader's separator, field count and line ending.
     * Whether the file carries a byte-order mark comes in as `withBOM`.
     */
    method LoadFile(content: Bytes, withBOM: bool)
      requires Valid()
      modifies this`stream, this`bomLength, this`bomEncoding, this`separators
      modifies this`separator, this`fieldsCount, this`lineEnding
      ensures Valid() && stream != null && fresh(stream)
      ensures stream.data == content && stream.pos == bomLength && !stream.eof
      ensures withBOM ==> IsBomChoice(Head(content), bomLength, bomEncoding)
      ensures !withBOM ==> bomLength == 0 && bomEncoding == old(bomEncoding)
      ensures var from := if withBOM then bomLength else 0;
        && lineEnding == DetectEnding(old(lineEnding), content, from)
        && separators == AddCounts(old(separators), FirstLine(content, from))
      ensures separator == ChooseSeparatorAsWritten(separators, old(separator))
      ensures fieldsCount == old(fieldsCount) + 1 + CountLoop(content, bomLength, lineEnding, separator)
    {
      var s := new Stream(content);
      assert content[Min(0, |content|)..] == content;
      var sep, count, ending := LoadFileInternal(s, separator, fieldsCount, lineEnding, withBOM);
      stream, separator, fieldsCount, lineEnding := s, sep, count, ending;
    }

    /**
     * The table loop: the longest entry of `table` that matches `head`, the
     * earliest among equally long ones.
     */
    method DetectBom(head: Bytes, table: seq<BomEntry>)
      requires |head| == 4 && bomLength == 0
      requires forall i :: 0 <= i < |table| ==> 0 < |table[i].bytes| <= 4
      modifies this`bomLength, this`bomEncoding
      ensures ChoiceAmong(table, head, |table|, bomLength, bomEncoding)
    {
      bomEncoding := "";
      var t := 0;
      while t < |table|
        invariant 0 <= t <= |table|
        invariant ChoiceAmong(table, head, t, bomLength, bomEncoding)
      {
        var entry := table[t];
        var allEqual := true;
        var k := 0;
        while k < |entry.bytes|
          invariant 0 <= k <= |entry.bytes|
          invariant allEqual && forall m :: 0 <= m < k ==> head[m] == entry.bytes[m]
        {
          if head[k] != entry.bytes[k] {
            allEqual := false;
            break;
          }
          k := k + 1;
        }
        assert allEqual <==> Matches(entry, head);
        ChoiceStep(table, head, t, bomLength, bomEncoding);
        if allEqual && |entry.bytes| > bomLength {
          bomLength := |entry.bytes|;
          bomEncoding := entry.name;
        }
        t := t + 1;
      }
    }

    /** Up to four bytes from the cursor; bytes missing at the end stay 0x00. */
    static method ReadHead(s: Stream) returns (head: Bytes)
      modifies s
      ensures head == Head(s.data[Min(old(s.pos), |s.data|)..])
    {
      ghost var p0 := s.pos;
      head := [0, 0, 0, 0];
      var i := 0;
      while i < 4
        invariant 0 <= i <= 4 && |head| == 4 && s.pos == p0 + i
        invariant i > 0 ==> p0 + i <= |s.data|
        invariant forall k :: 0 <= k < 4 ==> head[k] == if k < i then s.data[p0 + k] else 0
      {
        var c := s.Getc();
        if c.None? {
          break;
        }
        head := head[i := c.value];
        i := i + 1;
      }
      ghost var h := Head(s.data[Min(p0, |s.data|)..]);
      assert forall k :: 0 <= k < 4 ==> head[k] == h[k];
    }

    /**
     * The ending-detection loop from the cursor: counts the candidates up to
     * the first CR or LF, then writes that byte (and an LF after a CR) over
     * the start of `ending0`.
     */
    method DetectEndingLoop(s: Stream, ending0: Bytes) returns (ending: Bytes)
      requires Valid()
      modifies this`separators, s
      ensures Valid()
      ensures ending == DetectEnding(ending0, s.data, old(s.pos))
      ensures separators == AddCounts(old(separators), FirstLine(s.data, old(s.pos)))
    {
      ghost var from := s.pos;
      var found;
      separators, found := CountUpToBreak(s, separators);
      ending := ending0;
      if found.Some? {
        var b := found.value;
        ending := SetByte(ending, 0, b);
        if b != LF {
          var next := s.Getc();
          if next.Some? && next.value == LF {
            ending := SetByte(ending, 1, LF);
          }
        }
      }
    }

    /** The counting part of the ending-detection loop; it stops after the first CR or LF it reads. */
    static method CountUpToBreak(s: Stream, m: Counters) returns (counts: Counters, found: Option<Byte>)
      requires HasCounters(m)
      modifies s
      ensures counts == AddCounts(m, FirstLine(s.data, old(s.pos)))
      ensures old(s.pos) <= |s.data| ==> var k := FirstBreak(s.data, old(s.pos));
        && (found.Some? <==> k < |s.data|)
        && (found.Some? ==> found.value == s.data[k] && s.pos == k + 1)
      ensures old(s.pos) > |s.data| ==> found == None
    {
      ghost var from := s.pos;
      ghost var counted := AddCounts(m, FirstLine(s.data, from));
      counts := m;
      found := None;
      while true
        invariant HasCounters(counts)
        invariant AddCounts(counts, FirstLine(s.data, s.pos)) == counted
        invariant from <= |s.data| ==> from <= s.pos <= |s.data| && FirstBreak(s.data, s.pos) == FirstBreak(s.data, from)
        invariant from > |s.data| ==> s.pos == from
        decreases Remaining(s.data, s.pos)
      {
        ghost var p := s.pos;
        var c := s.Getc();
        if c.None? {
          break;
        }
        var b := c.value;
        assert p < |s.data| && b == s.data[p] && s.pos == p + 1;
        if IsBreak(b) {
          found := c;
          break;
        }
        FirstLineCons(counts, s.data, p);
        counts := Bump(counts, b);
      }
    }

    /**
     * The field-count loop from the cursor: one more field per separator byte,
     * stopping after the first byte equal to byte 0 of the ending.
     */
    static method CountFields(s: Stream, sep: Byte, ending: Bytes, count0: nat) returns (count: nat)
      modifies s
      ensures count == count0 + CountLoop(s.data, old(s.pos), ending, sep)
    {
      ghost var total := count0 + CountLoop(s.data, s.pos, ending, sep);
      count := count0;
      while true
        invariant count + CountLoop(s.data, s.pos, ending, sep) == total
        decreases Remaining(s.data, s.pos)
      {
        var c := s.Getc();
        if c.None? {
          break;
        }
        if c.value == sep {
          count := count + 1;
        }
        if |ending| > 0 && c.value == ending[0] {
          break;
        }
      }
    }

    /**
     * After reading the ending's first byte: with a two-byte ending
     * the next byte is read, and the cursor steps back by one unless it is the
     * ending's second byte.
     */
    static method EndingAfterFirstByte(s: Stream, ending: Bytes) returns (reached: bool)
      requires |ending| >= 1 && 0 < s.pos <= |s.data| && s.data[s.pos - 1] == ending[0] && !s.eof
      modifies s
      ensures (reached, s.pos) == EndingAfterFirst(s.data, ending, old(s.pos)) && !s.eof
    {
      if |ending| >= 2 {
        var next := s.Getc();
        reached := next.Some? && next.value == ending[1];
        if !reached {
          s.SeekBack();
        }
      } else {
        reached := true;
      }
    }

    /**
     * One turn of the delimited loop: reads a byte and updates the current
     * field, the finished fields and the quoting; `stop` says the loop ends.
     */
    static method DelimitedTurn(s: Stream, cfg: Config, field0: Bytes, fields0: seq<Bytes>, quoted0: bool)
      returns (field: Bytes, fields: seq<Bytes>, quoted: bool, stop: bool)
      modifies s
      ensures var r := DelimitedStep(cfg, s.data, Scan(old(s.pos), field0, fields0, quoted0));
        && (r.Next? <==> !stop)
        && (r.Next? ==> r.next == Scan(s.pos, field, fields, quoted) && !s.eof)
        && (r.Done? ==> r.last == Scan(s.pos, field, fields, quoted) && s.eof == r.atEnd)
    {
      field, fields, quoted, stop := field0, fields0, quoted0, false;
      var c := s.Getc();
      if c.None? {
        stop := true;
        return;
      }
      var ch := c.value;
      if |field| == 0 && ch == QUOTE && !quoted {
        quoted := true;
        return;
      }
      if !quoted {
        var reached := false;
        if |cfg.ending| > 0 && ch == cfg.ending[0] {
          reached := EndingAfterFirstByte(s, cfg.ending);
        }
        if ch == cfg.sep || reached {
          fields := fields + [Repair(field)];
          field := [];
          stop := ch != cfg.sep;
          return;
        }
      } else if ch == QUOTE {
        var next := s.Getc();
        if next.None? {
          stop := true;
          return;
        }
        if next.value == QUOTE {
          field := field + [ch];
          return;
        }
        fields := fields + [Repair(field)];
        field := [];
        quoted := false;
        if |cfg.ending| > 0 && next.value == cfg.ending[0] {
          stop := EndingAfterFirstByte(s, cfg.ending);
        }
        return;
      }
      field := field + [ch];
    }

    /** The delimited loop, turn by turn, from the cursor with an empty first field. */
    static method ScanDelimitedFields(s: Stream, cfg: Config) returns (field: Bytes, fields: seq<Bytes>, quoted: bool)
      requires Tokenizable(s.data, cfg.ending)
      modifies s
      ensures (Scan(s.pos, field, fields, quoted), s.eof) == ScanDelimited(cfg, s.data, Scan(old(s.pos), [], [], false))
    {
      ghost var final := ScanDelimited(cfg, s.data, Scan(s.pos, [], [], false));
      field, fields, quoted := [], [], false;
      while true
        invariant ScanDelimited(cfg, s.data, Scan(s.pos, field, fields, quoted)) == final
        decreases Remaining(s.data, s.pos)
      {
        ghost var before := Scan(s.pos, field, fields, quoted);
        DelimitedStepBounds(cfg, s.data, before);
        var stop;
        field, fields, quoted, stop := DelimitedTurn(s, cfg, field, fields, quoted);
        if stop {
          break;
        }
      }
    }

    /** The line loop of the fixed-width mode: the bytes up to the line ending or the end. */
    static method GatherFixedLine(s: Stream, cfg: Config) returns (line: Bytes)
      requires Tokenizable(s.data, cfg.ending)
      modifies s
      ensures (line, s.pos, s.eof) == GatherLine(cfg, s.data, old(s.pos), [])
    {
      ghost var target := GatherLine(cfg, s.data, s.pos, []);
      line := [];
      while true
        invariant GatherLine(cfg, s.data, s.pos, line) == target
        decreases Remaining(s.data, s.pos)
      {
        ghost var p := s.pos;
        var c := s.Getc();
        if c.None? {
          break;
        }
        var reached := false;
        if |cfg.ending| > 0 && c.value == cfg.ending[0] {
          reached := EndingAfterFirstByte(s, cfg.ending);
        }
        if reached {
          break;
        }
        line := line + [c.value];
      }
    }

    /**
     * The slicing loop of the fixed-width mode over the characters `cs` of a
     * line: one `mb_substr` per width, until the start reaches the end.
     */
    static method SliceLine(cs: seq<Bytes>, plan: seq<int>) returns (fields: seq<Bytes>)
      ensures fields == SliceFields(cs, plan, 0)
    {
      fields := [];
      var start := 0;
      var widths := plan;
      while widths != []
        invariant fields + SliceFields(cs, widths, start) == SliceFields(cs, plan, 0)
      {
        if start >= |cs| {
          break;
        }
        var field := Flatten(Substr(cs, start, widths[0]));
        ghost var rest := SliceFields(cs, widths[1..], start + widths[0]);
        assert SliceFields(cs, widths, start) == [field] + rest;
        assert fields + [field] + rest == fields + ([field] + rest);
        fields := fields + [field];
        start := start + widths[0];
        widths := widths[1..];
      }
    }

    /** The tag-stripping loop: `strip` applied to every field in place. */
    static method StripLoop(strip: Bytes -> Bytes, fs: seq<Bytes>) returns (r: seq<Bytes>)
      ensures |r| == |fs| && forall k :: 0 <= k < |fs| ==> r[k] == strip(fs[k])
    {
      r := fs;
      var i := 0;
      while i < |r|
        invariant 0 <= i <= |r| == |fs|
        invariant forall k :: 0 <= k < |fs| ==> r[k] == if k < i then strip(fs[k]) else fs[k]
      {
        r := r[i := strip(r[i])];
        i := i + 1;
      }
    }

    /**
     * One record from the cursor, with separator `sep` and line ending
     * `ending`: fixed-width when a plan is loaded, delimited otherwise. The
     * result, the cursor and the end-of-file flag are those of `ReadRecord`.
     */
    method ReadNextLineInternal(s: Stream, sep: Byte, ending: Bytes) returns (ok: bool, fields: seq<Bytes>)
      requires Tokenizable(s.data, ending)
      modifies s
      ensures ReadResult(ok, fields, s.pos, s.eof) == ReadRecord(Cfg(sep, ending), s.data, old(s.pos))
    {
      var cfg := Cfg(sep, ending);
      ghost var p0 := s.pos;
      fields := [];
      if |fixedWidthFields| > 0 {
        assert ReadRecord(cfg, s.data, p0) == ReadFixed(cfg, s.data, p0);
        var line := GatherFixedLine(s, cfg);
        if line == [] {
          ok := false;
          return;
        }
        RepairSpec(line);
        line := Repair(line);
        fields := SliceLine(Chars(line), fixedWidthFields);
      } else {
        assert ReadRecord(cfg, s.data, p0) == ReadDelimited(cfg, s.data, p0);
        var field, quoted;
        field, fields, quoted := ScanDelimitedFields(s, cfg);
        if |fields| == 1 && fields[0] == [] {
          ok := !ignoreEmptyLines;
          return;
        }
        if field != [] {
          fields := fields + [Repair(field)];
        }
      }
      if |fields| == 0 {
        ok := false;
        return;
      }
      if stripTags {
        fields := StripLoop(strip, fields);
      }
      ok := true;
    }

    /**
     * The next record of the loaded stream: reads again while a read fails
     * without reaching the end (an empty or skipped line). Without a loaded
     * stream nothing is read.
     */
    method ReadNextLine() returns (ok: bool, fields: seq<Bytes>)
      requires stream != null ==> Tokenizable(stream.data, lineEnding)
      modifies stream
      ensures stream == null ==> !ok && fields == []
      ensures stream != null ==>
        ReadResult(ok, fields, stream.pos, stream.eof) == ReadLine(Cfg(separator, lineEnding), stream.data, old(stream.pos))
    {
      ok, fields := false, [];
      if stream == null {
        return;
      }
      var s := stream;
      ghost var target := ReadLine(Cfg(separator, lineEnding), s.data, s.pos);
      ok, fields := ReadNextLineInternal(s, separator, lineEnding);
      while !ok && !s.eof
        invariant target == if !ok && !s.eof then ReadLine(Cfg(separator, lineEnding), s.data, s.pos)
          else ReadResult(ok, fields, s.pos, s.eof)
        invariant !s.eof ==> s.pos <= |s.data|
        decreases if !ok && !s.eof then Remaining(s.data, s.pos) + 1 else 0
      {
        ok, fields := ReadNextLineInternal(s, separator, lineEnding);
      }
    }

    /** Reads the next record and keeps it as the header fields when there is one. */
    method ReadHeaderFields()
      requires stream != null ==> Tokenizable(stream.data, lineEnding)
      modifies this`headerFields, stream
      ensures stream == null ==> headerFields == old(headerFields)
      ensures stream != null ==> var r := ReadLine(Cfg(separator, lineEnding), stream.data, old(stream.pos));
        && stream.pos == r.pos && stream.eof == r.atEnd
        && headerFields == if r.ok then r.fields else old(headerFields)
    {
      var ok, fields := ReadNextLine();
      if ok {
        headerFields := fields;
      }
    }

    /** The row-vector loop: one entry per column, the field when there is one, "" otherwise. */
    static method PadRow(fields: seq<Bytes>, width: nat) returns (row: seq<Bytes>)
      ensures row == Pad(fields, width)
    {
      row := [];
      var i := 0;
      while i < width
        invariant 0 <= i <= width && |row| == i
        invariant forall k :: 0 <= k < i ==> row[k] == if k < |fields| then fields[k] else []
      {
        if |fields| < i + 1 {
          row := row + [[]];
        } else {
          row := row + [fields[i]];
        }
        i := i + 1;
      }
      PadSpec(fields, width);
    }

    /**
     * The dataset loop. From the end of the mark, the header line is read
     * first when the first line is a header (into the header fields when none
     * are set, discarded otherwise); the records after it are then handed out
     * as `Deliver` says, and `rows` lists the callback invocations in order.
     * The stream is left after the last record read.
     */
    method ReadDatasetsCallback(limit: int, offset: int) returns (count: nat, rows: seq<Row>)
      requires stream != null ==> Tokenizable(stream.data, lineEnding)
      modifies this`headerFields, stream
      ensures stream == null ==> count == 0 && rows == [] && headerFields == old(headerFields)
      ensures stream != null ==>
        var cfg := Cfg(separator, lineEnding);
        var h := ReadLine(cfg, stream.data, bomLength);
        var from := if firstLineIsHeader then h.pos else bomLength;
        var recs := Records(cfg, stream.data, from);
        var last := LastRead(cfg, stream.data, from, Consumed(recs, limit, offset, 0, 0));
        && rows == Deliver(recs, limit, offset, fieldsCount, 0, 0)
        && count == |rows|
        && headerFields == (if firstLineIsHeader && |old(headerFields)| == 0 && h.ok then h.fields else old(headerFields))
        && stream.pos == last.pos && stream.eof == last.atEnd
    {
      count, rows := 0, [];
      if stream == null {
        return;
      }
      var s := stream;
      s.Seek(bomLength);
      if firstLineIsHeader {
        if |headerFields| == 0 {
          ReadHeaderFields();
        } else {
          var _, _ := ReadNextLine();
        }
      }
      DatasetLoopSpec(Cfg(separator, lineEnding), s.data, s.pos, limit, offset, fieldsCount, 0, 0);
      count, rows := DeliverLoop(s, limit, offset);
    }

    /** The loop of the dataset loop over the records from the cursor. */
    method DeliverLoop(s: Stream, limit: int, offset: int) returns (count: nat, rows: seq<Row>)
      requires stream == s && Tokenizable(s.data, lineEnding)
      modifies s
      ensures var o := DatasetLoop(Cfg(separator, lineEnding), s.data, old(s.pos), limit, offset, fieldsCount, 0, 0);
        rows == o.rows && count == |rows| && s.pos == o.last.pos && s.eof == o.last.atEnd
    {
      ghost var cfg := Cfg(separator, lineEnding);
      ghost var total := DatasetLoop(cfg, s.data, s.pos, limit, offset, fieldsCount, 0, 0);
      ghost var pending := total;
      count, rows := 0, [];
      var counter: nat := 0;
      EmptyPrefix(total.rows);
      while true
        invariant count == |rows|
        invariant pending == DatasetLoop(cfg, s.data, s.pos, limit, offset, fieldsCount, counter, count)
        invariant rows + pending.rows == total.rows && pending.last == total.last
        decreases Remaining(s.data, s.pos)
      {
        ghost var before := s.pos;
        ghost var c0 := counter;
        var stop, row;
        stop, counter, row := DeliverTurn(s, limit, offset, counter, count);
        DatasetLoopStep(cfg, s.data, before, limit, offset, fieldsCount, c0, count, ReadLine(cfg, s.data, before));
        if stop {
          EmptySuffix(rows);
          break;
        }
        if row.None? {
          pending := DatasetLoop(cfg, s.data, s.pos, limit, offset, fieldsCount, counter, count);
          continue;
        }
        pending := DatasetLoop(cfg, s.data, s.pos, limit, offset, fieldsCount, counter, count + 1);
        Regroup(rows, [row.value], pending.rows);
        rows := rows + [row.value];
        count := count + 1;
      }
    }

    /**
     * One turn of the dataset loop: read a record; stop when there is none or
     * the limit is reached; otherwise count it, and give its row unless it is
     * skipped.
     */
    method DeliverTurn(s: Stream, limit: int, offset: int, counter0: nat, count: nat)
      returns (stop: bool, counter: nat, row: Option<Row>)
      requires stream == s && Tokenizable(s.data, lineEnding)
      modifies s
      ensures var r := ReadLine(Cfg(separator, lineEnding), s.data, old(s.pos));
        && s.pos == r.pos && s.eof == r.atEnd
        && (stop <==> !r.ok || (limit >= 0 && count >= limit))
        && (!stop ==> counter == counter0 + 1)
        && (!stop ==> (row.None? <==> offset >= 0 && counter0 < offset))
        && (!stop && row.Some? ==> row.value == Row(Pad(r.fields, fieldsCount), counter))
    {
      counter, row := counter0, None;
      var ok, fields := ReadNextLine();
      stop := !ok || (limit >= 0 && count >= limit);
      if stop {
        return;
      }
      counter := counter + 1;
      if offset >= 0 && counter - 1 < offset {
        return;
      }
      var padded := PadRow(fields, fieldsCount);
      row := Some(Row(padded, counter));
    }

    /**
     * Loading a format file: detection on a fresh stream over `content` with
     * separator `,`, a field count of 0 and no line ending; then the first
     * record decides between a header of labels followed by one width row
     * per field, and a bare list of widths. On success the widths (and, when
     * `detect` is set and there is a `fieldname` column, the names) are
     * appended to the plan and the header fields, and the field count becomes
     * the number of planned widths; a failure is the loader's exception.
     */
    method LoadFormat(content: Bytes, detect: bool) returns (ok: bool)
      requires Valid()
      requires Tokenizable(content, DetectEnding([], content, 0))
      modifies this`bomLength, this`bomEncoding, this`separators
      modifies this`fixedWidthFields, this`headerFields, this`fieldsCount
      ensures Valid()
      ensures bomLength == 0 && bomEncoding == old(bomEncoding)
      ensures separators == AddCounts(old(separators), FirstLine(content, 0))
      ensures var cfg := Config(ChooseSeparatorAsWritten(separators, COMMA), DetectEnding([], content, 0),
          old(fixedWidthFields), ignoreEmptyLines, stripTags, strip);
        var first := ReadRecord(cfg, content, 0);
        var plan := PlanOf(first.fields, RecordsUntilFailure(cfg, content, first.pos), detect);
        && ok == plan.ok
        && fixedWidthFields == old(fixedWidthFields) + plan.widths
        && headerFields == old(headerFields) + plan.names
        && fieldsCount == if ok then |fixedWidthFields| else old(fieldsCount)
    {
      var s := new Stream(content);
      var sep, _, ending := LoadFileInternal(s, COMMA, 0, [], false);
      ghost var cfg := Cfg(sep, ending);
      var _, first := ReadNextLineInternal(s, sep, ending);
      ghost var rows := RecordsUntilFailure(cfg, content, s.pos);
      ok := ApplyFormat(s, sep, ending, first, detect);
      assert PlanOf(first, rows, detect).ok == ok;
    }

    /**
     * The part of the format loader after the first record `first`: the
     * labels, then the width rows read from `s` or the bare list.
     */
    method ApplyFormat(s: Stream, sep: Byte, ending: Bytes, first: seq<Bytes>, detect: bool) returns (ok: bool)
      requires Tokenizable(s.data, ending)
      modifies s, this`fixedWidthFields, this`headerFields, this`fieldsCount
      ensures var cfg := Config(sep, ending, old(fixedWidthFields), ignoreEmptyLines, stripTags, strip);
        var plan := PlanOf(first, RecordsUntilFailure(cfg, s.data, old(s.pos)), detect);
        && ok == plan.ok
        && fixedWidthFields == old(fixedWidthFields) + plan.widths
        && headerFields == old(headerFields) + plan.names
        && fieldsCount == if ok then |fixedWidthFields| else old(fieldsCount)
    {
      if |first| == 0 {
        return false;
      }
      var l := ScanLabels(first);
      if IsHeader(l) {
        ok := ApplyHeader(s, sep, ending, l, detect);
      } else {
        ok := AppendBareWidths(first);
      }
      if ok {
        fieldsCount := |fixedWidthFields|;
      }
    }

    /**
     * The header branch: the width rows, then their widths appended to the
     * plan and, when names are collected, their names to the header fields.
     */
    method ApplyHeader(s: Stream, sep: Byte, ending: Bytes, l: Labels, detect: bool) returns (ok: bool)
      requires Tokenizable(s.data, ending)
      modifies s, this`fixedWidthFields, this`headerFields
      ensures var cfg := Config(sep, ending, old(fixedWidthFields), ignoreEmptyLines, stripTags, strip);
        var h := HeaderRows(l, RecordsUntilFailure(cfg, s.data, old(s.pos)), detect);
        && ok == h.Some?
        && fixedWidthFields == old(fixedWidthFields) + (if ok then h.value.0 else [])
        && headerFields == old(headerFields) + (if ok then h.value.1 else [])
    {
      ghost var rows := RecordsUntilFailure(Cfg(sep, ending), s.data, s.pos);
      var widths, names;
      ok, widths, names := ReadWidthRows(s, sep, ending, l, detect);
      if !ok {
        EmptySuffix(fixedWidthFields);
        EmptySuffix(headerFields);
        return;
      }
      AppendWidths(widths);
      if detect && l.name >= 0 {
        AppendNames(names);
      } else {
        HeaderRowsSpec(l, rows, detect);
        NamesIndex(l, rows, detect);
        EmptySuffix(headerFields);
      }
    }

    /** The label loop over the first record: the last column of each label. */
    static method ScanLabels(fields: seq<Bytes>) returns (l: Labels)
      ensures l == LabelsOf(fields)
    {
      l := NoLabels;
      var i := 0;
      while i < |fields|
        invariant 0 <= i <= |fields|
        invariant l == LabelsOf(fields[..i])
      {
        assert fields[..i + 1][..i] == fields[..i];
        l := Note(l, i, Lower(fields[i]));
        i := i + 1;
      }
      assert fields[..|fields|] == fields;
    }

    /**
     * The row loop under a header, reading records until a read fails: the
     * widths and names of all rows, or failure at the first bad row.
     */
    method ReadWidthRows(s: Stream, sep: Byte, ending: Bytes, l: Labels, detect: bool)
      returns (ok: bool, widths: seq<int>, names: seq<Bytes>)
      requires Tokenizable(s.data, ending)
      modifies s
      ensures var h := HeaderRows(l, RecordsUntilFailure(Cfg(sep, ending), s.data, old(s.pos)), detect);
        ok == h.Some? && (ok ==> h.value == (widths, names))
    {
      ghost var cfg := Cfg(sep, ending);
      ghost var all := RecordsUntilFailure(cfg, s.data, s.pos);
      ghost var done: seq<seq<Bytes>> := [];
      widths, names := [], [];
      EmptyPrefix(all);
      while true
        invariant HeaderRows(l, done, detect) == Some((widths, names))
        invariant done + RecordsUntilFailure(cfg, s.data, s.pos) == all
        decreases Remaining(s.data, s.pos)
      {
        ghost var before := s.pos;
        var read, row := ReadNextLineInternal(s, sep, ending);
        RecordsUntilFailureStep(cfg, s.data, before);
        if !read {
          EmptySuffix(done);
          return true, widths, names;
        }
        HeaderRowsSnoc(l, done, row, detect);
        Regroup(done, [row], RecordsUntilFailure(cfg, s.data, s.pos));
        var entry := RowEntry(l, row, detect);
        if entry.None? {
          HeaderRowsAbort(l, done + [row], RecordsUntilFailure(cfg, s.data, s.pos), detect);
          return false, widths, names;
        }
        widths, names := widths + [entry.value.0], names + entry.value.1;
        done := done + [row];
      }
    }

    /** Appends the widths to the plan, one by one. */
    method AppendWidths(widths: seq<int>)
      modifies this`fixedWidthFields
      ensures fixedWidthFields == old(fixedWidthFields) + widths
    {
      var i := 0;
      while i < |widths|
        invariant 0 <= i <= |widths|
        invariant fixedWidthFields == old(fixedWidthFields) + widths[..i]
      {
        assert widths[..i + 1] == widths[..i] + [widths[i]];
        fixedWidthFields := fixedWidthFields + [widths[i]];
        i := i + 1;
      }
      assert widths[..|widths|] == widths;
    }

    /** Appends the names to the header fields, one by one. */
    method AppendNames(names: seq<Bytes>)
      modifies this`headerFields
      ensures headerFields == old(headerFields) + names
    {
      var i := 0;
      while i < |names|
        invariant 0 <= i <= |names|
        invariant headerFields == old(headerFields) + names[..i]
      {
        assert names[..i + 1] == names[..i] + [names[i]];
        headerFields := headerFields + [names[i]];
        i := i + 1;
      }
      assert names[..|names|] == names;
    }

    /**
     * The bare-list loop: appends each field's value to the plan as it goes,
     * and fails at the first field that is not an integer.
     */
    method AppendBareWidths(fields: seq<Bytes>) returns (ok: bool)
      modifies this`fixedWidthFields
      ensures ok == BareWidths(fields).1
      ensures fixedWidthFields == old(fixedWidthFields) + BareWidths(fields).0
    {
      ghost var widths: seq<int> := [];
      assert fields[..0] == [];
      EmptySuffix(fixedWidthFields);
      var i := 0;
      while i < |fields|
        invariant 0 <= i <= |fields|
        invariant forall j :: 0 <= j < i ==> IsInteger(fields[j])
        invariant BareWidths(fields[..i]) == (widths, true)
        invariant fixedWidthFields == old(fixedWidthFields) + widths
      {
        if !IsInteger(fields[i]) {
          BareWidthsStop(fields, i);
          return false;
        }
        assert fields[..i + 1][..i] == fields[..i];
        Regroup(old(fixedWidthFields), widths, [ToInt(fields[i])]);
        fixedWidthFields := fixedWidthFields + [ToInt(fields[i])];
        widths := widths + [ToInt(fields[i])];
        i := i + 1;
      }
      assert fields[..|fields|] == fields;
      ok := true;
    }
  }
}
