/**
 * Reading one record, as values over the stream content `data` and a cursor.
 * Each function follows the byte-by-byte loop of the reader: `DelimitedStep`
 * is one turn of the delimited loop, `GatherLine` the line loop of the
 * fixed-width mode, `ReadRecord` one call of the per-record reader and
 * `ReadLine` its retry loop over lines that give no record. The class methods
 * in `CsvReaders` run the same loops on a `Streams.Stream` and are proved to
 * end where these functions say.
 */
module Tokenizer {
  import opened Bytes
  import opened Utf8

  /**
   * What a read depends on besides the stream: the separator, the line ending,
   * the fixed-width plan (empty for delimited input), whether an empty line is
   * skipped, and whether tags are stripped, with `strip` standing for `strip_tags`.
   */
  datatype Config = Config(
    sep: Byte,
    ending: Bytes,
    plan: seq<int>,
    ignoreEmpty: bool,
    stripTags: bool,
    strip: Bytes -> Bytes)

  /**
   * Inputs on which the reader's loops are sure to end. With a two-byte line
   * ending, a stream whose last byte is the ending's first byte can make the
   * reader read that byte, fail to read the second one, step back onto the
   * same byte, and start over, forever. This happens outside quotes, right
   * after a closing quote, and in fixed-width mode. The predicate excludes
   * every such stream. That includes streams on which the reader does end:
   * - the last byte lies inside an open quoted field, where it is appended
   *   without a peek;
   * - the reads stop before the last byte.
   */
  predicate Tokenizable(data: Bytes, ending: Bytes)
  {
    |ending| >= 2 && |data| > 0 ==> data[|data| - 1] != ending[0]
  }

  /** Bytes left to read from `pos`; the cursor may be past the end after a seek. */
  function Remaining(data: Bytes, pos: nat): nat
  {
    if pos <= |data| then |data| - pos else 0
  }

  /**
   * After reading the ending's first byte (at `p - 1`, the cursor now at `p`):
   * whether the line ends and where the cursor is left. A one-byte ending ends
   * the line; otherwise the next byte is read, and kept when it is the
   * ending's second byte. If it is not, the cursor steps back by one, which,
   * when the read failed at the end, is back onto the first byte.
   */
  function EndingAfterFirst(data: Bytes, ending: Bytes, p: nat): (r: (bool, nat))
    requires |ending| >= 1 && 0 < p <= |data| && data[p - 1] == ending[0]
    ensures r.0 <==> |ending| == 1 || (p < |data| && data[p] == ending[1])
    ensures r.1 <= |data|
    ensures Tokenizable(data, ending) ==> p <= r.1
    ensures r.0 ==> p <= r.1
  {
    if |ending| == 1 then (true, p)
    else if p < |data| && data[p] == ending[1] then (true, p + 1)
    else if p < |data| then (false, p)
    else (false, p - 1)
  }

  // ----------------------------------------------------------------- delimited

  /** The state of the delimited loop: cursor, raw current field, finished fields, inside quotes. */
  datatype Scan = Scan(pos: nat, field: Bytes, fields: seq<Bytes>, quoted: bool)

  /** One turn of the delimited loop: it goes on, or it stops with PHP's end-of-file flag. */
  datatype Step = Next(next: Scan) | Done(last: Scan, atEnd: bool)

  /** The current field closes: repaired, appended, and a new empty field begins. */
  function Close(s: Scan, pos: nat): Scan
  {
    Scan(pos, [], s.fields + [Repair(s.field)], false)
  }

  function DelimitedStep(cfg: Config, data: Bytes, s: Scan): (r: Step)
  {
    if s.pos >= |data| then Done(s, true)
    else
      var c := data[s.pos];
      var p := s.pos + 1;
      if !s.quoted then
        if |s.field| == 0 && c == QUOTE then Next(s.(pos := p, quoted := true))
        else
          var e := if |cfg.ending| > 0 && c == cfg.ending[0] then EndingAfterFirst(data, cfg.ending, p) else (false, p);
          if c == cfg.sep then Next(Close(s, e.1))
          else if e.0 then Done(Close(s, e.1), false)
          else Next(s.(pos := e.1, field := s.field + [c]))
      else if c != QUOTE then Next(s.(pos := p, field := s.field + [c]))
      else if p == |data| then Done(s.(pos := p), true)
      else if data[p] == QUOTE then Next(s.(pos := p + 1, field := s.field + [c]))
      else if |cfg.ending| > 0 && data[p] == cfg.ending[0] then
        var e := EndingAfterFirst(data, cfg.ending, p + 1);
        if e.0 then Done(Close(s, e.1), false) else Next(Close(s, e.1))
      else Next(Close(s, p + 1))
  }

  /**
   * A turn moves the cursor forward and never past the end; it goes on only
   * when a byte was read (with the one exception `Tokenizable` rules out),
   * and it stops without the end-of-file flag only after a line ending, with
   * the record's last field closed.
   */
  lemma DelimitedStepBounds(cfg: Config, data: Bytes, s: Scan)
    ensures var r := DelimitedStep(cfg, data, s);
      && (r.Done? && r.last.pos == s.pos ==> r == Done(s, true))
      && (r.Done? && !r.atEnd ==> s.pos < r.last.pos <= |data| && !r.last.quoted && r.last.field == [])
      && (r.Done? ==> s.pos <= r.last.pos)
      && (r.Next? && Tokenizable(data, cfg.ending) ==> s.pos < r.next.pos <= |data|)
      && (r.Next? ==> s.pos <= r.next.pos <= |data|)
      && (r.Done? && r.last.pos > |data| ==> r == Done(s, true))
  {
  }

  /** The delimited loop run to its end: the final state and the end-of-file flag. */
  function ScanDelimited(cfg: Config, data: Bytes, s: Scan): (r: (Scan, bool))
    requires Tokenizable(data, cfg.ending)
    decreases Remaining(data, s.pos)
  {
    DelimitedStepBounds(cfg, data, s);
    match DelimitedStep(cfg, data, s)
    case Done(t, e) => (t, e)
    case Next(t) => ScanDelimited(cfg, data, t)
  }

  /**
   * The loop never moves the cursor back nor past the end; a loop that
   * reads nothing ends at once with the end-of-file flag, and one that ends
   * without the flag stopped after a line ending with its last field closed.
   */
  lemma {:induction false} ScanDelimitedBounds(cfg: Config, data: Bytes, s: Scan)
    requires Tokenizable(data, cfg.ending)
    ensures var r := ScanDelimited(cfg, data, s);
      && s.pos <= r.0.pos
      && (r.0.pos == s.pos ==> r == (s, true))
      && (!r.1 ==> s.pos < r.0.pos <= |data| && !r.0.quoted && r.0.field == [])
      && (s.pos <= |data| ==> r.0.pos <= |data|)
    decreases Remaining(data, s.pos)
  {
    DelimitedStepBounds(cfg, data, s);
    match DelimitedStep(cfg, data, s)
    case Done(t, e) =>
    case Next(t) => ScanDelimitedBounds(cfg, data, t);
  }

  /** `strip_tags` on every field, when tag stripping is on. */
  function Stripped(cfg: Config, fields: seq<Bytes>): (r: seq<Bytes>)
    ensures |r| == |fields|
    ensures forall i :: 0 <= i < |r| ==> r[i] == if cfg.stripTags then cfg.strip(fields[i]) else fields[i]
  {
    if cfg.stripTags then seq(|fields|, i requires 0 <= i < |fields| => cfg.strip(fields[i])) else fields
  }

  /** The result of the per-record reader: success, the fields, the cursor, the end-of-file flag. */
  datatype ReadResult = ReadResult(ok: bool, fields: seq<Bytes>, pos: nat, atEnd: bool)

  /**
   * After the delimited loop: a single empty field is an empty line, a
   * failure when empty lines are ignored (checked before the unfinished field
   * is added); otherwise a non-empty unfinished field is added, and no field
   * at all is a failure.
   */
  function FinishDelimited(cfg: Config, t: Scan): (r: (bool, seq<Bytes>))
  {
    if |t.fields| == 1 && t.fields[0] == [] then (!cfg.ignoreEmpty, t.fields)
    else
      var fs := if t.field != [] then t.fields + [Repair(t.field)] else t.fields;
      if fs == [] then (false, fs) else (true, Stripped(cfg, fs))
  }

  function ReadDelimited(cfg: Config, data: Bytes, pos: nat): (r: ReadResult)
    requires Tokenizable(data, cfg.ending)
  {
    var (t, e) := ScanDelimited(cfg, data, Scan(pos, [], [], false));
    var (ok, fs) := FinishDelimited(cfg, t);
    ReadResult(ok, fs, t.pos, e)
  }

  // --------------------------------------------------------------- fixed width

  /**
   * The line loop of the fixed-width mode from `pos`, with the bytes gathered
   * so far in `line`: the bytes up to the line ending (excluded) or the end,
   * the cursor after them, and the end-of-file flag.
   */
  function GatherLine(cfg: Config, data: Bytes, pos: nat, line: Bytes): (r: (Bytes, nat, bool))
    requires Tokenizable(data, cfg.ending)
    ensures pos <= r.1
    ensures pos <= |data| ==> r.1 <= |data|
    ensures r.1 == pos ==> r == (line, pos, true)
    ensures !r.2 ==> pos < r.1
    ensures |r.0| >= |line| && r.0[..|line|] == line
    decreases Remaining(data, pos)
  {
    if pos >= |data| then (line, pos, true)
    else
      var c := data[pos];
      var e := if |cfg.ending| > 0 && c == cfg.ending[0] then EndingAfterFirst(data, cfg.ending, pos + 1) else (false, pos + 1);
      if e.0 then (line, e.1, false) else GatherLine(cfg, data, e.1, line + [c])
  }

  /**
   * The fields of a fixed-width line: for each width in turn, the `mb_substr`
   * of that width at the running start, until the start reaches the end of the line.
   */
  function SliceFields<T>(cs: seq<seq<T>>, plan: seq<int>, start: int): (r: seq<seq<T>>)
    ensures |r| <= |plan|
  {
    if plan == [] || start >= |cs| then []
    else [Flatten(Substr(cs, start, plan[0]))] + SliceFields(cs, plan[1..], start + plan[0])
  }

  function ReadFixed(cfg: Config, data: Bytes, pos: nat): (r: ReadResult)
    requires Tokenizable(data, cfg.ending)
  {
    var (line, q, e) := GatherLine(cfg, data, pos, []);
    if line == [] then ReadResult(false, [], q, e)
    else
      RepairSpec(line);
      var fs := SliceFields(Chars(Repair(line)), cfg.plan, 0);
      if fs == [] then ReadResult(false, fs, q, e) else ReadResult(true, Stripped(cfg, fs), q, e)
  }

  // ------------------------------------------------------------------ records

  /**
   * One call of the per-record reader from `pos`. A success consumed at least
   * one byte; a failure that is not at the end of the stream consumed at least one.
   */
  function ReadRecord(cfg: Config, data: Bytes, pos: nat): (r: ReadResult)
    requires Tokenizable(data, cfg.ending)
    ensures pos <= r.pos
    ensures pos <= |data| ==> r.pos <= |data|
    ensures r.ok ==> pos < r.pos && |r.fields| > 0
    ensures !r.atEnd ==> pos < r.pos
    ensures |data| <= pos ==> !r.ok && r.atEnd && r.pos == pos
  {
    ScanDelimitedBounds(cfg, data, Scan(pos, [], [], false));
    if |cfg.plan| > 0 then ReadFixed(cfg, data, pos) else ReadDelimited(cfg, data, pos)
  }

  /**
   * The retry loop around `ReadRecord`: reads again while the read failed and
   * the end-of-file flag is clear (an empty or skipped line).
   */
  function ReadLine(cfg: Config, data: Bytes, pos: nat): (r: ReadResult)
    requires Tokenizable(data, cfg.ending)
    ensures r.ok || r.atEnd
    ensures pos <= r.pos
    ensures pos <= |data| ==> r.pos <= |data|
    ensures r.ok ==> pos < r.pos && |r.fields| > 0
    ensures |data| <= pos ==> !r.ok && r.pos == pos
    decreases Remaining(data, pos)
  {
    var r := ReadRecord(cfg, data, pos);
    if !r.ok && !r.atEnd then ReadLine(cfg, data, r.pos) else r
  }

  /** The field lists of the successive successful `ReadLine` calls from `pos`. */
  function Records(cfg: Config, data: Bytes, pos: nat): (rs: seq<seq<Bytes>>)
    requires Tokenizable(data, cfg.ending)
    ensures forall i :: 0 <= i < |rs| ==> |rs[i]| > 0
    decreases Remaining(data, pos)
  {
    var r := ReadLine(cfg, data, pos);
    if r.ok then [r.fields] + Records(cfg, data, r.pos) else []
  }

  /** `Records` unfolded once: the first successful read, then the records after it. */
  lemma RecordsStep(cfg: Config, data: Bytes, pos: nat)
    requires Tokenizable(data, cfg.ending)
    ensures var r := ReadLine(cfg, data, pos);
      Records(cfg, data, pos) == if r.ok then [r.fields] + Records(cfg, data, r.pos) else []
  {
  }

  /**
   * The result of the call that follows the first `n` successful `ReadLine`
   * calls from `pos` (or of the first failing call, if that comes sooner).
   */
  function LastRead(cfg: Config, data: Bytes, pos: nat, n: nat): (q: ReadResult)
    requires Tokenizable(data, cfg.ending)
    ensures pos <= q.pos
    ensures pos <= |data| ==> q.pos <= |data|
    decreases Remaining(data, pos)
  {
    var r := ReadLine(cfg, data, pos);
    if r.ok && n > 0 then LastRead(cfg, data, r.pos, n - 1) else r
  }

  /** `LastRead` unfolded once. */
  lemma LastReadStep(cfg: Config, data: Bytes, pos: nat, n: nat)
    requires Tokenizable(data, cfg.ending)
    ensures var r := ReadLine(cfg, data, pos);
      LastRead(cfg, data, pos, n) == if r.ok && n > 0 then LastRead(cfg, data, r.pos, n - 1) else r
  {
  }

  /**
   * The field lists of the successive `ReadRecord` calls from `pos` until the
   * first one that fails (the loop of the format-file loader, which does not retry).
   */
  function RecordsUntilFailure(cfg: Config, data: Bytes, pos: nat): (rs: seq<seq<Bytes>>)
    requires Tokenizable(data, cfg.ending)
    decreases Remaining(data, pos)
  {
    var r := ReadRecord(cfg, data, pos);
    if r.ok then [r.fields] + RecordsUntilFailure(cfg, data, r.pos) else []
  }

  /** `RecordsUntilFailure` unfolded once. */
  lemma RecordsUntilFailureStep(cfg: Config, data: Bytes, pos: nat)
    requires Tokenizable(data, cfg.ending)
    ensures var r := ReadRecord(cfg, data, pos);
      RecordsUntilFailure(cfg, data, pos) == if r.ok then [r.fields] + RecordsUntilFailure(cfg, data, r.pos) else []
  {
  }
}
