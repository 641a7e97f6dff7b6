/**
 * The fixed-width plan a format file describes, as values over the records
 * the tokenizer reads from it. The first record either names its columns
 * (`length`, `start`, `stop`, `fieldname`, in any letter case) and the
 * following records hold one width each, or it is itself the list of widths.
 * `CsvReaders.CsvReader.LoadFormat` runs the same loops over a stream.
 */
module FormatPlan {
  import opened Bytes
  import opened Wrappers

  /** A string of ASCII characters as its bytes. */
  function Ascii(s: string): (r: Bytes)
    requires forall i :: 0 <= i < |s| ==> s[i] as int < 128
    ensures |r| == |s| && forall i :: 0 <= i < |s| ==> r[i] == s[i] as int
  {
    seq(|s|, i requires 0 <= i < |s| => s[i] as int)
  }

  const LENGTH: Bytes := Ascii("length")
  const START: Bytes := Ascii("start")
  const STOP: Bytes := Ascii("stop")
  const FIELDNAME: Bytes := Ascii("fieldname")

  // -------------------------------------------------------------- header row

  /** The column of each recognised label in the first record, -1 for a label it lacks. */
  datatype Labels = Labels(length: int, start: int, stop: int, name: int)

  const NoLabels: Labels := Labels(-1, -1, -1, -1)

  /** The header loop's turn for field `i`, already lower-cased. */
  function Note(l: Labels, i: int, f: Bytes): Labels
  {
    if f == LENGTH then l.(length := i)
    else if f == START then l.(start := i)
    else if f == STOP then l.(stop := i)
    else if f == FIELDNAME then l.(name := i)
    else l
  }

  /** The header loop run over `fs`. */
  function LabelsOf(fs: seq<Bytes>): Labels
  {
    if fs == [] then NoLabels else Note(LabelsOf(fs[..|fs| - 1]), |fs| - 1, Lower(fs[|fs| - 1]))
  }

  /** The last column of `fs` whose lower-cased text is `tag`, -1 when there is none. */
  function LastColumn(fs: seq<Bytes>, tag: Bytes): int
  {
    if fs == [] then -1
    else if Lower(fs[|fs| - 1]) == tag then |fs| - 1
    else LastColumn(fs[..|fs| - 1], tag)
  }

  /** `k` is the last column of `fs` whose lower-cased text is `tag`, or -1 when there is none. */
  predicate IsLastColumn(fs: seq<Bytes>, tag: Bytes, k: int)
  {
    || (k == -1 && forall i :: 0 <= i < |fs| ==> Lower(fs[i]) != tag)
    || (0 <= k < |fs| && Lower(fs[k]) == tag && forall i :: k < i < |fs| ==> Lower(fs[i]) != tag)
  }

  lemma {:induction false} LastColumnSpec(fs: seq<Bytes>, tag: Bytes)
    ensures IsLastColumn(fs, tag, LastColumn(fs, tag))
  {
    if fs != [] && Lower(fs[|fs| - 1]) != tag {
      var init := fs[..|fs| - 1];
      LastColumnSpec(init, tag);
      assert forall i :: 0 <= i < |init| ==> init[i] == fs[i];
    }
  }

  lemma LabelsDistinct()
    ensures LENGTH != START && LENGTH != STOP && LENGTH != FIELDNAME
    ensures START != STOP && START != FIELDNAME && STOP != FIELDNAME
  {
    assert LENGTH[0] != START[0] && LENGTH[0] != STOP[0] && LENGTH[0] != FIELDNAME[0];
    assert |START| != |STOP| && START[0] != FIELDNAME[0] && STOP[0] != FIELDNAME[0];
  }

  /** The header loop keeps, for each label, the last column holding it. */
  lemma {:induction false} LabelsOfColumns(fs: seq<Bytes>)
    ensures LabelsOf(fs) == Labels(LastColumn(fs, LENGTH), LastColumn(fs, START),
      LastColumn(fs, STOP), LastColumn(fs, FIELDNAME))
  {
    if fs != [] {
      LabelsOfColumns(fs[..|fs| - 1]);
      LabelsDistinct();
    }
  }

  /**
   * Each label is found at its last occurrence, compared without regard to
   * ASCII letter case; a later column with the same label wins.
   */
  lemma LabelsOfSpec(fs: seq<Bytes>)
    ensures var l := LabelsOf(fs);
      && IsLastColumn(fs, LENGTH, l.length) && IsLastColumn(fs, START, l.start)
      && IsLastColumn(fs, STOP, l.stop) && IsLastColumn(fs, FIELDNAME, l.name)
  {
    LabelsOfColumns(fs);
    LastColumnSpec(fs, LENGTH);
    LastColumnSpec(fs, START);
    LastColumnSpec(fs, STOP);
    LastColumnSpec(fs, FIELDNAME);
  }

  /** Whether the first record is a header: it has a `length` column, or both `start` and `stop`. */
  predicate IsHeader(l: Labels)
  {
    l.length >= 0 || (l.start >= 0 && l.stop >= 0)
  }

  // -------------------------------------------------------------- width rows

  /** A width cell: trimmed, and an integer in this model's numeric syntax. */
  predicate IsWidthCell(row: seq<Bytes>, k: int)
  {
    0 <= k < |row| && IsInteger(Trim(row[k]))
  }

  function CellValue(row: seq<Bytes>, k: int): int
    requires IsWidthCell(row, k)
  {
    ToInt(Trim(row[k]))
  }

  /**
   * The width a `start`/`stop` row evidently stands for (the corrected
   * computation): the columns from `start` to `stop`, both counted.
   */
  function StartStopWidth(start: int, stop: int): (w: int)
    ensures start + w - 1 == stop
  {
    stop - (start - 1)
  }

  /**
   * The width the loader computes from a `start`/`stop` row as written: the
   * stop value is read and checked but the variable that is cast is the
   * previous stop position, which is never set and stays 0. The loader
   * model uses this width.
   */
  function StartStopWidthAsWritten(start: int, stop: int): (w: int)
    ensures w == 1 - start
  {
    var stopPosition := 0;
    stopPosition - (start - 1)
  }

  /**
   * A row with start 1 and stop 3 gets width 0 instead of 3; the two
   * computations differ whenever the stop value is not 0.
   */
  lemma StartStopWidthDiscrepancy()
    ensures StartStopWidthAsWritten(1, 3) == 0
    ensures StartStopWidth(1, 3) == 3
    ensures forall start, stop :: stop != 0 ==> StartStopWidthAsWritten(start, stop) != StartStopWidth(start, stop)
  {
  }

  /** A row's field name, when names are collected: the `fieldname` cell, trimmed. */
  function NameOf(l: Labels, row: seq<Bytes>, detect: bool, w: int): (r: Option<(int, seq<Bytes>)>)
  {
    if detect && l.name >= 0 then
      if l.name < |row| then Some((w, [Trim(row[l.name])])) else None
    else Some((w, []))
  }

  /**
   * One width row under a header: its width and the names it adds (none or
   * one), or `None` when a cell it needs is missing or not an integer.
   */
  function RowEntry(l: Labels, row: seq<Bytes>, detect: bool): (r: Option<(int, seq<Bytes>)>)
  {
    if l.length >= 0 then
      if IsWidthCell(row, l.length) then NameOf(l, row, detect, CellValue(row, l.length)) else None
    else if !IsWidthCell(row, l.start) || !IsWidthCell(row, l.stop) then None
    else NameOf(l, row, detect, StartStopWidthAsWritten(CellValue(row, l.start), CellValue(row, l.stop)))
  }

  /** The row loop over `rows`: the widths and names of all rows, or `None` at the first bad row. */
  function HeaderRows(l: Labels, rows: seq<seq<Bytes>>, detect: bool): (r: Option<(seq<int>, seq<Bytes>)>)
  {
    if rows == [] then Some(([], []))
    else
      match HeaderRows(l, rows[..|rows| - 1], detect)
      case None => None
      case Some((ws, ns)) =>
        match RowEntry(l, rows[|rows| - 1], detect)
        case None => None
        case Some((w, n)) => Some((ws + [w], ns + n))
  }

  /** A row more: the loop's result so far followed by that row's turn. */
  lemma HeaderRowsSnoc(l: Labels, rows: seq<seq<Bytes>>, row: seq<Bytes>, detect: bool)
    ensures HeaderRows(l, rows + [row], detect) ==
      match HeaderRows(l, rows, detect)
      case None => None
      case Some((ws, ns)) =>
        match RowEntry(l, row, detect)
        case None => None
        case Some((w, n)) => Some((ws + [w], ns + n))
  {
    assert (rows + [row])[..|rows|] == rows;
  }

  /** Once a row is bad, no later rows make the loop succeed. */
  lemma HeaderRowsAbort(l: Labels, rows: seq<seq<Bytes>>, more: seq<seq<Bytes>>, detect: bool)
    requires HeaderRows(l, rows, detect) == None
    ensures HeaderRows(l, rows + more, detect) == None
  {
    HeaderRowsSpec(l, rows, detect);
    HeaderRowsSpec(l, rows + more, detect);
    assert forall i :: 0 <= i < |rows| ==> (rows + more)[i] == rows[i];
  }

  /** The width of the row, where every row has one. */
  function WidthOf(l: Labels, row: seq<Bytes>): int
    requires l.length >= 0 ==> IsWidthCell(row, l.length)
    requires l.length < 0 ==> IsWidthCell(row, l.start) && IsWidthCell(row, l.stop)
  {
    if l.length >= 0 then CellValue(row, l.length)
    else StartStopWidthAsWritten(CellValue(row, l.start), CellValue(row, l.stop))
  }

  /** Whether a row has every cell the loader reads from it, each well-formed. */
  predicate GoodRow(l: Labels, row: seq<Bytes>, detect: bool)
  {
    && (l.length >= 0 ==> IsWidthCell(row, l.length))
    && (l.length < 0 ==> IsWidthCell(row, l.start) && IsWidthCell(row, l.stop))
    && (detect && l.name >= 0 ==> l.name < |row|)
  }

  lemma RowEntrySpec(l: Labels, row: seq<Bytes>, detect: bool)
    ensures RowEntry(l, row, detect) ==
      if GoodRow(l, row, detect) then Some((WidthOf(l, row), if detect && l.name >= 0 then [Trim(row[l.name])] else []))
      else None
  {
  }

  predicate AllGood(l: Labels, rows: seq<seq<Bytes>>, detect: bool)
  {
    forall i :: 0 <= i < |rows| ==> GoodRow(l, rows[i], detect)
  }

  /** A row more: all rows are good when the earlier ones and the new one are. */
  lemma AllGoodSnoc(l: Labels, rows: seq<seq<Bytes>>, detect: bool)
    requires rows != []
    ensures AllGood(l, rows, detect) <==> AllGood(l, rows[..|rows| - 1], detect) && GoodRow(l, rows[|rows| - 1], detect)
  {
    var init := rows[..|rows| - 1];
    assert forall i :: 0 <= i < |init| ==> init[i] == rows[i];
  }

  /** The widths of good rows, one per row. */
  function Widths(l: Labels, rows: seq<seq<Bytes>>, detect: bool): (ws: seq<int>)
    requires AllGood(l, rows, detect)
  {
    if rows == [] then []
    else
      AllGoodSnoc(l, rows, detect);
      Widths(l, rows[..|rows| - 1], detect) + [WidthOf(l, rows[|rows| - 1])]
  }

  /** The names collected from good rows: the trimmed `fieldname` cells, when names are collected. */
  function NamesOf(l: Labels, rows: seq<seq<Bytes>>, detect: bool): (ns: seq<Bytes>)
    requires AllGood(l, rows, detect)
  {
    if rows == [] || !detect || l.name < 0 then []
    else
      AllGoodSnoc(l, rows, detect);
      NamesOf(l, rows[..|rows| - 1], detect) + [Trim(rows[|rows| - 1][l.name])]
  }

  /** Row `i` has width `Widths(..)[i]`. */
  lemma {:induction false} WidthsIndex(l: Labels, rows: seq<seq<Bytes>>, detect: bool)
    requires AllGood(l, rows, detect)
    ensures |Widths(l, rows, detect)| == |rows|
    ensures forall i :: 0 <= i < |rows| ==> Widths(l, rows, detect)[i] == WidthOf(l, rows[i])
  {
    if rows != [] {
      var init := rows[..|rows| - 1];
      AllGoodSnoc(l, rows, detect);
      WidthsIndex(l, init, detect);
      assert forall i :: 0 <= i < |init| ==> init[i] == rows[i];
    }
  }

  /** When names are collected, row `i` has name `NamesOf(..)[i]`; otherwise there are none. */
  lemma {:induction false} NamesIndex(l: Labels, rows: seq<seq<Bytes>>, detect: bool)
    requires AllGood(l, rows, detect)
    ensures detect && l.name >= 0 ==>
      && |NamesOf(l, rows, detect)| == |rows|
      && forall i :: 0 <= i < |rows| ==> l.name < |rows[i]| && NamesOf(l, rows, detect)[i] == Trim(rows[i][l.name])
    ensures !detect || l.name < 0 ==> NamesOf(l, rows, detect) == []
  {
    if rows != [] && detect && l.name >= 0 {
      var init := rows[..|rows| - 1];
      AllGoodSnoc(l, rows, detect);
      NamesIndex(l, init, detect);
      assert forall i :: 0 <= i < |init| ==> init[i] == rows[i];
    }
  }

  /**
   * The row loop succeeds exactly when every row is good; it then gives one
   * width per row, in order, and one name per row when names are collected.
   */
  lemma {:induction false} HeaderRowsSpec(l: Labels, rows: seq<seq<Bytes>>, detect: bool)
    ensures HeaderRows(l, rows, detect) ==
      if AllGood(l, rows, detect) then Some((Widths(l, rows, detect), NamesOf(l, rows, detect))) else None
  {
    if rows != [] {
      HeaderRowsSpec(l, rows[..|rows| - 1], detect);
      RowEntrySpec(l, rows[|rows| - 1], detect);
      AllGoodSnoc(l, rows, detect);
      if AllGood(l, rows, detect) {
        var init := rows[..|rows| - 1];
        var last := rows[|rows| - 1];
        assert Widths(l, rows, detect) == Widths(l, init, detect) + [WidthOf(l, last)];
        assert NamesOf(l, rows, detect) == NamesOf(l, init, detect) + (if detect && l.name >= 0 then [Trim(last[l.name])] else []);
      }
    }
  }

  // ------------------------------------------------------------- bare widths

  /**
   * The bare-list loop: the values of the leading integer fields, and whether
   * every field is one. Each width is appended as soon as it is read, so a bad
   * field leaves the widths before it in place.
   */
  function BareWidths(fs: seq<Bytes>): (r: (seq<int>, bool))
  {
    if fs == [] then ([], true)
    else
      var (ws, ok) := BareWidths(fs[..|fs| - 1]);
      var f := fs[|fs| - 1];
      if ok && IsInteger(f) then (ws + [ToInt(f)], true) else (ws, false)
  }

  /** `k` is the number of leading fields of `fs` that are integers. */
  predicate IsIntegerRun(fs: seq<Bytes>, k: nat)
  {
    k <= |fs| && (forall i :: 0 <= i < k ==> IsInteger(fs[i])) && (k < |fs| ==> !IsInteger(fs[k]))
  }

  /**
   * The loop succeeds exactly when every field is an integer; in any case it
   * leaves the values of the leading run of integer fields.
   */
  lemma {:induction false} BareWidthsSpec(fs: seq<Bytes>)
    ensures var (ws, ok) := BareWidths(fs);
      && IsIntegerRun(fs, |ws|)
      && (ok <==> |ws| == |fs|)
      && forall i :: 0 <= i < |ws| ==> IsInteger(fs[i]) && ws[i] == ToInt(fs[i])
  {
    if fs != [] {
      var init := fs[..|fs| - 1];
      BareWidthsSpec(init);
      assert forall i :: 0 <= i < |init| ==> init[i] == fs[i];
    }
  }

  /**
   * The loop stopped at field `k`, the first that is not an integer: the
   * result is that of the fields before it, marked as a failure.
   */
  lemma BareWidthsStop(fs: seq<Bytes>, k: nat)
    requires IsIntegerRun(fs, k) && k < |fs|
    ensures BareWidths(fs) == (BareWidths(fs[..k]).0, false)
    ensures BareWidths(fs[..k]).1
  {
    var pre := fs[..k];
    BareWidthsSpec(fs);
    BareWidthsSpec(pre);
    var ws := BareWidths(fs).0;
    var vs := BareWidths(pre).0;
    assert forall i :: 0 <= i < k ==> pre[i] == fs[i];
    assert ws == vs;
  }

  // -------------------------------------------------------------- the plan

  /** What loading a format file adds: success, the widths and the field names. */
  datatype Plan = Plan(ok: bool, widths: seq<int>, names: seq<Bytes>)

  /**
   * The plan of a format whose first record has fields `first` and whose
   * later records are `rows`. A header format adds nothing when it fails; a
   * bare list keeps the widths read before the bad field.
   */
  function PlanOf(first: seq<Bytes>, rows: seq<seq<Bytes>>, detect: bool): Plan
  {
    if first == [] then Plan(false, [], [])
    else
      var l := LabelsOf(first);
      if IsHeader(l) then
        match HeaderRows(l, rows, detect)
        case None => Plan(false, [], [])
        case Some((ws, ns)) => Plan(true, ws, ns)
      else
        var (ws, ok) := BareWidths(first);
        Plan(ok, ws, [])
  }

  /**
   * A header with a `length` column: one width per row, the integer in that
   * column, whatever `start` and `stop` say.
   */
  lemma LengthTakesPrecedence(first: seq<Bytes>, rows: seq<seq<Bytes>>, detect: bool)
    requires first != [] && LabelsOf(first).length >= 0
    ensures var l := LabelsOf(first);
      var p := PlanOf(first, rows, detect);
      && (p.ok <==> AllGood(l, rows, detect))
      && (p.ok ==> |p.widths| == |rows| && forall i :: 0 <= i < |rows| ==> p.widths[i] == CellValue(rows[i], l.length))
      && (p.ok && detect && l.name >= 0 ==>
        |p.names| == |rows| && forall i :: 0 <= i < |rows| ==> l.name < |rows[i]| && p.names[i] == Trim(rows[i][l.name]))
      && (p.ok && (!detect || l.name < 0) ==> p.names == [])
      && (!p.ok ==> p.widths == [] && p.names == [])
  {
    var l := LabelsOf(first);
    HeaderRowsSpec(l, rows, detect);
    if AllGood(l, rows, detect) {
      WidthsIndex(l, rows, detect);
      NamesIndex(l, rows, detect);
    }
  }

  /**
   * A header with `start` and `stop` but no `length` column: one width per
   * row, each of them `1 - start` as the loader computes it; the stop cell
   * is only checked to be an integer.
   */
  lemma StartStopWidths(first: seq<Bytes>, rows: seq<seq<Bytes>>, detect: bool)
    requires first != [] && LabelsOf(first).length < 0 && LabelsOf(first).start >= 0 && LabelsOf(first).stop >= 0
    ensures var l := LabelsOf(first);
      var p := PlanOf(first, rows, detect);
      && (p.ok <==> AllGood(l, rows, detect))
      && (p.ok ==> |p.widths| == |rows| && forall i :: 0 <= i < |rows| ==>
        p.widths[i] == 1 - CellValue(rows[i], l.start))
  {
    var l := LabelsOf(first);
    HeaderRowsSpec(l, rows, detect);
    if AllGood(l, rows, detect) {
      WidthsIndex(l, rows, detect);
    }
  }

  /** A first record with no recognised label is the width list itself. */
  lemma BareListIsPlan(first: seq<Bytes>, rows: seq<seq<Bytes>>, detect: bool)
    requires first != [] && !IsHeader(LabelsOf(first))
    ensures var p := PlanOf(first, rows, detect);
      && (p.ok <==> forall i :: 0 <= i < |first| ==> IsInteger(first[i]))
      && IsIntegerRun(first, |p.widths|)
      && (forall i :: 0 <= i < |p.widths| ==> p.widths[i] == ToInt(first[i]))
      && p.names == []
  {
    BareWidthsSpec(first);
  }

  /** An empty format has no plan. */
  lemma EmptyFormatFails(rows: seq<seq<Bytes>>, detect: bool)
    ensures PlanOf([], rows, detect) == Plan(false, [], [])
  {
  }

  /** A first record whose fields all start with a digit recognises no label: it is a bare list. */
  lemma NumbersAreNoHeader(fs: seq<Bytes>)
    requires forall i :: 0 <= i < |fs| ==> |fs[i]| > 0 && IsDigit(fs[i][0])
    ensures LabelsOf(fs) == NoLabels
  {
    LabelsOfColumns(fs);
    forall tag | tag in [LENGTH, START, STOP, FIELDNAME]
      ensures LastColumn(fs, tag) == -1
    {
      LastColumnSpec(fs, tag);
    }
  }

  // --------------------------------------------------------------- examples

  /** The width list as a format writer renders it: each width in decimal. */
  function Rendered(ws: seq<nat>): (fs: seq<Bytes>)
    ensures |fs| == |ws| && forall i :: 0 <= i < |ws| ==> fs[i] == IntToString(ws[i])
  {
    seq(|ws|, i requires 0 <= i < |ws| => IntToString(ws[i]))
  }

  /**
   * The bare-list round trip: a non-empty list of widths written in decimal
   * as the first record (as in `3|8|13|7|10|5`) is read back as the same plan.
   */
  lemma BareListRoundTrip(ws: seq<nat>, rows: seq<seq<Bytes>>, detect: bool)
    requires ws != []
    ensures PlanOf(Rendered(ws), rows, detect) == Plan(true, ws, [])
  {
    var first := Rendered(ws);
    forall i | 0 <= i < |ws|
      ensures IsInteger(first[i]) && ToInt(first[i]) == ws[i]
    {
      IntRoundTrip(ws[i]);
    }
    NumbersAreNoHeader(first);
    BareListIsPlan(first, rows, detect);
  }
}
