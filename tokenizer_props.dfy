/**
 * What the per-record reader computes, stated against independent reference
 * definitions: splitting at the separator, the quoting that a CSV writer
 * applies, and cutting a line into columns of given widths.
 */
module TokenizerProps {
  import opened Bytes
  import opened Utf8
  import opened Tokenizer

  // ------------------------------------------------------ split and join

  /** The pieces of `s` between separators: one more piece than there are separators. */
  function SplitOn(s: Bytes, sep: Byte): (r: seq<Bytes>)
    ensures |r| >= 1
    decreases |s|
  {
    if s == [] then [[]]
    else
      var init := SplitOn(s[..|s| - 1], sep);
      var c := s[|s| - 1];
      if c == sep then init + [[]] else init[..|init| - 1] + [init[|init| - 1] + [c]]
  }

  /** The pieces joined, one separator between each two. */
  function Join(parts: seq<Bytes>, sep: Byte): (r: Bytes)
    requires |parts| >= 1
  {
    if |parts| == 1 then parts[0] else Join(parts[..|parts| - 1], sep) + [sep] + parts[|parts| - 1]
  }

  predicate NoSeparator(parts: seq<Bytes>, sep: Byte)
  {
    forall i :: 0 <= i < |parts| ==> sep !in parts[i]
  }

  /** `SplitOn` unfolded once: the last byte either starts a new piece or extends the last one. */
  lemma SplitSnoc(t: Bytes, c: Byte, sep: Byte)
    ensures var init := SplitOn(t, sep);
      SplitOn(t + [c], sep) == if c == sep then init + [[]] else init[..|init| - 1] + [init[|init| - 1] + [c]]
  {
    assert (t + [c])[..|t + [c]| - 1] == t;
  }

  /** `Join` unfolded once, for a last piece extended by one byte. */
  lemma JoinSnoc(parts: seq<Bytes>, c: Byte, sep: Byte)
    requires |parts| >= 1
    ensures Join(parts[..|parts| - 1] + [parts[|parts| - 1] + [c]], sep) == Join(parts, sep) + [c]
  {
    var p2 := parts[..|parts| - 1] + [parts[|parts| - 1] + [c]];
    assert p2[..|p2| - 1] == parts[..|parts| - 1];
    if |parts| > 1 {
      assert Join(parts, sep) == Join(parts[..|parts| - 1], sep) + [sep] + parts[|parts| - 1];
    }
  }

  /** Splitting finds pieces without separators that join back to the input. */
  lemma {:induction false} SplitJoin(s: Bytes, sep: Byte)
    ensures NoSeparator(SplitOn(s, sep), sep)
    ensures Join(SplitOn(s, sep), sep) == s
    ensures |SplitOn(s, sep)| == Count(s, sep) + 1
    decreases |s|
  {
    if s != [] {
      var t := s[..|s| - 1];
      var c := s[|s| - 1];
      assert t + [c] == s;
      SplitJoin(t, sep);
      CountSnoc(t, c, sep);
      SplitSnoc(t, c, sep);
      var init := SplitOn(t, sep);
      if c != sep {
        ExtendPiece(init, c, sep);
      } else {
        StartPiece(init, sep);
      }
    }
  }

  /** A byte other than the separator extends the last piece. */
  lemma ExtendPiece(parts: seq<Bytes>, c: Byte, sep: Byte)
    requires |parts| >= 1 && NoSeparator(parts, sep) && c != sep
    ensures var r := parts[..|parts| - 1] + [parts[|parts| - 1] + [c]];
      NoSeparator(r, sep) && Join(r, sep) == Join(parts, sep) + [c] && |r| == |parts|
  {
    JoinSnoc(parts, c, sep);
    assert sep !in parts[|parts| - 1] + [c];
  }

  /** The separator starts a new, empty piece. */
  lemma StartPiece(parts: seq<Bytes>, sep: Byte)
    requires |parts| >= 1 && NoSeparator(parts, sep)
    ensures var r := parts + [[]];
      NoSeparator(r, sep) && Join(r, sep) == Join(parts, sep) + [sep] && |r| == |parts| + 1
  {
    var r := parts + [[]];
    assert r[..|r| - 1] == parts;
  }

  /** A string without separators is one piece. */
  lemma {:induction false} SplitPlain(piece: Bytes, sep: Byte)
    requires sep !in piece
    ensures SplitOn(piece, sep) == [piece]
    decreases |piece|
  {
    if piece != [] {
      var t := piece[..|piece| - 1];
      SplitPlain(t, sep);
      SplitSnoc(t, piece[|piece| - 1], sep);
      assert t + [piece[|piece| - 1]] == piece;
    }
  }

  /** A separator and a piece without separators, appended, add that piece. */
  lemma {:induction false} SplitAppendPiece(s: Bytes, piece: Bytes, sep: Byte)
    requires sep !in piece
    ensures SplitOn(s + [sep] + piece, sep) == SplitOn(s, sep) + [piece]
    decreases |piece|
  {
    if piece == [] {
      assert s + [sep] + piece == s + [sep];
      SplitSnoc(s, sep, sep);
    } else {
      var t := piece[..|piece| - 1];
      var c := piece[|piece| - 1];
      SplitAppendPiece(s, t, sep);
      SplitSnoc(s + [sep] + t, c, sep);
      assert s + [sep] + t + [c] == s + [sep] + piece;
      var x := SplitOn(s, sep) + [t];
      assert x[..|x| - 1] == SplitOn(s, sep) && x[|x| - 1] == t;
      assert t + [c] == piece;
    }
  }

  /** Joining pieces without separators and splitting again gives the pieces back. */
  lemma {:induction false} JoinSplit(parts: seq<Bytes>, sep: Byte)
    requires |parts| >= 1 && NoSeparator(parts, sep)
    ensures SplitOn(Join(parts, sep), sep) == parts
    decreases |parts|
  {
    var last := parts[|parts| - 1];
    if |parts| == 1 {
      SplitPlain(last, sep);
    } else {
      var init := parts[..|parts| - 1];
      assert NoSeparator(init, sep);
      JoinSplit(init, sep);
      SplitAppendPiece(Join(init, sep), last, sep);
      assert init + [last] == parts;
    }
  }

  /** Every field repaired to UTF-8. */
  function RepairAll(fs: seq<Bytes>): (r: seq<Bytes>)
    ensures |r| == |fs| && forall i :: 0 <= i < |fs| ==> r[i] == Repair(fs[i])
  {
    seq(|fs|, i requires 0 <= i < |fs| => Repair(fs[i]))
  }

  lemma RepairAllSnoc(xs: seq<Bytes>, x: Bytes)
    ensures RepairAll(xs + [x]) == RepairAll(xs) + [Repair(x)]
  {
  }

  // ------------------------------------------------------ unquoted lines

  /** The loop state after reading the first `k` bytes of an unquoted line. */
  function PlainState(line: Bytes, sep: Byte, pos: nat, k: nat): Scan
    requires k <= |line|
  {
    var parts := SplitOn(line[..k], sep);
    Scan(pos + k, parts[|parts| - 1], RepairAll(parts[..|parts| - 1]), false)
  }

  /**
   * The first byte of a two-byte line ending stands alone at `p`: the byte
   * after it exists and is not the ending's second byte.
   */
  predicate LoneAt(cfg: Config, data: Bytes, p: nat)
  {
    |cfg.ending| == 2 && p + 1 < |data| && data[p + 1] != cfg.ending[1]
  }

  /**
   * `line` stands in `data` at `pos`; no field of it starts with a quote
   * (every quote follows a byte other than the separator), and every byte of
   * it that is the first byte of the line ending stands alone.
   */
  predicate PlainBytes(cfg: Config, data: Bytes, pos: nat, line: Bytes)
  {
    && pos + |line| <= |data|
    && data[pos..pos + |line|] == line
    && (forall k :: 0 <= k < |line| && line[k] == QUOTE ==> k > 0 && line[k - 1] != cfg.sep)
    && forall k :: 0 <= k < |line| && |cfg.ending| > 0 && line[k] == cfg.ending[0] ==> LoneAt(cfg, data, pos + k)
  }

  /** An unquoted line at `pos` followed by the line ending. */
  predicate PlainLineAt(cfg: Config, data: Bytes, pos: nat, line: Bytes)
  {
    && 1 <= |cfg.ending| <= 2 && cfg.sep != cfg.ending[0] && cfg.ending[0] != QUOTE
    && PlainBytes(cfg, data, pos, line)
    && pos + |line| + |cfg.ending| <= |data|
    && data[pos + |line|..pos + |line| + |cfg.ending|] == cfg.ending
  }

  /** A turn that goes on leaves the rest of the loop to the next state. */
  lemma ScanNext(cfg: Config, data: Bytes, s: Scan, t: Scan)
    requires Tokenizable(data, cfg.ending) && DelimitedStep(cfg, data, s) == Next(t)
    ensures ScanDelimited(cfg, data, s) == ScanDelimited(cfg, data, t)
  {
  }

  /** A turn that stops ends the loop. */
  lemma ScanDone(cfg: Config, data: Bytes, s: Scan, t: Scan, atEnd: bool)
    requires Tokenizable(data, cfg.ending) && DelimitedStep(cfg, data, s) == Done(t, atEnd)
    ensures ScanDelimited(cfg, data, s) == (t, atEnd)
  {
  }

  /**
   * One turn of the delimited loop on an ordinary byte outside quotes. A
   * quote that does not start a field is such a byte, and so is a lone first
   * byte of the ending: the byte read after it is given back and the lone
   * byte is kept.
   */
  lemma UnquotedStep(cfg: Config, data: Bytes, s: Scan)
    requires s.pos < |data| && !s.quoted
    requires data[s.pos] != QUOTE || s.field != []
    requires |cfg.ending| == 0 || data[s.pos] != cfg.ending[0] || LoneAt(cfg, data, s.pos)
    ensures DelimitedStep(cfg, data, s) ==
      if data[s.pos] == cfg.sep then Next(Close(s, s.pos + 1))
      else Next(s.(pos := s.pos + 1, field := s.field + [data[s.pos]]))
  {
  }

  /** The state after one more byte: a separator closes the piece, any other byte extends it. */
  lemma PlainStateNext(line: Bytes, sep: Byte, pos: nat, k: nat)
    requires k < |line|
    ensures var s := PlainState(line, sep, pos, k);
      PlainState(line, sep, pos, k + 1)
        == if line[k] == sep then Close(s, pos + k + 1) else s.(pos := pos + k + 1, field := s.field + [line[k]])
  {
    var c := line[k];
    assert line[..k + 1] == line[..k] + [c];
    SplitSnoc(line[..k], c, sep);
    var parts := SplitOn(line[..k], sep);
    var parts2 := SplitOn(line[..k + 1], sep);
    if c == sep {
      assert parts2[..|parts2| - 1] == parts && parts2[|parts2| - 1] == [];
      assert parts[..|parts| - 1] + [parts[|parts| - 1]] == parts;
      RepairAllSnoc(parts[..|parts| - 1], parts[|parts| - 1]);
    } else {
      assert parts2[..|parts2| - 1] == parts[..|parts| - 1];
    }
  }

  /** After a byte other than the separator, the current piece is not empty. */
  lemma PieceAfterByte(line: Bytes, sep: Byte, k: nat)
    requires 0 < k <= |line| && line[k - 1] != sep
    ensures var parts := SplitOn(line[..k], sep); parts[|parts| - 1] != []
  {
    assert line[..k] == line[..k - 1] + [line[k - 1]];
    SplitSnoc(line[..k - 1], line[k - 1], sep);
  }

  /** One byte of an unquoted line: one turn of the loop takes the state to the next one. */
  lemma PlainStep(cfg: Config, data: Bytes, pos: nat, line: Bytes, k: nat)
    requires PlainBytes(cfg, data, pos, line) && k < |line|
    ensures DelimitedStep(cfg, data, PlainState(line, cfg.sep, pos, k)) == Next(PlainState(line, cfg.sep, pos, k + 1))
  {
    var s := PlainState(line, cfg.sep, pos, k);
    PlainGuards(cfg, data, pos, line, k);
    UnquotedStep(cfg, data, s);
    PlainStateNext(line, cfg.sep, pos, k);
  }

  /** At a byte of an unquoted line, the loop takes the ordinary-byte branch. */
  lemma PlainGuards(cfg: Config, data: Bytes, pos: nat, line: Bytes, k: nat)
    requires PlainBytes(cfg, data, pos, line) && k < |line|
    ensures var s := PlainState(line, cfg.sep, pos, k);
      && s.pos == pos + k < |data| && !s.quoted && data[s.pos] == line[k]
      && (data[s.pos] != QUOTE || s.field != [])
      && (|cfg.ending| == 0 || data[s.pos] != cfg.ending[0] || LoneAt(cfg, data, s.pos))
  {
    assert data[pos + k] == line[k];
    if line[k] == QUOTE {
      PieceAfterByte(line, cfg.sep, k);
    }
  }

  lemma {:induction false} PlainPrefix(cfg: Config, data: Bytes, pos: nat, line: Bytes, k: nat)
    requires Tokenizable(data, cfg.ending) && PlainBytes(cfg, data, pos, line) && k <= |line|
    ensures ScanDelimited(cfg, data, Scan(pos, [], [], false))
      == ScanDelimited(cfg, data, PlainState(line, cfg.sep, pos, k))
  {
    if k > 0 {
      PlainPrefix(cfg, data, pos, line, k - 1);
      PlainStep(cfg, data, pos, line, k - 1);
    } else {
      assert line[..0] == [];
    }
  }

  /** The delimited reader from `pos` is the delimited loop followed by the final checks. */
  lemma ReadDelimitedOf(cfg: Config, data: Bytes, pos: nat, t: Scan, atEnd: bool)
    requires Tokenizable(data, cfg.ending) && |cfg.plan| == 0
    requires ScanDelimited(cfg, data, Scan(pos, [], [], false)) == (t, atEnd)
    ensures ReadRecord(cfg, data, pos) == ReadResult(FinishDelimited(cfg, t).0, FinishDelimited(cfg, t).1, t.pos, atEnd)
  {
  }

  /** Closing the last piece of a whole line gives every piece, repaired. */
  lemma PlainClose(line: Bytes, sep: Byte, pos: nat, p: nat)
    ensures Close(PlainState(line, sep, pos, |line|), p) == Scan(p, [], RepairAll(SplitOn(line, sep)), false)
  {
    assert line[..|line|] == line;
    var parts := SplitOn(line, sep);
    assert parts[..|parts| - 1] + [parts[|parts| - 1]] == parts;
    RepairAllSnoc(parts[..|parts| - 1], parts[|parts| - 1]);
  }

  /** After the whole line, the line ending stops the loop. */
  lemma PlainEnd(cfg: Config, data: Bytes, pos: nat, line: Bytes)
    requires Tokenizable(data, cfg.ending) && PlainLineAt(cfg, data, pos, line)
    ensures ScanDelimited(cfg, data, PlainState(line, cfg.sep, pos, |line|))
      == (Scan(pos + |line| + |cfg.ending|, [], RepairAll(SplitOn(line, cfg.sep)), false), false)
  {
    var s := PlainState(line, cfg.sep, pos, |line|);
    assert s.pos == pos + |line| && !s.quoted;
    EndingStep(cfg, data, s);
    PlainClose(line, cfg.sep, pos, s.pos + |cfg.ending|);
    ScanDone(cfg, data, s, Close(s, s.pos + |cfg.ending|), false);
  }

  lemma PlainScan(cfg: Config, data: Bytes, pos: nat, line: Bytes)
    requires Tokenizable(data, cfg.ending) && PlainLineAt(cfg, data, pos, line)
    ensures ScanDelimited(cfg, data, Scan(pos, [], [], false))
      == (Scan(pos + |line| + |cfg.ending|, [], RepairAll(SplitOn(line, cfg.sep)), false), false)
  {
    PlainPrefix(cfg, data, pos, line, |line|);
    PlainEnd(cfg, data, pos, line);
  }

  /**
   * An unquoted line followed by the line ending reads as its pieces between
   * separators, each repaired to UTF-8 (and stripped when tag stripping is
   * on), with the cursor after the ending. An empty line reads as one empty
   * field, a failure when empty lines are ignored.
   */
  lemma PlainLine(cfg: Config, data: Bytes, pos: nat, line: Bytes)
    requires Tokenizable(data, cfg.ending) && |cfg.plan| == 0 && PlainLineAt(cfg, data, pos, line)
    ensures ReadRecord(cfg, data, pos) ==
      if line == [] then ReadResult(!cfg.ignoreEmpty, [[]], pos + |cfg.ending|, false)
      else ReadResult(true, Stripped(cfg, RepairAll(SplitOn(line, cfg.sep))), pos + |line| + |cfg.ending|, false)
  {
    PlainScan(cfg, data, pos, line);
    var parts := SplitOn(line, cfg.sep);
    var t := Scan(pos + |line| + |cfg.ending|, [], RepairAll(parts), false);
    ReadDelimitedOf(cfg, data, pos, t, false);
    SplitJoin(line, cfg.sep);
    if |parts| == 1 {
      assert Join(parts, cfg.sep) == parts[0];
      RepairSpec(parts[0]);
    }
  }

  /** The line ending outside quotes ends the record: the current field closes. */
  lemma EndingStep(cfg: Config, data: Bytes, s: Scan)
    requires 1 <= |cfg.ending| <= 2 && cfg.sep != cfg.ending[0] && cfg.ending[0] != QUOTE && !s.quoted
    requires s.pos + |cfg.ending| <= |data| && data[s.pos..s.pos + |cfg.ending|] == cfg.ending
    ensures DelimitedStep(cfg, data, s) == Done(Close(s, s.pos + |cfg.ending|), false)
  {
    assert data[s.pos] == cfg.ending[0];
    if |cfg.ending| == 2 {
      assert data[s.pos + 1] == cfg.ending[1];
    }
  }

  /** An empty line reads as one empty field; when empty lines are ignored, the retry loop moves past it. */
  lemma EmptyLineSkipped(cfg: Config, data: Bytes, pos: nat)
    requires Tokenizable(data, cfg.ending) && |cfg.plan| == 0 && PlainLineAt(cfg, data, pos, [])
    requires cfg.ignoreEmpty
    ensures ReadLine(cfg, data, pos) == ReadLine(cfg, data, pos + |cfg.ending|)
  {
    PlainLine(cfg, data, pos, []);
  }

  /** The final checks on a loop state whose closed fields are `init`, repaired, and whose open field is `last`. */
  lemma FinishOpen(cfg: Config, p: nat, init: seq<Bytes>, last: Bytes)
    ensures FinishDelimited(cfg, Scan(p, last, RepairAll(init), false)) ==
      if init == [[]] then (!cfg.ignoreEmpty, [[]])
      else if init == [] && last == [] then (false, [])
      else (true, Stripped(cfg, RepairAll(init) + (if last == [] then [] else [Repair(last)])))
  {
    RepairSpec(last);
    EmptySuffix(RepairAll(init));
    if |init| == 1 {
      RepairSpec(init[0]);
      if init[0] == [] {
        assert init == [[]] && RepairAll(init) == [[]];
      }
    }
  }

  /** The final checks on the loop state after a whole unquoted line whose field is still open. */
  lemma FinishOpenLine(cfg: Config, line: Bytes, pos: nat)
    ensures var parts := SplitOn(line, cfg.sep);
      var init := parts[..|parts| - 1];
      var last := parts[|parts| - 1];
      FinishDelimited(cfg, PlainState(line, cfg.sep, pos, |line|)) ==
        if init == [[]] then (!cfg.ignoreEmpty, [[]])
        else if line == [] then (false, [])
        else (true, Stripped(cfg, RepairAll(init) + (if last == [] then [] else [Repair(last)])))
  {
    assert line[..|line|] == line;
    var parts := SplitOn(line, cfg.sep);
    var init := parts[..|parts| - 1];
    var last := parts[|parts| - 1];
    FinishOpen(cfg, pos + |line|, init, last);
    if init == [] {
      assert parts == [last];
      SplitJoin(line, cfg.sep);
      assert (line == []) == (last == []);
    } else {
      assert line != [];
    }
  }

  /**
   * An unquoted last line without a line ending: the loop stops at the end
   * of the stream with the current field still open. A single empty closed
   * field is checked first and reads as an empty line, the open field
   * dropped; otherwise the open field is added only when it is not empty,
   * and nothing left to read is a failure. The end-of-file flag is set.
   */
  lemma UnterminatedLine(cfg: Config, data: Bytes, pos: nat, line: Bytes)
    requires Tokenizable(data, cfg.ending) && |cfg.plan| == 0
    requires PlainBytes(cfg, data, pos, line) && pos + |line| == |data|
    ensures var parts := SplitOn(line, cfg.sep);
      var init := parts[..|parts| - 1];
      var last := parts[|parts| - 1];
      ReadRecord(cfg, data, pos) ==
        if init == [[]] then ReadResult(!cfg.ignoreEmpty, [[]], |data|, true)
        else if line == [] then ReadResult(false, [], |data|, true)
        else ReadResult(true, Stripped(cfg, RepairAll(init) + (if last == [] then [] else [Repair(last)])), |data|, true)
  {
    PlainPrefix(cfg, data, pos, line, |line|);
    var t := PlainState(line, cfg.sep, pos, |line|);
    ScanDone(cfg, data, t, t, true);
    ReadDelimitedOf(cfg, data, pos, t, true);
    FinishOpenLine(cfg, line, pos);
  }

  /**
   * A last line that ends with a separator and no line ending gets no empty
   * last field: its fields are the pieces before that separator.
   */
  lemma TrailingSeparatorAtEnd(cfg: Config, data: Bytes, pos: nat, t: Bytes)
    requires Tokenizable(data, cfg.ending) && |cfg.plan| == 0 && t != []
    requires PlainBytes(cfg, data, pos, t + [cfg.sep]) && pos + |t| + 1 == |data|
    ensures ReadRecord(cfg, data, pos) == ReadResult(true, Stripped(cfg, RepairAll(SplitOn(t, cfg.sep))), |data|, true)
  {
    var line := t + [cfg.sep];
    SplitSnoc(t, cfg.sep, cfg.sep);
    SplitJoin(t, cfg.sep);
    var parts := SplitOn(line, cfg.sep);
    assert parts[..|parts| - 1] == SplitOn(t, cfg.sep) && parts[|parts| - 1] == [];
    assert SplitOn(t, cfg.sep) != [[]];
    EmptySuffix(RepairAll(SplitOn(t, cfg.sep)));
    UnterminatedLine(cfg, data, pos, line);
  }

  /**
   * A last line without a line ending whose only separator is its first
   * byte reads as an empty line: the empty field before the separator is
   * checked before the open field after it is added, so that field is lost.
   */
  lemma EmptyFirstFieldAtEnd(cfg: Config, data: Bytes, pos: nat, x: Bytes)
    requires Tokenizable(data, cfg.ending) && |cfg.plan| == 0 && cfg.sep !in x
    requires PlainBytes(cfg, data, pos, [cfg.sep] + x) && pos + 1 + |x| == |data|
    ensures ReadRecord(cfg, data, pos) == ReadResult(!cfg.ignoreEmpty, [[]], |data|, true)
  {
    UnterminatedLine(cfg, data, pos, [cfg.sep] + x);
    SplitAppendPiece([], x, cfg.sep);
    assert [] + [cfg.sep] + x == [cfg.sep] + x;
    var parts := SplitOn([cfg.sep] + x, cfg.sep);
    assert parts == [[], x];
    assert parts[..|parts| - 1] == [[]];
  }

  /**
   * The first byte of a two-byte line ending, followed by something other
   * than its second byte, is field data: the byte read after it is given
   * back and read again, so a line `u`, that byte, `v` and the ending reads
   * as one field holding all of it.
   */
  lemma LoneEndingByteKept(cfg: Config, data: Bytes, pos: nat, u: Bytes, v: Bytes)
    requires Tokenizable(data, cfg.ending) && |cfg.plan| == 0
    requires |cfg.ending| == 2 && cfg.sep != cfg.ending[0] && cfg.ending[0] != QUOTE
    requires QUOTE !in u + v && cfg.sep !in u + v && cfg.ending[0] !in u + v
    requires v != [] && v[0] != cfg.ending[1]
    requires At(data, pos, u + [cfg.ending[0]] + v + cfg.ending)
    ensures ReadRecord(cfg, data, pos) ==
      ReadResult(true, Stripped(cfg, [Repair(u + [cfg.ending[0]] + v)]), pos + |u| + 1 + |v| + 2, false)
  {
    var line := u + [cfg.ending[0]] + v;
    AtSplit(data, pos, line, cfg.ending);
    assert forall k :: 0 <= k < |line| && line[k] == cfg.ending[0] ==> k == |u|;
    assert data[pos + |u| + 1] == line[|u| + 1] == v[0];
    assert PlainLineAt(cfg, data, pos, line);
    OneFieldLine(cfg, data, pos, line);
    assert pos + |line| + |cfg.ending| == pos + |u| + 1 + |v| + 2;
  }

  /** An unquoted line without separators, followed by its ending, reads as one field. */
  lemma OneFieldLine(cfg: Config, data: Bytes, pos: nat, line: Bytes)
    requires Tokenizable(data, cfg.ending) && |cfg.plan| == 0 && PlainLineAt(cfg, data, pos, line)
    requires line != [] && cfg.sep !in line
    ensures ReadRecord(cfg, data, pos) == ReadResult(true, Stripped(cfg, [Repair(line)]), pos + |line| + |cfg.ending|, false)
  {
    PlainLine(cfg, data, pos, line);
    SplitPlain(line, cfg.sep);
    assert RepairAll([line]) == [Repair(line)];
  }

  /**
   * A quote that does not start a field is field data: the line `u`, a
   * quote, `v` and the ending, with `u` not empty, reads as one field
   * holding all of it.
   */
  lemma InnerQuoteIsData(cfg: Config, data: Bytes, pos: nat, u: Bytes, v: Bytes)
    requires Tokenizable(data, cfg.ending) && |cfg.plan| == 0 && QuotingConfig(cfg)
    requires u != [] && QUOTE !in u + v && cfg.sep !in u + v && cfg.ending[0] !in u + v
    requires At(data, pos, u + [QUOTE] + v + cfg.ending)
    ensures ReadRecord(cfg, data, pos) ==
      ReadResult(true, Stripped(cfg, [Repair(u + [QUOTE] + v)]), pos + |u| + 1 + |v| + |cfg.ending|, false)
  {
    var line := u + [QUOTE] + v;
    AtSplit(data, pos, line, cfg.ending);
    assert forall k :: 0 <= k < |line| && line[k] == QUOTE ==> k == |u|;
    assert line[|u| - 1] == u[|u| - 1];
    assert PlainLineAt(cfg, data, pos, line);
    OneFieldLine(cfg, data, pos, line);
    assert pos + |line| + |cfg.ending| == pos + |u| + 1 + |v| + |cfg.ending|;
  }

  // ------------------------------------------------------ quoted fields

  /** A field as a CSV writer quotes it: every quote doubled. */
  function Escape(v: Bytes): (r: Bytes)
  {
    if v == [] then [] else EscapeByte(v[0]) + Escape(v[1..])
  }

  function EscapeByte(b: Byte): Bytes
  {
    if b == QUOTE then [QUOTE, QUOTE] else [b]
  }

  function Quote(v: Bytes): Bytes
  {
    [QUOTE] + Escape(v) + [QUOTE]
  }

  /** The fields quoted and joined with the separator. */
  function QuotedLine(vs: seq<Bytes>, sep: Byte): Bytes
    requires |vs| >= 1
  {
    if |vs| == 1 then Quote(vs[0]) else Quote(vs[0]) + [sep] + QuotedLine(vs[1..], sep)
  }

  /** A part of a part of `data` is a part of `data`. */
  lemma SubSlice(data: Bytes, a: nat, l: Bytes, i: nat, j: nat)
    requires a + |l| <= |data| && data[a..a + |l|] == l && i <= j <= |l|
    ensures data[a + i..a + j] == l[i..j]
  {
    assert forall k :: a + i <= k < a + j ==> data[k] == l[k - a];
  }

  /** An opening quote at the start of a field. */
  lemma OpenQuoteStep(cfg: Config, data: Bytes, s: Scan)
    requires !s.quoted && s.field == [] && s.pos < |data| && data[s.pos] == QUOTE
    ensures DelimitedStep(cfg, data, s) == Next(s.(pos := s.pos + 1, quoted := true))
  {
  }

  /** Inside quotes, a byte other than a quote is kept. */
  lemma QuotedByteStep(cfg: Config, data: Bytes, s: Scan)
    requires s.quoted && s.pos < |data| && data[s.pos] != QUOTE
    ensures DelimitedStep(cfg, data, s) == Next(s.(pos := s.pos + 1, field := s.field + [data[s.pos]]))
  {
  }

  /** Inside quotes, a doubled quote is kept as one quote. */
  lemma DoubledQuoteStep(cfg: Config, data: Bytes, s: Scan)
    requires s.quoted && s.pos + 1 < |data| && data[s.pos] == QUOTE && data[s.pos + 1] == QUOTE
    ensures DelimitedStep(cfg, data, s) == Next(s.(pos := s.pos + 2, field := s.field + [QUOTE]))
  {
  }

  /** One byte of a field, as the writer escapes it, read back inside quotes. */
  lemma EscapedByteStep(cfg: Config, data: Bytes, p: nat, acc: Bytes, fields: seq<Bytes>, b: Byte)
    requires Tokenizable(data, cfg.ending) && At(data, p, EscapeByte(b))
    ensures ScanDelimited(cfg, data, Scan(p, acc, fields, true))
      == ScanDelimited(cfg, data, Scan(p + |EscapeByte(b)|, acc + [b], fields, true))
  {
    var s := Scan(p, acc, fields, true);
    if b == QUOTE {
      assert data[p] == QUOTE && data[p + 1] == QUOTE;
      DoubledQuoteStep(cfg, data, s);
      ScanNext(cfg, data, s, s.(pos := p + 2, field := acc + [QUOTE]));
    } else {
      assert data[p] == b;
      QuotedByteStep(cfg, data, s);
      ScanNext(cfg, data, s, s.(pos := p + 1, field := acc + [b]));
    }
  }

  lemma AppendHead<T>(acc: seq<T>, v: seq<T>)
    requires v != []
    ensures acc + [v[0]] + v[1..] == acc + v
  {
    assert [v[0]] + v[1..] == v;
  }

  lemma AppendEmpty<T>(acc: seq<T>, v: seq<T>)
    requires v == []
    ensures acc + v == acc
  {
  }

  lemma EscapeCons(v: Bytes)
    requires v != []
    ensures Escape(v) == EscapeByte(v[0]) + Escape(v[1..])
  {
  }

  /** Inside quotes, the escaped bytes of `v` are read back as `v`. */
  lemma {:induction false} EscapedScan(cfg: Config, data: Bytes, p: nat, acc: Bytes, fields: seq<Bytes>, v: Bytes)
    requires Tokenizable(data, cfg.ending) && At(data, p, Escape(v))
    ensures ScanDelimited(cfg, data, Scan(p, acc, fields, true))
      == ScanDelimited(cfg, data, Scan(p + |Escape(v)|, acc + v, fields, true))
    decreases |v|
  {
    if v != [] {
      var h := EscapeByte(v[0]);
      EscapeCons(v);
      AtSplit(data, p, h, Escape(v[1..]));
      EscapedByteStep(cfg, data, p, acc, fields, v[0]);
      EscapedScan(cfg, data, p + |h|, acc + [v[0]], fields, v[1..]);
      AppendHead(acc, v);
    } else {
      AppendEmpty(acc, v);
      assert Scan(p + |Escape(v)|, acc + v, fields, true) == Scan(p, acc, fields, true);
    }
  }

  /** A quoted field: an opening quote, the escaped bytes, a closing quote. */
  lemma QuoteShape(v: Bytes)
    ensures |Quote(v)| == |Escape(v)| + 2
    ensures Quote(v)[0] == QUOTE && Quote(v)[|Quote(v)| - 1] == QUOTE
    ensures Quote(v)[1..|Quote(v)| - 1] == Escape(v)
  {
  }

  /** Where the parts of a quoted field lie. */
  lemma QuoteAt(data: Bytes, pos: nat, v: Bytes)
    requires At(data, pos, Quote(v))
    ensures |Quote(v)| == |Escape(v)| + 2
    ensures pos < |data| && data[pos] == QUOTE && data[pos + |Quote(v)| - 1] == QUOTE
    ensures At(data, pos + 1, Escape(v))
  {
    var qv := Quote(v);
    QuoteShape(v);
    assert data[pos] == qv[0];
    SubSlice(data, pos, qv, 1, 1 + |Escape(v)|);
    assert data[pos + |qv| - 1] == qv[|qv| - 1];
  }

  /** A quoted field, opened at `pos`, is read up to its closing quote. */
  lemma QuotedFieldOpen(cfg: Config, data: Bytes, pos: nat, fields: seq<Bytes>, v: Bytes)
    requires Tokenizable(data, cfg.ending)
    requires At(data, pos, Quote(v))
    ensures ScanDelimited(cfg, data, Scan(pos, [], fields, false))
      == ScanDelimited(cfg, data, Scan(pos + |Quote(v)| - 1, v, fields, true))
    ensures data[pos + |Quote(v)| - 1] == QUOTE
  {
    QuoteAt(data, pos, v);
    OpenQuoteStep(cfg, data, Scan(pos, [], fields, false));
    ScanNext(cfg, data, Scan(pos, [], fields, false), Scan(pos + 1, [], fields, true));
    EscapedScan(cfg, data, pos + 1, [], fields, v);
    assert [] + v == v;
    assert Scan(pos + 1 + |Escape(v)|, [] + v, fields, true) == Scan(pos + |Quote(v)| - 1, v, fields, true);
  }

  /** The closing quote, then the separator: the field closes and the next one begins. */
  lemma CloseAtSeparator(cfg: Config, data: Bytes, s: Scan)
    requires s.quoted && s.pos + 1 < |data| && data[s.pos] == QUOTE && data[s.pos + 1] == cfg.sep
    requires cfg.sep != QUOTE && (|cfg.ending| == 0 || cfg.sep != cfg.ending[0])
    ensures DelimitedStep(cfg, data, s) == Next(Close(s, s.pos + 2))
  {
  }

  /**
   * The closing quote, then a byte that is neither a quote nor the ending's
   * first byte: the field closes and that byte is consumed, whether it is the
   * separator or not.
   */
  lemma CloseSkipsByte(cfg: Config, data: Bytes, s: Scan)
    requires s.quoted && s.pos + 1 < |data| && data[s.pos] == QUOTE && data[s.pos + 1] != QUOTE
    requires |cfg.ending| == 0 || data[s.pos + 1] != cfg.ending[0]
    ensures DelimitedStep(cfg, data, s) == Next(Close(s, s.pos + 2))
  {
  }

  /** The closing quote, then the line ending: the field and the record close. */
  lemma CloseAtEnding(cfg: Config, data: Bytes, s: Scan)
    requires 1 <= |cfg.ending| <= 2 && cfg.ending[0] != QUOTE
    requires s.quoted && s.pos + 1 + |cfg.ending| <= |data| && data[s.pos] == QUOTE
    requires data[s.pos + 1..s.pos + 1 + |cfg.ending|] == cfg.ending
    ensures DelimitedStep(cfg, data, s) == Done(Close(s, s.pos + 1 + |cfg.ending|), false)
  {
    assert data[s.pos + 1] == cfg.ending[0];
    if |cfg.ending| == 2 {
      assert data[s.pos + 2] == cfg.ending[1];
    }
  }

  /** The bytes `x` stand in `data` at `pos`. */
  predicate At<T(==)>(data: seq<T>, pos: nat, x: seq<T>)
  {
    pos + |x| <= |data| && data[pos..pos + |x|] == x
  }

  /** Bytes written between any others stand at the end of the ones before. */
  lemma AtConcat<T>(pre: seq<T>, x: seq<T>, post: seq<T>)
    ensures At(pre + x + post, |pre|, x)
  {
    assert (pre + x + post)[|pre|..|pre| + |x|] == x;
  }

  /** Two pieces standing together stand one after the other. */
  lemma AtSplit<T>(data: seq<T>, pos: nat, x: seq<T>, y: seq<T>)
    requires At(data, pos, x + y)
    ensures At(data, pos, x) && At(data, pos + |x|, y)
  {
    var w := data[pos..pos + |x| + |y|];
    assert w[..|x|] == x && w[|x|..] == y;
    assert data[pos..pos + |x|] == w[..|x|];
    assert data[pos + |x|..pos + |x| + |y|] == w[|x|..];
  }

  /** A separator and a line ending that a quoted line can be read back with. */
  predicate QuotingConfig(cfg: Config)
  {
    && 1 <= |cfg.ending| <= 2
    && cfg.sep != cfg.ending[0] && cfg.sep != QUOTE && cfg.ending[0] != QUOTE
  }

  /** At `pos`, each field of `vs` quoted, a separator after each but the last, and the line ending after it. */
  predicate QuotedFieldsAt(cfg: Config, data: Bytes, pos: nat, vs: seq<Bytes>)
    requires |vs| >= 1
    decreases |vs|
  {
    var q := Quote(vs[0]);
    && At(data, pos, q)
    && if |vs| == 1 then At(data, pos + |q|, cfg.ending)
       else pos + |q| < |data| && data[pos + |q|] == cfg.sep && QuotedFieldsAt(cfg, data, pos + |q| + 1, vs[1..])
  }

  /** The line of one quoted field is that field quoted. */
  lemma QuotedLineOne(v: Bytes, sep: Byte)
    ensures QuotedLine([v], sep) == Quote(v)
  {
  }

  /** The line of several quoted fields: the first one quoted, the separator, then the others. */
  lemma QuotedLineCons(vs: seq<Bytes>, sep: Byte)
    requires |vs| >= 2
    ensures QuotedLine(vs, sep) == Quote(vs[0]) + [sep] + QuotedLine(vs[1..], sep)
  {
  }

  /** The first of several quoted fields and the separator stand before the rest of the line. */
  lemma QuotedHeadAt(cfg: Config, data: Bytes, pos: nat, vs: seq<Bytes>)
    requires |vs| >= 2 && At(data, pos, QuotedLine(vs, cfg.sep) + cfg.ending)
    ensures At(data, pos, Quote(vs[0])) && pos + |Quote(vs[0])| < |data| && data[pos + |Quote(vs[0])|] == cfg.sep
    ensures At(data, pos + |Quote(vs[0])| + 1, QuotedLine(vs[1..], cfg.sep) + cfg.ending)
  {
    var q := Quote(vs[0]);
    var lr := QuotedLine(vs[1..], cfg.sep);
    QuotedLineCons(vs, cfg.sep);
    Regroup(q + [cfg.sep], lr, cfg.ending);
    Regroup(q, [cfg.sep], lr + cfg.ending);
    AtSplit(data, pos, q, [cfg.sep] + (lr + cfg.ending));
    AtSplit(data, pos + |q|, [cfg.sep], lr + cfg.ending);
    assert data[pos + |q|] == data[pos + |q|..pos + |q| + 1][0];
  }

  /** A quoted line followed by the line ending stands there field by field. */
  lemma {:induction false} QuotedFieldsOf(cfg: Config, data: Bytes, pos: nat, vs: seq<Bytes>)
    requires |vs| >= 1 && At(data, pos, QuotedLine(vs, cfg.sep) + cfg.ending)
    ensures QuotedFieldsAt(cfg, data, pos, vs)
    decreases |vs|
  {
    if |vs| == 1 {
      QuotedLineOne(vs[0], cfg.sep);
      AtSplit(data, pos, Quote(vs[0]), cfg.ending);
    } else {
      QuotedHeadAt(cfg, data, pos, vs);
      QuotedFieldsOf(cfg, data, pos + |Quote(vs[0])| + 1, vs[1..]);
    }
  }

  /** The last quoted field of a line, then the line ending: the field and the record close. */
  lemma QuotedLast(cfg: Config, data: Bytes, pos: nat, fields: seq<Bytes>, v: Bytes)
    requires Tokenizable(data, cfg.ending) && QuotingConfig(cfg) && QuotedFieldsAt(cfg, data, pos, [v])
    ensures ScanDelimited(cfg, data, Scan(pos, [], fields, false))
      == (Scan(pos + |Quote(v)| + |cfg.ending|, [], fields + [Repair(v)], false), false)
  {
    QuotedFieldOpen(cfg, data, pos, fields, v);
    var s := Scan(pos + |Quote(v)| - 1, v, fields, true);
    var t := Scan(pos + |Quote(v)| + |cfg.ending|, [], fields + [Repair(v)], false);
    CloseAtEnding(cfg, data, s);
    assert Close(s, s.pos + 1 + |cfg.ending|) == t;
    ScanDone(cfg, data, s, t, false);
  }

  /** The first of several quoted fields, then the separator: the field closes and the next begins. */
  lemma QuotedNext(cfg: Config, data: Bytes, pos: nat, fields: seq<Bytes>, vs: seq<Bytes>)
    requires Tokenizable(data, cfg.ending) && QuotingConfig(cfg) && |vs| >= 2 && QuotedFieldsAt(cfg, data, pos, vs)
    ensures ScanDelimited(cfg, data, Scan(pos, [], fields, false))
      == ScanDelimited(cfg, data, Scan(pos + |Quote(vs[0])| + 1, [], fields + [Repair(vs[0])], false))
  {
    QuotedFieldOpen(cfg, data, pos, fields, vs[0]);
    var s := Scan(pos + |Quote(vs[0])| - 1, vs[0], fields, true);
    var t := Scan(pos + |Quote(vs[0])| + 1, [], fields + [Repair(vs[0])], false);
    CloseAtSeparator(cfg, data, s);
    assert Close(s, s.pos + 2) == t;
    ScanNext(cfg, data, s, t);
  }

  /**
   * A quoted field and the byte after it, any byte but a quote or the
   * ending's first byte: the field closes, that byte is dropped, and the next
   * field starts after it.
   */
  lemma QuotedFieldSkipsByte(cfg: Config, data: Bytes, pos: nat, fields: seq<Bytes>, v: Bytes)
    requires Tokenizable(data, cfg.ending)
    requires At(data, pos, Quote(v)) && pos + |Quote(v)| < |data|
    requires data[pos + |Quote(v)|] != QUOTE && (|cfg.ending| == 0 || data[pos + |Quote(v)|] != cfg.ending[0])
    ensures ScanDelimited(cfg, data, Scan(pos, [], fields, false))
      == ScanDelimited(cfg, data, Scan(pos + |Quote(v)| + 1, [], fields + [Repair(v)], false))
  {
    QuotedFieldOpen(cfg, data, pos, fields, v);
    var s := Scan(pos + |Quote(v)| - 1, v, fields, true);
    var t := Scan(pos + |Quote(v)| + 1, [], fields + [Repair(v)], false);
    CloseSkipsByte(cfg, data, s);
    assert Close(s, s.pos + 2) == t;
    ScanNext(cfg, data, s, t);
  }

  /** The loop over two quoted fields with any byte between them but a quote or the ending's first byte. */
  lemma QuotedPairScan(cfg: Config, data: Bytes, pos: nat, fields: seq<Bytes>, v: Bytes, w: Bytes, b: Byte)
    requires Tokenizable(data, cfg.ending) && QuotingConfig(cfg)
    requires b != QUOTE && b != cfg.ending[0]
    requires At(data, pos, Quote(v)) && pos + |Quote(v)| < |data| && data[pos + |Quote(v)|] == b
    requires QuotedFieldsAt(cfg, data, pos + |Quote(v)| + 1, [w])
    ensures ScanDelimited(cfg, data, Scan(pos, [], fields, false))
      == (Scan(pos + |Quote(v)| + 1 + |Quote(w)| + |cfg.ending|, [], fields + [Repair(v)] + [Repair(w)], false), false)
  {
    var after := Scan(pos + |Quote(v)| + 1, [], fields + [Repair(v)], false);
    var r := (Scan(pos + |Quote(v)| + 1 + |Quote(w)| + |cfg.ending|, [], fields + [Repair(v)] + [Repair(w)], false), false);
    QuotedLast(cfg, data, pos + |Quote(v)| + 1, fields + [Repair(v)], w);
    assert ScanDelimited(cfg, data, after) == r;
    QuotedFieldThen(cfg, data, pos, fields, v, r);
  }

  /** What the loop gives after a quoted field and the byte it drops is what it gives from the field's start. */
  lemma QuotedFieldThen(cfg: Config, data: Bytes, pos: nat, fields: seq<Bytes>, v: Bytes, r: (Scan, bool))
    requires Tokenizable(data, cfg.ending)
    requires At(data, pos, Quote(v)) && pos + |Quote(v)| < |data|
    requires data[pos + |Quote(v)|] != QUOTE && (|cfg.ending| == 0 || data[pos + |Quote(v)|] != cfg.ending[0])
    requires ScanDelimited(cfg, data, Scan(pos + |Quote(v)| + 1, [], fields + [Repair(v)], false)) == r
    ensures ScanDelimited(cfg, data, Scan(pos, [], fields, false)) == r
  {
    QuotedFieldSkipsByte(cfg, data, pos, fields, v);
  }

  /** Where the parts of `"v"b"w"` and the ending lie. */
  lemma QuotedPairAt(cfg: Config, data: Bytes, pos: nat, v: Bytes, w: Bytes, b: Byte)
    requires At(data, pos, Quote(v) + [b] + Quote(w) + cfg.ending)
    ensures At(data, pos, Quote(v)) && pos + |Quote(v)| < |data| && data[pos + |Quote(v)|] == b
    ensures QuotedFieldsAt(cfg, data, pos + |Quote(v)| + 1, [w])
  {
    var qv, qw := Quote(v), Quote(w);
    Regroup(qv + [b], qw, cfg.ending);
    AtSplit(data, pos, qv + [b], qw + cfg.ending);
    AtSplit(data, pos, qv, [b]);
    assert data[pos + |qv|] == b;
    AtSplit(data, pos + |qv| + 1, qw, cfg.ending);
  }

  /**
   * Two quoted fields with any byte between them but a quote or the
   * ending's first byte, then the line ending: the two fields, the byte
   * between them lost when it is not the separator.
   */
  lemma QuotedPairAnyByte(cfg: Config, data: Bytes, pos: nat, v: Bytes, w: Bytes, b: Byte)
    requires Tokenizable(data, cfg.ending) && |cfg.plan| == 0 && QuotingConfig(cfg)
    requires b != QUOTE && b != cfg.ending[0]
    requires At(data, pos, Quote(v) + [b] + Quote(w) + cfg.ending)
    ensures ReadRecord(cfg, data, pos) ==
      ReadResult(true, Stripped(cfg, [Repair(v), Repair(w)]), pos + |Quote(v)| + 1 + |Quote(w)| + |cfg.ending|, false)
  {
    QuotedPairAt(cfg, data, pos, v, w, b);
    QuotedPairScan(cfg, data, pos, [], v, w, b);
    assert [] + [Repair(v)] + [Repair(w)] == [Repair(v), Repair(w)];
    var t := Scan(pos + |Quote(v)| + 1 + |Quote(w)| + |cfg.ending|, [], [Repair(v), Repair(w)], false);
    ReadDelimitedOf(cfg, data, pos, t, false);
  }

  /** The end of the loop over a line of quoted fields, as `QuotedFieldsScan` states it. */
  predicate QuotedScanEnds(cfg: Config, data: Bytes, pos: nat, fields: seq<Bytes>, vs: seq<Bytes>)
    requires Tokenizable(data, cfg.ending) && |vs| >= 1
  {
    ScanDelimited(cfg, data, Scan(pos, [], fields, false))
      == (Scan(pos + |QuotedLine(vs, cfg.sep)| + |cfg.ending|, [], fields + RepairAll(vs), false), false)
  }

  lemma QuotedScanOne(cfg: Config, data: Bytes, pos: nat, fields: seq<Bytes>, vs: seq<Bytes>)
    requires Tokenizable(data, cfg.ending) && QuotingConfig(cfg) && |vs| == 1 && QuotedFieldsAt(cfg, data, pos, vs)
    ensures QuotedScanEnds(cfg, data, pos, fields, vs)
  {
    assert vs == [vs[0]];
    QuotedLast(cfg, data, pos, fields, vs[0]);
    QuotedLineOne(vs[0], cfg.sep);
    assert RepairAll(vs) == [Repair(vs[0])];
  }

  lemma QuotedScanMore(cfg: Config, data: Bytes, pos: nat, fields: seq<Bytes>, vs: seq<Bytes>)
    requires Tokenizable(data, cfg.ending) && QuotingConfig(cfg) && |vs| >= 2 && QuotedFieldsAt(cfg, data, pos, vs)
    requires QuotedScanEnds(cfg, data, pos + |Quote(vs[0])| + 1, fields + [Repair(vs[0])], vs[1..])
    ensures QuotedScanEnds(cfg, data, pos, fields, vs)
  {
    QuotedNext(cfg, data, pos, fields, vs);
    QuotedConsEnd(pos, fields, vs, cfg.sep);
  }

  /** Where the rest of the line ends and what it adds, measured from the first field. */
  lemma QuotedConsEnd(pos: nat, fields: seq<Bytes>, vs: seq<Bytes>, sep: Byte)
    requires |vs| >= 2
    ensures pos + |Quote(vs[0])| + 1 + |QuotedLine(vs[1..], sep)| == pos + |QuotedLine(vs, sep)|
    ensures fields + [Repair(vs[0])] + RepairAll(vs[1..]) == fields + RepairAll(vs)
  {
    QuotedLineCons(vs, sep);
    assert RepairAll(vs) == [Repair(vs[0])] + RepairAll(vs[1..]);
  }

  /** A line of quoted fields and the line ending: the loop ends after the ending with every field closed. */
  lemma {:induction false} QuotedFieldsScan(cfg: Config, data: Bytes, pos: nat, fields: seq<Bytes>, vs: seq<Bytes>)
    requires Tokenizable(data, cfg.ending) && QuotingConfig(cfg) && |vs| >= 1 && QuotedFieldsAt(cfg, data, pos, vs)
    ensures QuotedScanEnds(cfg, data, pos, fields, vs)
    decreases |vs|
  {
    if |vs| == 1 {
      QuotedScanOne(cfg, data, pos, fields, vs);
    } else {
      QuotedFieldsScan(cfg, data, pos + |Quote(vs[0])| + 1, fields + [Repair(vs[0])], vs[1..]);
      QuotedScanMore(cfg, data, pos, fields, vs);
    }
  }

  /**
   * The writer round trip: fields written quoted (quotes doubled), joined
   * with the separator and followed by the line ending are read back as the
   * same fields, repaired to UTF-8, even when they contain separators, quotes
   * or line breaks. A line holding just one empty quoted field reads like an
   * empty line.
   */
  lemma QuotedRoundTrip(cfg: Config, data: Bytes, pos: nat, vs: seq<Bytes>)
    requires Tokenizable(data, cfg.ending) && |cfg.plan| == 0 && QuotingConfig(cfg) && |vs| >= 1
    requires At(data, pos, QuotedLine(vs, cfg.sep) + cfg.ending)
    ensures ReadRecord(cfg, data, pos) ==
      ReadResult(
        if vs == [[]] then !cfg.ignoreEmpty else true,
        if vs == [[]] then [[]] else Stripped(cfg, RepairAll(vs)),
        pos + |QuotedLine(vs, cfg.sep)| + |cfg.ending|,
        false)
  {
    var end := pos + |QuotedLine(vs, cfg.sep)| + |cfg.ending|;
    QuotedFieldsOf(cfg, data, pos, vs);
    QuotedFieldsScan(cfg, data, pos, [], vs);
    assert [] + RepairAll(vs) == RepairAll(vs);
    ReadDelimitedOf(cfg, data, pos, Scan(end, [], RepairAll(vs), false), false);
    QuotedFinish(cfg, end, vs);
  }

  /** The final checks on a line of closed fields: only a single empty field is an empty line. */
  lemma QuotedFinish(cfg: Config, p: nat, vs: seq<Bytes>)
    requires |vs| >= 1
    ensures FinishDelimited(cfg, Scan(p, [], RepairAll(vs), false)) ==
      (if vs == [[]] then !cfg.ignoreEmpty else true, if vs == [[]] then [[]] else Stripped(cfg, RepairAll(vs)))
  {
    var fs := RepairAll(vs);
    RepairSpec(vs[0]);
    if |vs| == 1 && fs[0] == [] {
      assert vs == [[]];
      assert fs == [[]];
    } else {
      assert vs != [[]];
      assert fs != [];
    }
  }

  // ----------------------------------------------------- end of the stream

  /** At the end of the stream no record is read, and the end-of-file flag is set. */
  lemma ReadLineAtEnd(cfg: Config, data: Bytes, pos: nat)
    requires Tokenizable(data, cfg.ending) && pos >= |data|
    ensures ReadLine(cfg, data, pos) == ReadResult(false, [], pos, true)
    ensures Records(cfg, data, pos) == []
  {
  }

  // ------------------------------------------------------------ fixed width

  /** A line that ends with the line ending is gathered without it, the cursor after the ending. */
  lemma {:induction false} GatherTerminated(cfg: Config, data: Bytes, pos: nat, acc: Bytes, line: Bytes)
    requires Tokenizable(data, cfg.ending) && 1 <= |cfg.ending| <= 2
    requires pos + |line| + |cfg.ending| <= |data|
    requires data[pos..pos + |line|] == line && data[pos + |line|..pos + |line| + |cfg.ending|] == cfg.ending
    requires cfg.ending[0] !in line
    ensures GatherLine(cfg, data, pos, acc) == (acc + line, pos + |line| + |cfg.ending|, false)
    decreases |line|
  {
    if line == [] {
      assert data[pos] == cfg.ending[0];
      if |cfg.ending| == 2 {
        assert data[pos + 1] == cfg.ending[1];
      }
      assert acc + line == acc;
    } else {
      assert data[pos] == line[0];
      assert data[pos + 1..pos + 1 + |line[1..]|] == line[1..];
      GatherTerminated(cfg, data, pos + 1, acc + [line[0]], line[1..]);
      assert acc + [line[0]] + line[1..] == acc + line;
    }
  }

  /** The last line, without a line ending, is gathered to the end with the end-of-file flag set. */
  lemma {:induction false} GatherLast(cfg: Config, data: Bytes, pos: nat, acc: Bytes)
    requires Tokenizable(data, cfg.ending) && pos <= |data|
    requires |cfg.ending| == 0 || cfg.ending[0] !in data[pos..]
    ensures GatherLine(cfg, data, pos, acc) == (acc + data[pos..], |data|, true)
    decreases |data| - pos
  {
    if pos == |data| {
      assert acc + data[pos..] == acc;
    } else {
      assert data[pos..] == [data[pos]] + data[pos + 1..];
      GatherLast(cfg, data, pos + 1, acc + [data[pos]]);
      assert acc + [data[pos]] + data[pos + 1..] == acc + data[pos..];
    }
  }

  /** Total of the widths. */
  function Sum(ws: seq<int>): int
  {
    if ws == [] then 0 else ws[0] + Sum(ws[1..])
  }

  lemma {:induction false} SumNonNegative(ws: seq<int>)
    requires forall i :: 0 <= i < |ws| ==> ws[i] >= 0
    ensures Sum(ws) >= 0
  {
    if ws != [] {
      assert forall i :: 0 <= i < |ws[1..]| ==> ws[1..][i] == ws[i + 1];
      SumNonNegative(ws[1..]);
    }
  }

  predicate AllPositive(ws: seq<int>)
  {
    forall i :: 0 <= i < |ws| ==> ws[i] > 0
  }

  /** The characters of the columns, one after another. */
  function Concat<T>(cols: seq<seq<T>>): seq<T>
  {
    if cols == [] then [] else cols[0] + Concat(cols[1..])
  }

  /** Each column as a string. */
  function FlattenEach<T>(cols: seq<seq<seq<T>>>): (r: seq<seq<T>>)
  {
    if cols == [] then [] else [Flatten(cols[0])] + FlattenEach(cols[1..])
  }

  /** One column cut: the characters from `start` up to its width or the end of the line. */
  lemma SliceStep<T>(cs: seq<seq<T>>, plan: seq<int>, start: nat)
    requires plan != [] && start < |cs| && plan[0] >= 0
    ensures SliceFields(cs, plan, start)
      == [Flatten(cs[start..Min(start + plan[0], |cs|)])] + SliceFields(cs, plan[1..], start + plan[0])
  {
  }

  /** The characters of `cs` from `a` to `c`, read as two strings cut at `b`. */
  lemma FlattenSplit<T>(cs: seq<seq<T>>, a: nat, b: nat, c: nat)
    requires a <= b <= c <= |cs|
    ensures Flatten(cs[a..c]) == Flatten(cs[a..b]) + Flatten(cs[b..c])
  {
    assert cs[a..c] == cs[a..b] + cs[b..c];
    FlattenAppend(cs[a..b], cs[b..c]);
  }

  /** A one-element list of strings flattens to its element. */
  lemma FlattenSingle<T>(x: seq<T>, ys: seq<seq<T>>)
    ensures Flatten([x] + ys) == x + Flatten(ys)
  {
    assert ([x] + ys)[1..] == ys;
  }

  /** The columns from `start` read together are the characters up to the total width or the end of the line. */
  ghost predicate Covers<T>(cs: seq<seq<T>>, plan: seq<int>, start: nat)
    requires start <= |cs| && Sum(plan) >= 0
  {
    Flatten(SliceFields(cs, plan, start)) == Flatten(cs[start..Min(start + Sum(plan), |cs|)])
  }

  /**
   * With non-negative widths the columns cover the line from `start`: read
   * together they are the characters up to the total width or the end of the
   * line (and `SliceFields` gives at most one column per width).
   */
  lemma {:induction false} SliceCovers<T>(cs: seq<seq<T>>, plan: seq<int>, start: nat)
    requires forall i :: 0 <= i < |plan| ==> plan[i] >= 0
    requires start <= |cs| && Sum(plan) >= 0
    ensures Covers(cs, plan, start)
    decreases |plan|
  {
    if plan == [] || start >= |cs| {
      SliceNone(cs, plan, start);
    } else {
      NonNegativeTail(plan);
      if start + plan[0] >= |cs| {
        SliceLast(cs, plan, start);
      } else {
        SliceCovers(cs, plan[1..], start + plan[0]);
        SliceCoversStep(cs, plan, start);
      }
    }
  }

  /** The widths before column `i + 1`, counted from the second width on. */
  lemma SumPrefixCons(plan: seq<int>, i: nat)
    requires i < |plan|
    ensures Sum(plan[..i + 1]) == plan[0] + Sum(plan[1..][..i])
  {
    assert plan[..i + 1][1..] == plan[1..][..i];
  }

  /**
   * Column `i` of `r` starts at `start` plus the widths before it, inside
   * the line, and holds the characters from there up to its own width or the
   * end of the line.
   */
  ghost predicate ColumnAt<T>(cs: seq<seq<T>>, plan: seq<int>, start: nat, r: seq<seq<T>>, i: nat)
  {
    && i < |r| && i < |plan| && plan[i] >= 0
    && 0 <= start + Sum(plan[..i]) < |cs|
    && r[i] == Flatten(cs[start + Sum(plan[..i])..Min(start + Sum(plan[..i]) + plan[i], |cs|)])
  }

  /** Every column of `r` is where `ColumnAt` says. */
  ghost predicate Columns<T>(cs: seq<seq<T>>, plan: seq<int>, start: nat, r: seq<seq<T>>)
  {
    forall i: nat :: i < |r| ==> ColumnAt(cs, plan, start, r, i)
  }

  /** The columns stop after the last width, or where the next one would start at or past the end of the line. */
  predicate StopsAtEnd<T>(cs: seq<seq<T>>, plan: seq<int>, start: nat, n: nat)
  {
    n < |plan| ==> start + Sum(plan[..n]) >= |cs|
  }

  /** Column `i` of the columns after the first is column `i + 1` of all of them. */
  lemma ColumnShift<T>(cs: seq<seq<T>>, plan: seq<int>, start: nat, x: seq<T>, rest: seq<seq<T>>, i: nat)
    requires plan != [] && plan[0] >= 0
    requires ColumnAt(cs, plan[1..], start + plan[0], rest, i)
    ensures ColumnAt(cs, plan, start, [x] + rest, i + 1)
  {
    SumPrefixCons(plan, i);
    assert ([x] + rest)[i + 1] == rest[i] && plan[i + 1] == plan[1..][i];
  }

  /** A first column in front of columns that start one width further on. */
  lemma ColumnsCons<T>(cs: seq<seq<T>>, plan: seq<int>, start: nat, rest: seq<seq<T>>)
    requires plan != [] && plan[0] >= 0 && start < |cs|
    requires Columns(cs, plan[1..], start + plan[0], rest)
    ensures Columns(cs, plan, start, [Flatten(cs[start..Min(start + plan[0], |cs|)])] + rest)
  {
    var x := Flatten(cs[start..Min(start + plan[0], |cs|)]);
    var r := [x] + rest;
    assert plan[..0] == [];
    assert ColumnAt(cs, plan, start, r, 0);
    forall i: nat | 0 < i < |r|
      ensures ColumnAt(cs, plan, start, r, i)
    {
      ColumnShift(cs, plan, start, x, rest, i - 1);
    }
  }

  lemma StopsAtEndCons<T>(cs: seq<seq<T>>, plan: seq<int>, start: nat, n: nat)
    requires plan != [] && plan[0] >= 0
    requires StopsAtEnd(cs, plan[1..], start + plan[0], n)
    ensures StopsAtEnd(cs, plan, start, n + 1)
  {
    if n + 1 < |plan| {
      SumPrefixCons(plan, n);
    }
  }

  /**
   * With non-negative widths, column `i` starts at `start` plus the widths
   * before it and holds at most its own width of characters; the columns
   * stop after the last width or at the first one that would start at or
   * past the end of the line.
   */
  lemma {:induction false} SliceIndex<T>(cs: seq<seq<T>>, plan: seq<int>, start: nat)
    requires forall i :: 0 <= i < |plan| ==> plan[i] >= 0
    ensures Columns(cs, plan, start, SliceFields(cs, plan, start))
    ensures StopsAtEnd(cs, plan, start, |SliceFields(cs, plan, start)|)
    decreases |plan|
  {
    if plan == [] || start >= |cs| {
      SliceIndexNone(cs, plan, start);
    } else {
      NonNegativeTail(plan);
      SliceIndex(cs, plan[1..], start + plan[0]);
      SliceIndexStep(cs, plan, start);
    }
  }

  /** One column in front of the indexed columns of the rest. */
  lemma SliceIndexStep<T>(cs: seq<seq<T>>, plan: seq<int>, start: nat)
    requires plan != [] && plan[0] >= 0 && start < |cs|
    requires Columns(cs, plan[1..], start + plan[0], SliceFields(cs, plan[1..], start + plan[0]))
    requires StopsAtEnd(cs, plan[1..], start + plan[0], |SliceFields(cs, plan[1..], start + plan[0])|)
    ensures Columns(cs, plan, start, SliceFields(cs, plan, start))
    ensures StopsAtEnd(cs, plan, start, |SliceFields(cs, plan, start)|)
  {
    var rest := SliceFields(cs, plan[1..], start + plan[0]);
    SliceStep(cs, plan, start);
    ColumnsCons(cs, plan, start, rest);
    StopsAtEndCons(cs, plan, start, |rest|);
  }

  /** No width left, or the start at or past the end of the line: no column. */
  lemma SliceIndexNone<T>(cs: seq<seq<T>>, plan: seq<int>, start: nat)
    requires plan == [] || start >= |cs|
    ensures SliceFields(cs, plan, start) == []
    ensures Columns(cs, plan, start, []) && StopsAtEnd(cs, plan, start, 0)
  {
    assert plan[..0] == [];
  }

  /** The columns from the end of the first column cover the rest of the covered line. */
  lemma SliceCoversStep<T>(cs: seq<seq<T>>, plan: seq<int>, start: nat)
    requires plan != [] && plan[0] >= 0 && start + plan[0] < |cs| && Sum(plan[1..]) >= 0 && Sum(plan) >= 0
    requires Covers(cs, plan[1..], start + plan[0])
    ensures Covers(cs, plan, start)
  {
    var end := Min(start + Sum(plan), |cs|);
    CoverEnd(plan, start, |cs|);
    assert Min(start + plan[0] + Sum(plan[1..]), |cs|) == end;
    SliceMiddle(cs, plan, start, end);
  }

  /** The widths after the first are non-negative too, and so is their total. */
  lemma NonNegativeTail(plan: seq<int>)
    requires plan != [] && forall i :: 0 <= i < |plan| ==> plan[i] >= 0
    ensures forall i :: 0 <= i < |plan[1..]| ==> plan[1..][i] >= 0
    ensures plan[0] >= 0 && Sum(plan[1..]) >= 0
  {
    var rest := plan[1..];
    assert forall i :: 0 <= i < |rest| ==> rest[i] == plan[i + 1];
    SumNonNegative(rest);
  }

  /** No width left, or the start at the end of the line: no column, and nothing to cover. */
  lemma SliceNone<T>(cs: seq<seq<T>>, plan: seq<int>, start: nat)
    requires plan == [] || start == |cs|
    requires start <= |cs| && Sum(plan) >= 0
    ensures Covers(cs, plan, start)
  {
    assert Min(start + Sum(plan), |cs|) == start;
    assert cs[start..start] == [];
  }

  /** The column that reaches the end of the line is the last one. */
  lemma SliceLast<T>(cs: seq<seq<T>>, plan: seq<int>, start: nat)
    requires plan != [] && plan[0] >= 0 && start < |cs| <= start + plan[0] && Sum(plan[1..]) >= 0 && Sum(plan) >= 0
    ensures Covers(cs, plan, start)
  {
    var x := Flatten(cs[start..|cs|]);
    var tail := SliceFields(cs, plan[1..], start + plan[0]);
    SliceStep(cs, plan, start);
    assert tail == [];
    FlattenSingle(x, tail);
    assert Min(start + Sum(plan), |cs|) == |cs|;
  }

  lemma SliceStepFlat<T>(cs: seq<seq<T>>, plan: seq<int>, start: nat)
    requires plan != [] && plan[0] >= 0 && start + plan[0] < |cs|
    ensures Flatten(SliceFields(cs, plan, start))
      == Flatten(cs[start..start + plan[0]]) + Flatten(SliceFields(cs, plan[1..], start + plan[0]))
  {
    SliceStep(cs, plan, start);
    FlattenSingle(Flatten(cs[start..start + plan[0]]), SliceFields(cs, plan[1..], start + plan[0]));
  }

  lemma SumStep(plan: seq<int>)
    requires plan != []
    ensures Sum(plan) == plan[0] + Sum(plan[1..])
  {
  }

  /** Where the columns after the first end is where all of them end. */
  lemma CoverEnd(plan: seq<int>, start: nat, n: nat)
    requires plan != [] && plan[0] >= 0 && start + plan[0] < n && Sum(plan[1..]) >= 0
    ensures Min(start + Sum(plan), n) == Min(start + plan[0] + Sum(plan[1..]), n)
    ensures start + plan[0] <= Min(start + Sum(plan), n) <= n
  {
    SumStep(plan);
  }

  /** A column that ends inside the line is followed by the columns from its end. */
  lemma SliceMiddle<T>(cs: seq<seq<T>>, plan: seq<int>, start: nat, end: nat)
    requires plan != [] && plan[0] >= 0 && start + plan[0] < |cs| && start + plan[0] <= end <= |cs|
    requires Flatten(SliceFields(cs, plan[1..], start + plan[0])) == Flatten(cs[start + plan[0]..end])
    ensures Flatten(SliceFields(cs, plan, start)) == Flatten(cs[start..end])
  {
    var next := start + plan[0];
    SliceStepFlat(cs, plan, start);
    FlattenSplit(cs, start, next, end);
    calc {
      Flatten(SliceFields(cs, plan, start));
      Flatten(cs[start..next]) + Flatten(SliceFields(cs, plan[1..], next));
      Flatten(cs[start..next]) + Flatten(cs[next..end]);
      Flatten(cs[start..end]);
    }
  }

  /** `SliceFields` unfolded once, for a start inside the line whose first column is `x`. */
  lemma SliceCons<T>(cs: seq<seq<T>>, plan: seq<int>, start: int, x: seq<seq<T>>)
    requires plan != [] && 0 <= start < |cs| && Substr(cs, start, plan[0]) == x
    ensures SliceFields(cs, plan, start) == [Flatten(x)] + SliceFields(cs, plan[1..], start + plan[0])
  {
  }

  lemma ConcatCons<T>(cols: seq<seq<T>>)
    requires cols != []
    ensures Concat(cols) == cols[0] + Concat(cols[1..])
  {
  }

  lemma FlattenEachCons<T>(cols: seq<seq<seq<T>>>)
    requires cols != []
    ensures FlattenEach(cols) == [Flatten(cols[0])] + FlattenEach(cols[1..])
  {
  }

  /** The widths and columns after the first still match one for one. */
  lemma ColumnsTail<T>(cols: seq<seq<seq<T>>>, plan: seq<int>)
    requires cols != [] && |cols| == |plan| && AllPositive(plan)
    requires forall i :: 0 <= i < |cols| ==> |cols[i]| == plan[i]
    ensures |cols[1..]| == |plan[1..]| && AllPositive(plan[1..])
    ensures forall i :: 0 <= i < |cols[1..]| ==> |cols[1..][i]| == plan[1..][i]
    ensures |cols[0]| == plan[0] > 0
  {
  }

  /** The first column cut off, the rest of the line is cut as the remaining columns. */
  lemma FixedWidthStep<T>(cols: seq<seq<seq<T>>>, plan: seq<int>, prefix: seq<seq<T>>)
    requires cols != [] && plan != [] && |cols[0]| == plan[0] > 0
    requires SliceFields(prefix + cols[0] + Concat(cols[1..]), plan[1..], |prefix| + plan[0]) == FlattenEach(cols[1..])
    ensures SliceFields(prefix + Concat(cols), plan, |prefix|) == FlattenEach(cols)
  {
    var x := cols[0];
    var rest := Concat(cols[1..]);
    var cs := prefix + x + rest;
    ConcatCons(cols);
    AppendAssoc(prefix, x, rest);
    assert cs[|prefix|..|prefix| + |x|] == x;
    assert Substr(cs, |prefix|, plan[0]) == x;
    SliceCons(cs, plan, |prefix|, x);
    FlattenEachCons(cols);
  }

  lemma AppendAssoc<T>(a: seq<T>, b: seq<T>, c: seq<T>)
    ensures a + (b + c) == a + b + c
  {
  }

  /**
   * The fixed-width writer round trip: columns of exactly the planned
   * positive widths, written one after another, are cut back into the same columns.
   */
  lemma {:induction false} FixedWidthRoundTrip<T>(cols: seq<seq<seq<T>>>, plan: seq<int>, prefix: seq<seq<T>>)
    requires |cols| == |plan| && AllPositive(plan)
    requires forall i :: 0 <= i < |cols| ==> |cols[i]| == plan[i]
    ensures SliceFields(prefix + Concat(cols), plan, |prefix|) == FlattenEach(cols)
    decreases |cols|
  {
    if cols == [] {
      assert plan == [];
    } else {
      ColumnsTail(cols, plan);
      FixedWidthRoundTrip(cols[1..], plan[1..], prefix + cols[0]);
      assert |prefix + cols[0]| == |prefix| + plan[0];
      FixedWidthStep(cols, plan, prefix);
    }
  }
}
