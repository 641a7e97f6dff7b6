/**
 * What loading a stream detects, as values: the byte-order-mark table and
 * its longest-match rule, the separator chosen from the four counters, and
 * the line-ending and field-count scans over the first physical line.
 * The loops that compute them are methods of `CsvReaders.CsvReader`.
 */
module Sniffing {
  import opened Bytes

  // ---------------------------------------------------------------- separators

  /** The candidate separators in the order of the counter map: `,` `;` TAB `|`. */
  const Candidates: seq<Byte> := [COMMA, SEMICOLON, TAB, PIPE]

  predicate IsCandidate(b: Byte)
  {
    b == COMMA || b == SEMICOLON || b == TAB || b == PIPE
  }

  /** A counter map: one count per candidate separator. */
  type Counters = map<Byte, nat>

  predicate HasCounters(m: Counters)
  {
    COMMA in m && SEMICOLON in m && TAB in m && PIPE in m
  }

  /** The initial value of the counter map: every count 0. */
  const ZeroCounters: Counters := map[COMMA := 0, SEMICOLON := 0, TAB := 0, PIPE := 0]

  /** `m` with the counter of `b` raised by one when `b` is a candidate: one turn of a counting loop. */
  function Bump(m: Counters, b: Byte): (r: Counters)
    requires HasCounters(m)
    ensures HasCounters(r)
  {
    if IsCandidate(b) then m[b := m[b] + 1] else m
  }

  /** `m` after a counting loop over the bytes of `s`. */
  function AddCounts(m: Counters, s: Bytes): (r: Counters)
    requires HasCounters(m)
    ensures HasCounters(r)
  {
    if s == [] then m else AddCounts(Bump(m, s[0]), s[1..])
  }

  /** Counting over `[b] + t` is one turn on `b`, then counting over `t`. */
  lemma AddCountsCons(m: Counters, b: Byte, t: Bytes)
    requires HasCounters(m)
    ensures AddCounts(m, [b] + t) == AddCounts(Bump(m, b), t)
  {
    assert ([b] + t)[1..] == t;
  }

  /**
   * Each candidate's counter goes up by its number of occurrences in `s`;
   * the counter of any other key keeps its value.
   */
  lemma {:induction false} AddCountsSpec(m: Counters, s: Bytes, c: Byte)
    requires HasCounters(m) && c in m
    ensures c in AddCounts(m, s)
    ensures AddCounts(m, s)[c] == if IsCandidate(c) then m[c] + Count(s, c) else m[c]
  {
    if s != [] {
      AddCountsSpec(Bump(m, s[0]), s[1..], c);
    }
  }

  /**
   * The separator the selection loop picks AS WRITTEN: its threshold
   * `maxValue` is never raised above 0, so it keeps the LAST candidate, in
   * the order `,` `;` TAB `|`, whose count is positive; `current` when every
   * count is 0. The reader model runs this choice; `ChooseSeparator` is the
   * intended one.
   */
  function ChooseSeparatorAsWritten(m: Counters, current: Byte): (r: Byte)
    requires HasCounters(m)
    ensures (forall i :: 0 <= i < 4 ==> m[Candidates[i]] == 0) ==> r == current
    ensures (exists i :: 0 <= i < 4 && m[Candidates[i]] > 0) ==>
      exists j :: 0 <= j < 4 && r == Candidates[j] && m[r] > 0
        && forall k :: j < k < 4 ==> m[Candidates[k]] == 0
  {
    assert Candidates[0] == COMMA && Candidates[1] == SEMICOLON;
    assert Candidates[2] == TAB && Candidates[3] == PIPE;
    if m[PIPE] > 0 then PIPE
    else if m[TAB] > 0 then TAB
    else if m[SEMICOLON] > 0 then SEMICOLON
    else if m[COMMA] > 0 then COMMA
    else current
  }

  /**
   * `detectSeparator($line)` as written: the LAST candidate, in the order
   * `,` `;` TAB `|`, that occurs in `line` at all; `,` when none occurs.
   */
  function SeparatorOfAsWritten(line: Bytes): (r: Byte)
    ensures IsCandidate(r)
    ensures (forall j :: 0 <= j < 4 ==> Candidates[j] !in line) ==> r == COMMA
    ensures (exists j :: 0 <= j < 4 && Candidates[j] in line) ==>
      exists j :: 0 <= j < 4 && r == Candidates[j] && r in line
        && forall k :: j < k < 4 ==> Candidates[k] !in line
  {
    AddCountsSpec(ZeroCounters, line, COMMA);
    AddCountsSpec(ZeroCounters, line, SEMICOLON);
    AddCountsSpec(ZeroCounters, line, TAB);
    AddCountsSpec(ZeroCounters, line, PIPE);
    assert Candidates[0] == COMMA && Candidates[1] == SEMICOLON;
    assert Candidates[2] == TAB && Candidates[3] == PIPE;
    ChooseSeparatorAsWritten(AddCounts(ZeroCounters, line), COMMA)
  }

  /**
   * The selection loop as written over the counters in the order `,` `;`
   * TAB `|` after `j` keys: the last key seen with a positive count, 0 (the
   * NUL sentinel) if none.
   */
  function LastPositive(m: Counters, j: nat): (b: Byte)
    requires HasCounters(m) && j <= 4
  {
    if j == 0 then 0
    else if m[Candidates[j - 1]] > 0 then Candidates[j - 1]
    else LastPositive(m, j - 1)
  }

  /** The selection loop as written, with its sentinel test, is `ChooseSeparatorAsWritten`. */
  lemma LastPositiveChoice(m: Counters, current: Byte)
    requires HasCounters(m)
    ensures ChooseSeparatorAsWritten(m, current) == if LastPositive(m, 4) != 0 then LastPositive(m, 4) else current
  {
    assert Candidates[0] == COMMA && Candidates[1] == SEMICOLON;
    assert Candidates[2] == TAB && Candidates[3] == PIPE;
    assert LastPositive(m, 0) == 0;
    var l1 := LastPositive(m, 1);
    var l2 := LastPositive(m, 2);
    var l3 := LastPositive(m, 3);
    assert l1 == if m[COMMA] > 0 then COMMA else 0;
    assert l2 == if m[SEMICOLON] > 0 then SEMICOLON else l1;
    assert l3 == if m[TAB] > 0 then TAB else l2;
    assert LastPositive(m, 4) == if m[PIPE] > 0 then PIPE else l3;
  }

  /** As written, only whether a count is zero matters: counts above 1 never change the choice. */
  lemma ChoiceIgnoresMagnitude(m1: Counters, m2: Counters, current: Byte)
    requires HasCounters(m1) && HasCounters(m2)
    requires forall i :: 0 <= i < 4 ==> (m1[Candidates[i]] > 0 <==> m2[Candidates[i]] > 0)
    ensures ChooseSeparatorAsWritten(m1, current) == ChooseSeparatorAsWritten(m2, current)
  {
    assert Candidates[0] == COMMA && Candidates[1] == SEMICOLON;
    assert Candidates[2] == TAB && Candidates[3] == PIPE;
  }

  /**
   * The selection loop with its threshold raised to each larger count, as
   * its variable names say it is meant to be, after `j` keys: the key with
   * the largest count so far (the earliest among equal counts) and that
   * count, or (0, 0) while every count is 0.
   */
  function Strongest(m: Counters, j: nat): (r: (Byte, nat))
    requires HasCounters(m) && j <= 4
  {
    if j == 0 then (0, 0)
    else
      var (c, v) := Strongest(m, j - 1);
      var key := Candidates[j - 1];
      if m[key] > v then (key, m[key]) else (c, v)
  }

  lemma {:induction false} StrongestSpec(m: Counters, j: nat)
    requires HasCounters(m) && j <= 4
    ensures var (c, v) := Strongest(m, j);
      && (v == 0 ==> c == 0 && forall k :: 0 <= k < j ==> m[Candidates[k]] == 0)
      && (v > 0 ==> exists i :: (0 <= i < j && c == Candidates[i] && v == m[c]
            && (forall k :: 0 <= k < j ==> m[Candidates[k]] <= v)
            && (forall k :: 0 <= k < i ==> m[Candidates[k]] < v)))
  {
    if j > 0 {
      StrongestSpec(m, j - 1);
      var (c, v) := Strongest(m, j - 1);
      var key := Candidates[j - 1];
      if m[key] > v {
        assert forall k :: 0 <= k < j - 1 ==> m[Candidates[k]] < m[key];
      } else if v > 0 {
        var i :| 0 <= i < j - 1 && c == Candidates[i] && v == m[c]
          && (forall k :: 0 <= k < j - 1 ==> m[Candidates[k]] <= v)
          && (forall k :: 0 <= k < i ==> m[Candidates[k]] < v);
        assert forall k :: 0 <= k < j ==> m[Candidates[k]] <= v;
      }
    }
  }

  /**
   * The separator the selection loop evidently means to pick: the candidate
   * with the largest count, the earliest in the order `,` `;` TAB `|` among
   * equal counts; `current` when every count is 0.
   */
  function ChooseSeparator(m: Counters, current: Byte): (r: Byte)
    requires HasCounters(m)
    ensures (forall i :: 0 <= i < 4 ==> m[Candidates[i]] == 0) ==> r == current
    ensures (exists i :: 0 <= i < 4 && m[Candidates[i]] > 0) ==>
      exists j :: 0 <= j < 4 && r == Candidates[j] && m[r] > 0
        && (forall k :: 0 <= k < 4 ==> m[Candidates[k]] <= m[r])
        && (forall k :: 0 <= k < j ==> m[Candidates[k]] < m[r])
  {
    StrongestSpec(m, 4);
    var c := Strongest(m, 4).0;
    if c != 0 then c else current
  }

  /** Two commas and a pipe: as written the pipe wins, as intended the comma does. */
  lemma SeparatorChoiceDiscrepancy()
    ensures var m := map[COMMA := 2, SEMICOLON := 0, TAB := 0, PIPE := 1];
      ChooseSeparatorAsWritten(m, COMMA) == PIPE && ChooseSeparator(m, COMMA) == COMMA
  {
    var m := map[COMMA := 2, SEMICOLON := 0, TAB := 0, PIPE := 1];
    assert Strongest(m, 1) == (COMMA, 2);
  }

  /**
   * The separator `detectSeparator($line)` evidently means to return (the
   * corrected choice): the candidate that occurs most often in `line`, the
   * earliest in the order `,` `;` TAB `|` among equally frequent ones; `,`
   * when none occurs.
   */
  function SeparatorOf(line: Bytes): (r: Byte)
    ensures IsCandidate(r)
    ensures (forall j :: 0 <= j < 4 ==> Candidates[j] !in line) ==> r == COMMA
    ensures forall j :: 0 <= j < 4 ==> Count(line, Candidates[j]) <= Count(line, r)
    ensures forall j :: 0 <= j < 4 && Candidates[j] != r ==>
      Count(line, Candidates[j]) < Count(line, r) || exists i :: 0 <= i < j && r == Candidates[i]
  {
    AddCountsSpec(ZeroCounters, line, COMMA);
    AddCountsSpec(ZeroCounters, line, SEMICOLON);
    AddCountsSpec(ZeroCounters, line, TAB);
    AddCountsSpec(ZeroCounters, line, PIPE);
    assert Candidates[0] == COMMA && Candidates[1] == SEMICOLON;
    assert Candidates[2] == TAB && Candidates[3] == PIPE;
    ChooseSeparator(AddCounts(ZeroCounters, line), COMMA)
  }

  /** The line `,,|`: as written the pipe wins, as intended the comma does. */
  lemma LineSeparatorDiscrepancy(line: Bytes)
    requires line == [COMMA, COMMA, PIPE]
    ensures SeparatorOfAsWritten(line) == PIPE && SeparatorOf(line) == COMMA
  {
    assert line[1..] == [COMMA, PIPE] && line[1..][1..] == [PIPE];
    assert Count(line, COMMA) == 2 && Count(line, PIPE) == 1;
    var m := AddCounts(ZeroCounters, line);
    AddCountsSpec(ZeroCounters, line, COMMA);
    AddCountsSpec(ZeroCounters, line, SEMICOLON);
    AddCountsSpec(ZeroCounters, line, TAB);
    AddCountsSpec(ZeroCounters, line, PIPE);
    assert m[COMMA] == 2 && m[SEMICOLON] == 0 && m[TAB] == 0 && m[PIPE] == 1;
    assert Strongest(m, 1) == (COMMA, 2);
  }

  // ------------------------------------------------------------ byte-order mark

  datatype BomEntry = BomEntry(name: string, bytes: Bytes)

  /** `RAW_BOM_ENCODINGS`, in declaration order. */
  const BomTable: seq<BomEntry> := [
    BomEntry("UTF-8", [0xEF, 0xBB, 0xBF]),
    BomEntry("UTF-16 (BE)", [0xFE, 0xFF]),
    BomEntry("UTF-16 (LE)", [0xFF, 0xFE]),
    BomEntry("UTF-32 (BE)", [0x00, 0x00, 0xFE, 0xFF]),
    BomEntry("UTF-32 (LE)", [0xFF, 0xFE, 0x00, 0x00]),
    BomEntry("UTF-7 (a)", [0x2B, 0x2F, 0x76, 0x38]),
    BomEntry("UTF-7 (b)", [0x2B, 0x2F, 0x76, 0x39]),
    BomEntry("UTF-7 (c)", [0x2B, 0x2F, 0x76, 0x2B]),
    BomEntry("UTF-7 (d)", [0x2B, 0x2F, 0x76, 0x2F]),
    BomEntry("UTF-1", [0xF7, 0x64, 0x4C]),
    BomEntry("UTF-EBCDIC", [0xDD, 0x73, 0x66, 0x73]),
    BomEntry("SCSU", [0x0E, 0xFE, 0xFF]),
    BomEntry("BOCU-1 (a)", [0xFB, 0xEE, 0x28]),
    BomEntry("BOCU-1 (b)", [0xFB, 0xEE, 0x28, 0xFF]),
    BomEntry("GB 18030", [0x84, 0x31, 0x95, 0x33])
  ]

  lemma BomTableShape()
    ensures |BomTable| == 15
    ensures forall i :: 0 <= i < |BomTable| ==> 2 <= |BomTable[i].bytes| <= 4
  {
  }

  /** The four bytes compared against the table; bytes missing at the end of a short stream read as 0x00. */
  function Head(data: Bytes): (h: Bytes)
    ensures |h| == 4
    ensures forall k :: 0 <= k < 4 ==> h[k] == if k < |data| then data[k] else 0
  {
    seq(4, k requires 0 <= k < 4 => if k < |data| then data[k] else 0)
  }

  predicate Matches(e: BomEntry, head: Bytes)
    requires |head| == 4
  {
    |e.bytes| <= 4 && forall k :: 0 <= k < |e.bytes| ==> head[k] == e.bytes[k]
  }

  /**
   * The choice among the first `t` entries of `table`: the longest matching
   * entry, the earliest one when two matching entries are equally long;
   * length 0 and name "" when none of them matches.
   */
  predicate ChoiceAmong(table: seq<BomEntry>, head: Bytes, t: nat, len: nat, name: string)
    requires |head| == 4 && t <= |table|
  {
    || (len == 0 && name == "" && forall i :: 0 <= i < t ==> !Matches(table[i], head))
    || exists i :: 0 <= i < t
        && Matches(table[i], head) && len == |table[i].bytes| && name == table[i].name
        && (forall j :: 0 <= j < t && Matches(table[j], head) ==> |table[j].bytes| <= len)
        && (forall j :: 0 <= j < i && Matches(table[j], head) ==> |table[j].bytes| < len)
  }

  /** The mark detected for `head`: the choice among the whole table. */
  predicate IsBomChoice(head: Bytes, len: nat, name: string)
    requires |head| == 4
  {
    ChoiceAmong(BomTable, head, |BomTable|, len, name)
  }

  /**
   * One turn of the table loop keeps the choice: entry `t` replaces the current
   * choice exactly when it matches and is strictly longer.
   */
  lemma ChoiceStep(table: seq<BomEntry>, head: Bytes, t: nat, len: nat, name: string)
    requires |head| == 4 && t < |table| && ChoiceAmong(table, head, t, len, name)
    requires forall i :: 0 <= i < |table| ==> 0 < |table[i].bytes|
    ensures var e := table[t];
      if Matches(e, head) && |e.bytes| > len then ChoiceAmong(table, head, t + 1, |e.bytes|, e.name)
      else ChoiceAmong(table, head, t + 1, len, name)
  {
    var e := table[t];
    if Matches(e, head) && |e.bytes| > len {
      assert forall j :: 0 <= j < t && Matches(table[j], head) ==> |table[j].bytes| <= len;
    } else if len == 0 && name == "" && forall i :: 0 <= i < t ==> !Matches(table[i], head) {
      assert !Matches(e, head);
    } else {
      var i :| 0 <= i < t
        && Matches(table[i], head) && len == |table[i].bytes| && name == table[i].name
        && (forall j :: 0 <= j < t && Matches(table[j], head) ==> |table[j].bytes| <= len)
        && (forall j :: 0 <= j < i && Matches(table[j], head) ==> |table[j].bytes| < len);
      assert forall j :: 0 <= j < t + 1 && Matches(table[j], head) ==> |table[j].bytes| <= len;
    }
  }

  /** The rule picks one mark: length and name are determined by the head bytes. */
  lemma BomChoiceUnique(head: Bytes, len1: nat, name1: string, len2: nat, name2: string)
    requires |head| == 4
    requires IsBomChoice(head, len1, name1) && IsBomChoice(head, len2, name2)
    ensures len1 == len2 && name1 == name2
  {
    BomTableShape();
    if len1 != 0 || len2 != 0 {
      var i1 :| 0 <= i1 < |BomTable| && Matches(BomTable[i1], head)
        && len1 == |BomTable[i1].bytes| && name1 == BomTable[i1].name
        && (forall j :: 0 <= j < |BomTable| && Matches(BomTable[j], head) ==> |BomTable[j].bytes| <= len1)
        && (forall j :: 0 <= j < i1 && Matches(BomTable[j], head) ==> |BomTable[j].bytes| < len1);
      var i2 :| 0 <= i2 < |BomTable| && Matches(BomTable[i2], head)
        && len2 == |BomTable[i2].bytes| && name2 == BomTable[i2].name
        && (forall j :: 0 <= j < |BomTable| && Matches(BomTable[j], head) ==> |BomTable[j].bytes| <= len2)
        && (forall j :: 0 <= j < i2 && Matches(BomTable[j], head) ==> |BomTable[j].bytes| < len2);
      assert i1 == i2;
    }
  }

  /** A stream starting EF BB BF has the 3-byte UTF-8 mark. */
  lemma Utf8Bom(data: Bytes)
    requires |data| >= 3 && data[0] == 0xEF && data[1] == 0xBB && data[2] == 0xBF
    ensures IsBomChoice(Head(data), 3, "UTF-8")
  {
    var h := Head(data);
    assert Matches(BomTable[0], h);
    forall j | 0 <= j < |BomTable| && Matches(BomTable[j], h)
      ensures |BomTable[j].bytes| <= 3
    {
      assert h[0] == 0xEF;
      assert BomTable[j].bytes[0] == h[0];
    }
  }

  /** FF FE 00 00 is UTF-32 (LE), not UTF-16 (LE): the longer match wins. */
  lemma Utf32LeBeatsUtf16Le(data: Bytes)
    requires |data| >= 4 && data[..4] == [0xFF, 0xFE, 0x00, 0x00]
    ensures IsBomChoice(Head(data), 4, "UTF-32 (LE)")
  {
    var h := Head(data);
    assert h == [0xFF, 0xFE, 0x00, 0x00];
    assert Matches(BomTable[4], h);
    forall j | 0 <= j < 4 && Matches(BomTable[j], h)
      ensures |BomTable[j].bytes| < 4
    {
      assert BomTable[j].bytes[0] == h[0];
    }
  }

  /** A stream of just FF FE also reads as UTF-32 (LE): the two missing bytes compare as 0x00. */
  lemma ShortStreamBom()
    ensures IsBomChoice(Head([0xFF, 0xFE]), 4, "UTF-32 (LE)")
  {
    Utf32LeBeatsUtf16Le([0xFF, 0xFE, 0x00, 0x00]);
    assert Head([0xFF, 0xFE]) == Head([0xFF, 0xFE, 0x00, 0x00]);
  }

  // ------------------------------------------------------------------ line end

  predicate IsBreak(b: Byte)
  {
    b == CR || b == LF
  }

  /** Index of the first CR or LF at or after `from`, or the end of `data`. */
  function FirstBreak(data: Bytes, from: nat): (k: nat)
    requires from <= |data|
    ensures from <= k <= |data|
    ensures forall i :: from <= i < k ==> !IsBreak(data[i])
    ensures k < |data| ==> IsBreak(data[k])
    decreases |data| - from
  {
    if from == |data| || IsBreak(data[from]) then from else FirstBreak(data, from + 1)
  }

  /** The bytes the detection loop counts separators in: those before the first CR or LF. */
  function FirstLine(data: Bytes, from: nat): (r: Bytes)
  {
    if from <= |data| then data[from..FirstBreak(data, from)] else []
  }

  /**
   * A byte before the first CR or LF starts the first line: counting the
   * first line from `p` is one turn on that byte, then counting from `p + 1`.
   */
  lemma FirstLineCons(m: Counters, data: Bytes, p: nat)
    requires HasCounters(m) && p < |data| && !IsBreak(data[p])
    ensures FirstBreak(data, p) == FirstBreak(data, p + 1)
    ensures AddCounts(m, FirstLine(data, p)) == AddCounts(Bump(m, data[p]), FirstLine(data, p + 1))
  {
    assert FirstLine(data, p) == [data[p]] + FirstLine(data, p + 1);
    AddCountsCons(m, data[p], FirstLine(data, p + 1));
  }

  /** Index of the first byte `b` at or after `from`, or the end of `data`. */
  function IndexOf(data: Bytes, from: nat, b: Byte): (k: nat)
    requires from <= |data|
    ensures from <= k <= |data|
    ensures forall i :: from <= i < k ==> data[i] != b
    ensures k < |data| ==> data[k] == b
    decreases |data| - from
  {
    if from == |data| || data[from] == b then from else IndexOf(data, from + 1, b)
  }

  /** PHP `$s[$i] = $b` with `$i <= strlen($s)`: replaces byte `i`, or appends at the end. */
  function SetByte(s: Bytes, i: nat, b: Byte): (r: Bytes)
    requires i <= |s|
    ensures |r| == if i < |s| then |s| else |s| + 1
    ensures r[i] == b && forall k :: 0 <= k < |s| && k != i ==> r[k] == s[k]
  {
    if i < |s| then s[i := b] else s + [b]
  }

  /**
   * The line ending after the detection scan starting at `from`. The old value
   * is updated byte by byte, not replaced: byte 0 becomes the first CR or LF;
   * for a CR followed by LF, byte 1 becomes LF. Without CR or LF the old value stays.
   */
  function DetectEnding(prev: Bytes, data: Bytes, from: nat): (le: Bytes)
  {
    if from >= |data| then prev
    else
      var k := FirstBreak(data, from);
      if k == |data| then prev
      else
        var le1 := SetByte(prev, 0, data[k]);
        if data[k] == CR && k + 1 < |data| && data[k + 1] == LF then SetByte(le1, 1, LF) else le1
  }

  /** A line ending of at most two bytes, each CR or LF: what every detection leaves. */
  predicate IsEndingShape(le: Bytes)
  {
    |le| <= 2 && forall k :: 0 <= k < |le| ==> IsBreak(le[k])
  }

  lemma DetectEndingKeepsShape(prev: Bytes, data: Bytes, from: nat)
    requires IsEndingShape(prev)
    ensures IsEndingShape(DetectEnding(prev, data, from))
  {
  }

  /**
   * On a fresh reader (no ending yet) the detected ending is LF for a first
   * break LF, CR LF for CR followed by LF, CR for CR followed by anything else
   * or by the end, and empty when the rest of the stream has no CR or LF.
   */
  lemma FreshEnding(data: Bytes, from: nat)
    requires from <= |data|
    ensures var k := FirstBreak(data, from);
      var le := DetectEnding([], data, from);
      && (k == |data| ==> le == [])
      && (k < |data| && data[k] == LF ==> le == [LF])
      && (k + 1 < |data| && data[k] == CR && data[k + 1] == LF ==> le == [CR, LF])
      && (k < |data| && data[k] == CR && (k + 1 == |data| || data[k + 1] != LF) ==> le == [CR])
  {
  }

  /**
   * The by-byte update on a reused reader: after a CR LF stream, a stream whose
   * first break is LF leaves the ending LF LF.
   */
  lemma EndingAccumulates(data: Bytes)
    requires |data| > 0 && data[0] == LF
    ensures DetectEnding([CR, LF], data, 0) == [LF, LF]
  {
  }

  /**
   * End (exclusive) of the field-count scan from `from`: it stops after the
   * first byte equal to byte 0 of the ending, or at the end of `data`.
   */
  function CountScanEnd(data: Bytes, from: nat, le: Bytes): (k: nat)
  {
    if from >= |data| then from
    else if |le| == 0 then |data|
    else Min(IndexOf(data, from, le[0]) + 1, |data|)
  }

  /**
   * The separators the field-count loop reads from `p` on: it reads up to and
   * including the first byte equal to byte 0 of the ending.
   */
  function CountLoop(data: Bytes, p: nat, le: Bytes, sep: Byte): nat
    decreases |data| - p
  {
    if p >= |data| then 0
    else
      (if data[p] == sep then 1 else 0) +
      (if |le| > 0 && data[p] == le[0] then 0 else CountLoop(data, p + 1, le, sep))
  }

  /** A byte that does not end the scan leaves the end of the scan where it was. */
  lemma CountScanEndStep(data: Bytes, p: nat, le: Bytes)
    requires p < |data| && !(|le| > 0 && data[p] == le[0])
    ensures CountScanEnd(data, p, le) == CountScanEnd(data, p + 1, le)
  {
    if |le| > 0 {
      assert IndexOf(data, p, le[0]) == IndexOf(data, p + 1, le[0]);
    }
  }

  /** The count over a segment is the first byte's contribution plus the rest's. */
  lemma CountSegmentCons(data: Bytes, p: nat, e: nat, sep: Byte)
    requires p < e <= |data|
    ensures Count(Segment(data, p, e), sep) == (if data[p] == sep then 1 else 0) + Count(Segment(data, p + 1, e), sep)
  {
    var t := Segment(data, p + 1, e);
    assert Segment(data, p, e) == [data[p]] + t;
    assert ([data[p]] + t)[1..] == t;
  }

  /** The loop counts the separators of the scanned bytes. */
  lemma {:induction false} CountLoopSpec(data: Bytes, p: nat, le: Bytes, sep: Byte)
    ensures CountLoop(data, p, le, sep) == Count(Segment(data, p, CountScanEnd(data, p, le)), sep)
    decreases |data| - p
  {
    if p < |data| {
      var e := CountScanEnd(data, p, le);
      if |le| > 0 && data[p] == le[0] {
        assert IndexOf(data, p, le[0]) == p;
        assert e == p + 1;
        CountSegmentCons(data, p, p + 1, sep);
      } else {
        var rest := CountLoop(data, p + 1, le, sep);
        assert CountLoop(data, p, le, sep) == (if data[p] == sep then 1 else 0) + rest;
        CountLoopSpec(data, p + 1, le, sep);
        CountScanEndStep(data, p, le);
        CountSegmentCons(data, p, e, sep);
      }
    }
  }

  /**
   * Both load-time scans cover the first physical line: for an ending of the
   * detected shape that holds the first break byte (or any ending when there
   * is no break), the field-count scan counts a non-break separator exactly
   * over the bytes before the first CR or LF.
   */
  lemma CountScanIsFirstLine(prev: Bytes, data: Bytes, from: nat, sep: Byte)
    requires from <= |data| && IsEndingShape(prev) && !IsBreak(sep)
    ensures var le := DetectEnding(prev, data, from);
      Count(Segment(data, from, CountScanEnd(data, from, le)), sep)
        == Count(Segment(data, from, FirstBreak(data, from)), sep)
  {
    var le := DetectEnding(prev, data, from);
    var k := FirstBreak(data, from);
    var e := CountScanEnd(data, from, le);
    if from < |data| {
      if k == |data| {
        if |le| > 0 {
          assert IsBreak(le[0]);
          assert IndexOf(data, from, le[0]) == |data|;
        }
        assert e == |data|;
      } else {
        assert le[0] == data[k];
        assert IsBreak(le[0]);
        assert IndexOf(data, from, le[0]) == k;
        assert e == k + 1;
        assert Segment(data, from, e) == Segment(data, from, k) + [data[k]];
        CountSnoc(Segment(data, from, k), data[k], sep);
      }
    }
  }
}
