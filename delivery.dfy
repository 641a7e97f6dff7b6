/**
 * What the dataset loop hands to its callback: the records read after the
 * header, counted from 1, the first `offset` of them skipped and at most
 * `limit` of them delivered, each cut or padded to the field count.
 */
module Delivery {
  import opened Bytes

  /** One callback invocation: the row vector and the line counter. */
  datatype Row = Row(fields: seq<Bytes>, line: nat)

  /** `n` empty strings. */
  function Blanks(n: nat): (r: seq<Bytes>)
  {
    seq(n, i => [])
  }

  /**
   * The row vector built from `fields`: one entry for each of the `width`
   * columns, the field itself when there is one, the empty string otherwise.
   */
  function Pad(fields: seq<Bytes>, width: int): (r: seq<Bytes>)
  {
    if width <= |fields| then fields[..Max(width, 0)] else fields + Blanks(width - |fields|)
  }

  lemma PadSpec(fields: seq<Bytes>, width: int)
    ensures |Pad(fields, width)| == Max(width, 0)
    ensures forall i :: 0 <= i < Max(width, 0) ==>
      Pad(fields, width)[i] == (if i < |fields| then fields[i] else [])
  {
  }

  /**
   * The rows delivered from the records `recs` when `counter` records have
   * already been counted and `delivered` rows delivered: the loop stops once
   * `limit` (when not negative) rows are delivered, skips while the counter
   * is below `offset` (when not negative), and otherwise delivers.
   */
  function Deliver(recs: seq<seq<Bytes>>, limit: int, offset: int, width: int, counter: nat, delivered: nat): (rows: seq<Row>)
    decreases |recs|
  {
    if recs == [] || (limit >= 0 && delivered >= limit) then []
    else if offset >= 0 && counter < offset then
      Deliver(recs[1..], limit, offset, width, counter + 1, delivered)
    else
      [Row(Pad(recs[0], width), counter + 1)] + Deliver(recs[1..], limit, offset, width, counter + 1, delivered + 1)
  }

  /** How many of `recs` the loop consumes (skips or delivers) before it stops. */
  function Consumed(recs: seq<seq<Bytes>>, limit: int, offset: int, counter: nat, delivered: nat): (n: nat)
    ensures n <= |recs|
    decreases |recs|
  {
    if recs == [] || (limit >= 0 && delivered >= limit) then 0
    else if offset >= 0 && counter < offset then
      1 + Consumed(recs[1..], limit, offset, counter + 1, delivered)
    else
      1 + Consumed(recs[1..], limit, offset, counter + 1, delivered + 1)
  }

  /** One turn of the loop on a record `rec` before the records `rest`, when the limit is not reached. */
  lemma DeliverCons(rec: seq<Bytes>, rest: seq<seq<Bytes>>, limit: int, offset: int, width: int, counter: nat, delivered: nat)
    requires !(limit >= 0 && delivered >= limit)
    ensures var recs := [rec] + rest;
      if offset >= 0 && counter < offset then
        && Deliver(recs, limit, offset, width, counter, delivered) == Deliver(rest, limit, offset, width, counter + 1, delivered)
        && Consumed(recs, limit, offset, counter, delivered) == 1 + Consumed(rest, limit, offset, counter + 1, delivered)
      else
        && Deliver(recs, limit, offset, width, counter, delivered)
          == [Row(Pad(rec, width), counter + 1)] + Deliver(rest, limit, offset, width, counter + 1, delivered + 1)
        && Consumed(recs, limit, offset, counter, delivered) == 1 + Consumed(rest, limit, offset, counter + 1, delivered + 1)
  {
    assert ([rec] + rest)[1..] == rest;
  }

  /**
   * The number of records skipped, out of `n`, once `counter` are counted;
   * none when the limit is already reached, since the loop stops first.
   */
  function Skipped(n: nat, limit: int, offset: int, counter: nat, delivered: nat): (s: nat)
    ensures s <= n
  {
    if (limit >= 0 && delivered >= limit) || offset < 0 then 0 else Min(Max(offset - counter, 0), n)
  }

  /** The number of rows delivered, out of `n` records, once `delivered` are delivered. */
  function Taken(n: nat, limit: int, offset: int, counter: nat, delivered: nat): (k: nat)
    ensures Skipped(n, limit, offset, counter, delivered) + k <= n
  {
    var rest := n - Skipped(n, limit, offset, counter, delivered);
    if limit >= 0 then Min(Max(limit - delivered, 0), rest) else rest
  }

  /** The window property with the window spelled out, as the induction needs it. */
  predicate IsWindow(rows: seq<Row>, recs: seq<seq<Bytes>>, width: int, counter: nat, s: nat, k: nat)
    requires s + k <= |recs|
  {
    |rows| == k &&
    forall j :: 0 <= j < k ==> rows[j] == Row(Pad(recs[s + j], width), counter + s + j + 1)
  }

  /** A skipped record moves the window one record on. */
  lemma WindowSkip(rows: seq<Row>, recs: seq<seq<Bytes>>, width: int, counter: nat, s: nat, k: nat)
    requires recs != [] && s + k + 1 <= |recs|
    requires IsWindow(rows, recs[1..], width, counter + 1, s, k)
    ensures IsWindow(rows, recs, width, counter, s + 1, k)
  {
    forall j | 0 <= j < k
      ensures rows[j] == Row(Pad(recs[s + 1 + j], width), counter + (s + 1) + j + 1)
    {
      assert recs[1..][s + j] == recs[s + 1 + j];
    }
  }

  /** A delivered record becomes the first row of the window. */
  lemma WindowTake(rows: seq<Row>, recs: seq<seq<Bytes>>, width: int, counter: nat, k: nat)
    requires recs != [] && k + 1 <= |recs|
    requires IsWindow(rows, recs[1..], width, counter + 1, 0, k)
    ensures IsWindow([Row(Pad(recs[0], width), counter + 1)] + rows, recs, width, counter, 0, k + 1)
  {
    var out := [Row(Pad(recs[0], width), counter + 1)] + rows;
    forall j | 0 <= j < k + 1
      ensures out[j] == Row(Pad(recs[j], width), counter + j + 1)
    {
      if j > 0 {
        assert out[j] == rows[j - 1];
        assert recs[1..][j - 1] == recs[j];
      }
    }
  }

  /** Taking a record when no more are skipped. */
  lemma TakenStep(n: nat, limit: int, offset: int, counter: nat, delivered: nat)
    requires n > 0 && !(limit >= 0 && delivered >= limit) && !(offset >= 0 && counter < offset)
    ensures Skipped(n, limit, offset, counter, delivered) == 0
    ensures Skipped(n - 1, limit, offset, counter + 1, delivered + 1) == 0
    ensures Taken(n, limit, offset, counter, delivered) == 1 + Taken(n - 1, limit, offset, counter + 1, delivered + 1)
  {
  }

  /** Skipping a record while the counter is below the offset. */
  lemma SkippedStep(n: nat, limit: int, offset: int, counter: nat, delivered: nat)
    requires n > 0 && !(limit >= 0 && delivered >= limit) && offset >= 0 && counter < offset
    ensures Skipped(n, limit, offset, counter, delivered) == 1 + Skipped(n - 1, limit, offset, counter + 1, delivered)
    ensures Taken(n, limit, offset, counter, delivered) == Taken(n - 1, limit, offset, counter + 1, delivered)
  {
  }

  /**
   * The delivered rows are exactly the window of the records after the
   * skipped ones, as long as the limit allows, numbered by their position
   * among all records; the loop consumes the skipped and the delivered records.
   */
  lemma {:induction false} DeliverWindow(recs: seq<seq<Bytes>>, limit: int, offset: int, width: int, counter: nat, delivered: nat)
    ensures var s := Skipped(|recs|, limit, offset, counter, delivered);
      var k := Taken(|recs|, limit, offset, counter, delivered);
      IsWindow(Deliver(recs, limit, offset, width, counter, delivered), recs, width, counter, s, k) &&
      Consumed(recs, limit, offset, counter, delivered) == s + k
    decreases |recs|
  {
    var n := |recs|;
    if recs == [] || (limit >= 0 && delivered >= limit) {
    } else if offset >= 0 && counter < offset {
      DeliverWindow(recs[1..], limit, offset, width, counter + 1, delivered);
      SkippedStep(n, limit, offset, counter, delivered);
      WindowSkip(Deliver(recs[1..], limit, offset, width, counter + 1, delivered), recs, width, counter,
        Skipped(n - 1, limit, offset, counter + 1, delivered), Taken(n - 1, limit, offset, counter + 1, delivered));
    } else {
      DeliverWindow(recs[1..], limit, offset, width, counter + 1, delivered + 1);
      TakenStep(n, limit, offset, counter, delivered);
      WindowTake(Deliver(recs[1..], limit, offset, width, counter + 1, delivered + 1), recs, width, counter,
        Taken(n - 1, limit, offset, counter + 1, delivered + 1));
    }
  }

  /**
   * From the start of the records: the callback sees the records from number
   * `offset + 1` on (all when `offset` is negative), at most `limit` of them
   * (all when `limit` is negative), each with exactly `width` entries, and
   * the loop consumes the skipped and the delivered records.
   */
  lemma DeliverFromStart(recs: seq<seq<Bytes>>, limit: int, offset: int, width: int)
    ensures var rows := Deliver(recs, limit, offset, width, 0, 0);
      var s := if offset >= 0 && limit != 0 then Min(offset, |recs|) else 0;
      (limit >= 0 ==> |rows| == Min(limit, |recs| - s)) &&
      (limit < 0 ==> |rows| == |recs| - s) &&
      (forall j :: 0 <= j < |rows| ==>
        rows[j].line == s + j + 1 && rows[j].fields == Pad(recs[s + j], width) &&
        |rows[j].fields| == Max(width, 0)) &&
      Consumed(recs, limit, offset, 0, 0) == s + |rows|
  {
    DeliverWindow(recs, limit, offset, width, 0, 0);
    forall j | 0 <= j < |recs|
      ensures |Pad(recs[j], width)| == Max(width, 0)
    {
      PadSpec(recs[j], width);
    }
  }
}
