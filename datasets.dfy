/**
 * The dataset loop as a value: the records read one `ReadLine` call at a
 * time, the loop's stops (no more records, the limit reached), its skips
 * (below the offset) and its deliveries, and the read that ends it.
 */
module Datasets {
  import opened Bytes
  import opened Tokenizer
  import opened Delivery

  /** The callback invocations of a run of the loop and the result of its last read. */
  datatype Outcome = Outcome(rows: seq<Row>, last: ReadResult)

  /**
   * The loop from the cursor `pos` once `counter` records are counted and
   * `delivered` rows delivered: read; stop on a failed read or once the limit
   * is reached; skip while the counter is below the offset; otherwise deliver
   * the record padded to `width` columns with its line number.
   */
  function DatasetLoop(cfg: Config, data: Bytes, pos: nat, limit: int, offset: int, width: int, counter: nat, delivered: nat): (o: Outcome)
    requires Tokenizable(data, cfg.ending)
    decreases Remaining(data, pos)
  {
    var r := ReadLine(cfg, data, pos);
    if !r.ok || (limit >= 0 && delivered >= limit) then Outcome([], r)
    else if offset >= 0 && counter < offset then
      DatasetLoop(cfg, data, r.pos, limit, offset, width, counter + 1, delivered)
    else
      var o := DatasetLoop(cfg, data, r.pos, limit, offset, width, counter + 1, delivered + 1);
      Outcome([Row(Pad(r.fields, width), counter + 1)] + o.rows, o.last)
  }

  /** `DatasetLoop` unfolded once, on the result `r` of the first read. */
  lemma DatasetLoopStep(cfg: Config, data: Bytes, pos: nat, limit: int, offset: int, width: int, counter: nat, delivered: nat, r: ReadResult)
    requires Tokenizable(data, cfg.ending) && r == ReadLine(cfg, data, pos)
    ensures var o := DatasetLoop(cfg, data, pos, limit, offset, width, counter, delivered);
      if !r.ok || (limit >= 0 && delivered >= limit) then o == Outcome([], r)
      else if offset >= 0 && counter < offset then
        o == DatasetLoop(cfg, data, r.pos, limit, offset, width, counter + 1, delivered)
      else
        var next := DatasetLoop(cfg, data, r.pos, limit, offset, width, counter + 1, delivered + 1);
        o == Outcome([Row(Pad(r.fields, width), counter + 1)] + next.rows, next.last)
  {
  }

  /**
   * The loop delivers what `Deliver` says of the records `Records` reads
   * from `pos`, and it ends with the read that follows the records it
   * consumed.
   */
  lemma {:induction false} DatasetLoopSpec(cfg: Config, data: Bytes, pos: nat, limit: int, offset: int, width: int, counter: nat, delivered: nat)
    requires Tokenizable(data, cfg.ending)
    ensures var recs := Records(cfg, data, pos);
      DatasetLoop(cfg, data, pos, limit, offset, width, counter, delivered)
        == Outcome(Deliver(recs, limit, offset, width, counter, delivered),
                   LastRead(cfg, data, pos, Consumed(recs, limit, offset, counter, delivered)))
    decreases Remaining(data, pos)
  {
    var r := ReadLine(cfg, data, pos);
    var recs := Records(cfg, data, pos);
    RecordsStep(cfg, data, pos);
    LastReadStep(cfg, data, pos, Consumed(recs, limit, offset, counter, delivered));
    if !r.ok || (limit >= 0 && delivered >= limit) {
    } else {
      var tail := Records(cfg, data, r.pos);
      DeliverCons(r.fields, tail, limit, offset, width, counter, delivered);
      if offset >= 0 && counter < offset {
        DatasetLoopSpec(cfg, data, r.pos, limit, offset, width, counter + 1, delivered);
      } else {
        DatasetLoopSpec(cfg, data, r.pos, limit, offset, width, counter + 1, delivered + 1);
      }
    }
  }
}
