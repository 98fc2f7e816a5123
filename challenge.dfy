/*
 * The whole of V11 on one input: cut the stream into chunks, run the
 * workers and the reduce, then sort and print the merged table.
 */
module Challenge {
  import opened Options
  import opened Bytes
  import opened Machine
  import opened RecordParser
  import opened PartialTable
  import opened Chunker
  import opened Pipeline
  import opened Formatter

  /**
   * The program's output for `stream`, or None where a worker panics. The
   * printed entries are exactly the merged table's, in strictly increasing
   * City order, and the run fails exactly when some line it parses has no
   * `;` or an empty value.
   */
  method Summarise(stream: seq<byte>, schedule: nat -> nat, n: nat, mean: (int64, int32) -> seq<byte>)
    returns (result: Option<seq<byte>>, ghost es: seq<Aggregate>)
    requires n >= 1
    ensures var outcome := Outcome(ChunksOf(stream, LINES_PER_CHUNK), schedule, n);
            result.Some? <==> outcome.Some?
    ensures result.Some? <==> ParseLines(AllLines(ChunksOf(stream, LINES_PER_CHUNK))).Some?
    ensures var outcome := Outcome(ChunksOf(stream, LINES_PER_CHUNK), schedule, n);
            result.Some? ==>
              && result.value == Output(es, mean)
              && StrictlySorted(es) && |es| == |outcome.value|
              && (forall i :: 0 <= i < |es| ==> Filed(outcome.value, es[i]))
              && (forall fp :: fp in outcome.value ==> outcome.value[fp] in es)
  {
    var chunks := ChunkStream(stream, LINES_PER_CHUNK);
    StreamRun(stream, schedule, n);
    var values := Run(chunks, schedule, n);
    es := [];
    if values.None? {
      return None, es;
    }
    OutcomeWellKeyed(chunks, schedule, n);
    var output;
    output, es := Format(values.value, mean);
    result := Some(output);
  }
}
