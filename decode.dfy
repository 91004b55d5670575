/** Cell decoding shared by the readers that hand over text records: parse_cell, and the
    fail-fast pass over one chunk that stops at the first cell that is not valid text. */
module Decode {
  import opened Bytes
  import opened Wrappers
  import opened Scanner
  import opened Records

  /** parse_cell: the cell as text, or an error when its bytes are not valid text. */
  function ParseCell(line: seq<byte>, valid: seq<byte> -> bool): (r: Result<seq<byte>>)
    ensures r.Ok? <==> valid(line)
    ensures r.Ok? ==> r.value == line
    ensures r.Err? ==> r.error == "failed when parsing cell"
  {
    if valid(line) then Ok(line) else Err("failed when parsing cell")
  }

  /** The loop of run over one chunk (carry-over included): every separator outside quotes
      ends a cell, which is decoded and kept; every line feed outside quotes hands over the
      record. Starting from the consumer's state after the events e0 of the stream before
      the chunk, it ends in the state after the chunk's events, with j the index just after
      the last separator; a cell that is not valid text ends it early with the state the
      consumer stops in. */
  method DecodeChunk(c: seq<byte>, records0: seq<Record>, result0: Record, ghost e0: seq<Event>, valid: seq<byte> -> bool)
    returns (records: seq<Record>, result: Record, j: nat, outcome: Result<()>)
    requires var st := StepAll(Decoding([], [], false), e0, valid);
      !st.failed && records0 == st.done && result0 == st.result
    ensures var st := StepAll(Decoding([], [], false), e0 + Emit(Scan(c, ChunkSeps).found), valid);
      records == st.done && result == st.result && (outcome.Ok? <==> !st.failed)
    ensures outcome.Ok? ==> j == Scan(c, ChunkSeps).start
    ensures outcome.Err? ==> outcome.error == "failed when parsing cell"
  {
    ghost var init := Decoding([], [], false);
    records, result := records0, result0;
    var betweenQuotes := false;
    j := 0;
    DecodeStart(e0, c);
    for i := 0 to |c|
      invariant betweenQuotes == ScanTo(c, i, ChunkSeps).inside && j == ScanTo(c, i, ChunkSeps).start
      invariant var st := StepAll(init, e0 + Emit(ScanTo(c, i, ChunkSeps).found), valid);
        !st.failed && records == st.done && result == st.result
    {
      DecodeStep(e0, c, i, valid);
      var b := c[i];
      if b == QUOTES {
        betweenQuotes := !betweenQuotes;
      }
      if !betweenQuotes {
        if b == COMMA || b == LF {
          var cell := ParseCell(c[j..i], valid);
          if cell.Err? {
            DecodeStops(e0, c, i, valid);
            return records, result, j, Err(cell.error);
          }
          result := result + [cell.value];
          j := i + 1;
        }
        if b == LF {
          records := records + [result];
          result := [];
        }
      }
    }
    outcome := Ok(());
  }
}
