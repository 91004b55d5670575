/** process_csv/src/reader.rs: a byte splitter that reads the stream in chunks and
    reports every cell and every record end through a callback. The callback is
    modelled by the sequence of events it receives. */
module Reader {
  import opened Bytes
  import opened Scanner
  import opened Stream

  /** split_chunk: one pass over the chunk; an unquoted comma reports the cell before it,
      an unquoted line feed reports that cell and then a record end. Returns the bytes
      after the last separator (Scanner.RoundTrip: the cells, their separators and the
      remainder make up the chunk; Scanner.NoSepInRest: the remainder has no unquoted
      separator). */
  method SplitChunk(chunk: seq<byte>) returns (events: seq<Event>, remaining: seq<byte>)
    ensures events == Emit(Scan(chunk, ChunkSeps).found)
    ensures remaining == Rest(chunk, ChunkSeps)
  {
    var betweenQuotes := false;
    var j := 0;
    events := [];
    for i := 0 to |chunk|
      invariant betweenQuotes == ScanTo(chunk, i, ChunkSeps).inside
      invariant j == ScanTo(chunk, i, ChunkSeps).start
      invariant events == Emit(ScanTo(chunk, i, ChunkSeps).found)
    {
      var b := chunk[i];
      if b == QUOTES {
        betweenQuotes := !betweenQuotes;
      }
      if !betweenQuotes {
        if b == COMMA || b == LF {
          events := events + [NewCell(chunk[j..i])];
          j := i + 1;
        }
        if b == LF {
          events := events + [NewLine];
        }
      }
    }
    remaining := chunk[j..];
  }

  /** process_file: read, prepend the carry-over, split, keep the new carry-over; at the end
      of the stream report the carry-over as one last cell. Whatever reads the stream is cut
      into, the events are those of the bytes before the first 0-byte read scanned at once. */
  method ProcessFile(input: seq<seq<byte>>) returns (events: seq<Event>)
    ensures events == StreamEvents(Concat(Taken(input)))
  {
    ghost var end := EndFrom(input, 0);
    var unpBytes: seq<byte> := [];
    events := [];
    var k := 0;
    while true
      invariant k <= end && EndFrom(input, k) == end
      invariant events == ChunkEvents(input, k)
      invariant unpBytes == Carry(input, k)
      decreases |input| - k
    {
      var chunk := ReadAt(input, k);
      if |chunk| == 0 {
        break;
      }
      if |unpBytes| > 0 {
        unpBytes := unpBytes + chunk;
        chunk := unpBytes;
        unpBytes := [];
      }
      assert chunk == Carry(input, k) + input[k];
      var produced, remaining := SplitChunk(chunk);
      events := events + produced;
      unpBytes := remaining;
      k := k + 1;
    }
    ChunksAreStream(input, k);
    events := events + [NewCell(unpBytes)];
  }
}
