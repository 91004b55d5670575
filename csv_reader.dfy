/** process_csv/src/csv_reader.rs: a reader over a stream of reads, each no larger than its
    buffer, that hands every record to a callback, either as raw bytes (for_each_raw_line)
    or decoded as text (for_each_line). The callback is modelled by the records it
    receives; text validity is the parameter `valid`. */
module CsvReader {
  import opened Bytes
  import opened Wrappers
  import opened Scanner
  import opened Stream
  import opened Records
  import opened Reader
  import opened Decode
  import opened LaxLines

  class CsvReader {
    /** The read buffer; its length is the watermark. */
    var chunk: array<byte>
    /** What the file's successive reads deliver, in order; each fits the buffer. */
    var pending: seq<seq<byte>>

    ghost predicate Valid()
      reads this
    {
      forall k | 0 <= k < |pending| :: 0 < |pending[k]| <= chunk.Length
    }

    constructor (watermark: nat, file: seq<seq<byte>>)
      requires forall k | 0 <= k < |file| :: 0 < |file[k]| <= watermark
      ensures Valid() && fresh(chunk) && chunk.Length == watermark && pending == file
    {
      chunk := new byte[watermark];
      pending := file;
    }

    /** read_chunk: one read into the buffer; `None` at end of stream (a 0-byte read),
        otherwise a copy of exactly the bytes the read put at the front of the buffer. */
    method ReadChunk() returns (r: Option<seq<byte>>)
      requires Valid()
      modifies this, chunk
      ensures Valid() && chunk == old(chunk)
      ensures r == None <==> old(pending) == []
      ensures old(pending) == [] ==> pending == []
      ensures old(pending) != [] ==>
        pending == old(pending)[1..] && r == Some(old(pending)[0]) && chunk[..|old(pending)[0]|] == old(pending)[0]
    {
      if pending == [] {
        return None;
      }
      var bytes := pending[0];
      var n := |bytes|;
      var buf := chunk;
      for i := 0 to n
        invariant buf[..i] == bytes[..i]
        modifies buf
      {
        buf[i] := bytes[i];
      }
      assert bytes[..n] == bytes;
      pending := pending[1..];
      r := Some(chunk[..n]);
    }

    /** for_each_raw_line: the raw records of the whole stream, whatever reads it is cut into. */
    method ForEachRawLine() returns (records: seq<Record>)
      requires Valid()
      modifies this, chunk
      ensures Valid()
      ensures records == Records.Records(Concat(old(pending)))
    {
      ghost var input := pending;
      ghost var k := 0;
      var lineHolder: Record := [];
      var unpBytes: seq<byte> := [];
      records := [];
      while true
        invariant Valid() && chunk == old(chunk)
        invariant k <= |input| && pending == input[k..]
        invariant Assembly(records, lineHolder) == FedAfter(input, k)
        invariant unpBytes == Carry(input, k)
        decreases |pending|
      {
        var read := ReadChunk();
        if read.None? {
          break;
        }
        var c := read.value;
        if |unpBytes| > 0 {
          unpBytes := unpBytes + c;
          c := unpBytes;
          unpBytes := [];
        }
        assert c == Carry(input, k) + input[k];
        var events, remaining := SplitChunk(c);
        // the callback, applied to each boundary in turn
        var fed := FeedAll(Assembly(records, lineHolder), events);
        records, lineHolder := fed.done, fed.holder;
        unpBytes := remaining;
        k := k + 1;
      }
      assert input[..k] == input;
      ChunksAreStream(input, k);
      FedChunks(input, k);
      FinalRecord(Concat(input), Assembly(records, lineHolder));
      lineHolder := lineHolder + [unpBytes];
      records := records + [lineHolder];
    }

    /** for_each_line as written: split_to_string keeps, for each chunk, only the callback's
        result on the last boundary, so the outcome is that of LaxRun, read by read. */
    method ForEachLine(valid: seq<byte> -> bool) returns (records: seq<Record>, outcome: Result<()>)
      requires Valid()
      modifies this, chunk
      ensures Valid()
      ensures var run := ForEachLineRun(old(pending), valid);
        records == run.done && (outcome.Ok? <==> run.ok)
      ensures outcome.Err? ==> outcome.error == "failed when parsing cell"
    {
      ghost var input := pending;
      ghost var k := 0;
      var lineHolder: Record := [];
      var unpBytes: seq<byte> := [];
      records := [];
      while true
        invariant Valid() && chunk == old(chunk)
        invariant k <= |input| && pending == input[k..]
        invariant LaxRun(Assembly(records, lineHolder), unpBytes, input[k..], valid) == ForEachLineRun(input, valid)
        decreases |pending|
      {
        var read := ReadChunk();
        if read.None? {
          break;
        }
        ghost var carry := unpBytes;
        var c := read.value;
        if |unpBytes| > 0 {
          unpBytes := unpBytes + c;
          c := unpBytes;
          unpBytes := [];
        }
        assert c == carry + input[k];
        assert input[k..][1..] == input[k + 1..];
        var fed, remaining := SplitToString(c, Assembly(records, lineHolder), valid);
        records, lineHolder := fed.done, fed.holder;
        if remaining.Err? {
          return records, Err(remaining.error);
        }
        unpBytes := remaining.value;
        k := k + 1;
      }
      assert input[k..] == [];
      var last := ParseCell(unpBytes, valid);
      if last.Err? {
        return records, Err(last.error);
      }
      lineHolder := lineHolder + [last.value];
      records := records + [lineHolder];
      outcome := Ok(());
    }

    /** for_each_line with split_to_string stopping at the first cell that is not valid text,
        as chunk_reader.rs run does: the outcome no longer depends on the reads. */
    method ForEachLineChecked(valid: seq<byte> -> bool) returns (records: seq<Record>, outcome: Result<()>)
      requires Valid()
      modifies this, chunk
      ensures Valid()
      ensures var run := RunStream(Concat(old(pending)), valid);
        records == run.done && (outcome.Ok? <==> !run.failed)
      ensures outcome.Err? ==> outcome.error == "failed when parsing cell"
    {
      ghost var input := pending;
      ghost var k := 0;
      ghost var init := Decoding([], [], false);
      var lineHolder: Record := [];
      var unpBytes: seq<byte> := [];
      records := [];
      while true
        invariant Valid() && chunk == old(chunk)
        invariant k <= |input| && pending == input[k..]
        invariant var st := StepAll(init, Emit(Scan(Concat(input[..k]), ChunkSeps).found), valid);
          !st.failed && records == st.done && lineHolder == st.result
        invariant unpBytes == Rest(Concat(input[..k]), ChunkSeps)
        decreases |pending|
      {
        var read := ReadChunk();
        if read.None? {
          break;
        }
        ghost var s := Concat(input[..k]);
        var c := read.value;
        if |unpBytes| > 0 {
          unpBytes := unpBytes + c;
          c := unpBytes;
          unpBytes := [];
        }
        assert c == Rest(s, ChunkSeps) + input[k];
        CarryOver(s, input[k]);
        ConcatStep(input, k);
        var j, split;
        records, lineHolder, j, split := DecodeChunk(c, records, lineHolder, Emit(Scan(s, ChunkSeps).found), valid);
        if split.Err? {
          ConcatSplit(input, k + 1);
          RunStopped(Concat(input[..k + 1]), Concat(input[k + 1..]), valid);
          return records, split;
        }
        unpBytes := c[j..];
        k := k + 1;
      }
      assert input[..k] == input;
      DecodeFlush(Concat(input), valid);
      var last := ParseCell(unpBytes, valid);
      if last.Err? {
        return records, Err(last.error);
      }
      lineHolder := lineHolder + [last.value];
      records := records + [lineHolder];
      outcome := Ok(());
    }
  }

  /** split_to_string with for_each_line's callback: split_chunk delivers the boundaries of the
      chunk in order and the callback is applied to each; its result is overwritten every time,
      so what is reported is its result on the last boundary. */
  method SplitToString(chunk: seq<byte>, a: Assembly, valid: seq<byte> -> bool)
    returns (fed: Assembly, remaining: Result<seq<byte>>)
    ensures var ev := Emit(Scan(chunk, ChunkSeps).found);
      fed == LaxFeedAll(a, ev, valid) && (remaining.Ok? <==> LastOk(ev, valid))
    ensures remaining.Ok? ==> remaining.value == Rest(chunk, ChunkSeps)
    ensures remaining.Err? ==> remaining.error == "failed when parsing cell"
  {
    var events, rest := SplitChunk(chunk);
    var cbResult: Result<()> := Ok(());
    fed := a;
    for n := 0 to |events|
      invariant fed == LaxFeedAll(a, events[..n], valid)
      invariant cbResult.Ok? <==> LastOk(events[..n], valid)
      invariant cbResult.Err? ==> cbResult.error == "failed when parsing cell"
    {
      assert events[..n + 1][..n] == events[..n];
      match events[n]
      case NewCell(c) =>
        var cell := ParseCell(c, valid);
        if cell.Ok? {
          fed := Assembly(fed.done, fed.holder + [cell.value]);
          cbResult := Ok(());
        } else {
          cbResult := Err(cell.error);
        }
      case NewLine =>
        fed := Assembly(fed.done + [fed.holder], []);
        cbResult := Ok(());
    }
    assert events[..|events|] == events;
    if cbResult.Err? {
      return fed, Err(cbResult.error);
    }
    remaining := Ok(rest);
  }
}
