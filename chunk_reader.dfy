/** process_csv/src/chunk_reader.rs: reads the stream in chunks into a fixed buffer,
    splits each carry-over-prefixed chunk with an inlined scanner, decodes every cell
    as text and hands each completed record to a callback; the first cell that is not
    valid text ends the run with an error. The callback is modelled by the records it
    receives; text validity is the parameter `valid`. */
module ChunkReader {
  import opened Bytes
  import opened Wrappers
  import opened Scanner
  import opened Stream
  import opened Records
  import opened Decode

  class ChunkReader {
    /** The read buffer; its length is the watermark. */
    var chunk: array<byte>
    /** What the file's successive reads deliver, in order; each fits the buffer. */
    var pending: seq<seq<byte>>

    ghost predicate Valid()
      reads this
    {
      forall k | 0 <= k < |pending| :: 0 < |pending[k]| <= chunk.Length
    }

    constructor (watermark: nat, file: seq<seq<byte>>)
      requires forall k | 0 <= k < |file| :: 0 < |file[k]| <= watermark
      ensures Valid() && fresh(chunk) && chunk.Length == watermark && pending == file
    {
      chunk := new byte[watermark];
      pending := file;
    }

    /** read_chunk: one read into the buffer; `None` at end of stream (a 0-byte read),
        otherwise a copy of exactly the bytes the read put at the front of the buffer. */
    method ReadChunk() returns (r: Option<seq<byte>>)
      requires Valid()
      modifies this, chunk
      ensures Valid() && chunk == old(chunk)
      ensures r == None <==> old(pending) == []
      ensures old(pending) == [] ==> pending == []
      ensures old(pending) != [] ==>
        pending == old(pending)[1..] && r == Some(old(pending)[0]) && chunk[..|old(pending)[0]|] == old(pending)[0]
    {
      if pending == [] {
        return None;
      }
      var bytes := pending[0];
      var n := |bytes|;
      var buf := chunk;
      for i := 0 to n
        invariant buf[..i] == bytes[..i]
        modifies buf
      {
        buf[i] := bytes[i];
      }
      assert bytes[..n] == bytes;
      pending := pending[1..];
      r := Some(chunk[..n]);
    }

    /** run: the whole stream, record by record. Whatever reads the stream is cut into, the
        records handed over and the outcome are those of the decoding consumer over the
        whole stream: every record if every cell is valid text, otherwise the records
        completed before the first cell that is not, and an error. */
    method Run(valid: seq<byte> -> bool) returns (records: seq<Record>, outcome: Result<()>)
      requires Valid()
      modifies this, chunk
      ensures Valid()
      ensures var run := RunStream(Concat(old(pending)), valid);
        records == run.done && (outcome.Ok? <==> !run.failed)
      ensures outcome.Err? ==> outcome.error == "failed when parsing cell"
    {
      ghost var input := pending;
      ghost var k := 0;
      ghost var init := Decoding([], [], false);
      var result: Record := [];
      var unprocessedBytes: seq<byte> := [];
      records := [];
      while true
        invariant Valid() && chunk == old(chunk)
        invariant k <= |input| && pending == input[k..]
        invariant var st := StepAll(init, Emit(Scan(Concat(input[..k]), ChunkSeps).found), valid);
          !st.failed && records == st.done && result == st.result
        invariant unprocessedBytes == Rest(Concat(input[..k]), ChunkSeps)
        decreases |pending|
      {
        var read := ReadChunk();
        if read.None? {
          break;
        }
        ghost var s := Concat(input[..k]);
        var c := read.value;
        if |unprocessedBytes| > 0 {
          // append, then swap: the buffer is emptied into the carry-over and they trade places
          unprocessedBytes := unprocessedBytes + c;
          c := [];
          unprocessedBytes, c := c, unprocessedBytes;
        }
        assert c == Rest(s, ChunkSeps) + input[k] && unprocessedBytes == [];
        CarryOver(s, input[k]);
        ConcatStep(input, k);
        var j, split;
        records, result, j, split := DecodeChunk(c, records, result, Emit(Scan(s, ChunkSeps).found), valid);
        if split.Err? {
          ConcatSplit(input, k + 1);
          RunStopped(Concat(input[..k + 1]), Concat(input[k + 1..]), valid);
          return records, split;
        }
        if j > 0 {
          unprocessedBytes := unprocessedBytes + c[j..];
        } else {
          unprocessedBytes := c;
        }
        k := k + 1;
      }

      assert input[..k] == input;
      DecodeFlush(Concat(input), valid);
      var last := ParseCell(unprocessedBytes, valid);
      if last.Err? {
        return records, Err(last.error);
      }
      result := result + [last.value];
      records := records + [result];
      outcome := Ok(());
    }
  }
}
