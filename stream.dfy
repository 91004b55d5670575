/** The byte stream as the readers see it: a sequence of non-empty reads, a 0-byte
    read meaning end of stream. What the stream is expected to produce, whatever
    the reads it is cut into. */
module Stream {
  import opened Bytes
  import opened Scanner

  /** The bytes of all reads, in order. */
  function Concat(input: seq<seq<byte>>): seq<byte>
  {
    if input == [] then [] else Concat(input[..|input| - 1]) + input[|input| - 1]
  }

  /** The k-th read: the k-th piece of the stream, or nothing once the stream is over. */
  function ReadAt(input: seq<seq<byte>>, k: nat): (r: seq<byte>)
    ensures k < |input| ==> r == input[k]
    ensures k >= |input| ==> r == []
  {
    if k < |input| then input[k] else []
  }

  /** The index of the first 0-byte read from read k on. */
  function EndFrom(input: seq<seq<byte>>, k: nat): (e: nat)
    requires k <= |input|
    ensures k <= e <= |input|
    decreases |input| - k
  {
    if k == |input| || input[k] == [] then k else EndFrom(input, k + 1)
  }

  /** The reads a reader takes in: those before the first 0-byte read. */
  function Taken(input: seq<seq<byte>>): seq<seq<byte>>
  {
    input[..EndFrom(input, 0)]
  }

  predicate NonEmptyReads(input: seq<seq<byte>>)
  {
    forall k | 0 <= k < |input| :: |input[k]| > 0
  }

  /** The reads before the first 0-byte read are non-empty, and when no read is empty the
      reader takes in the whole stream. */
  lemma {:induction false} TakenReads(input: seq<seq<byte>>, k: nat)
    requires k <= |input|
    ensures forall j | k <= j < EndFrom(input, k) :: |input[j]| > 0
    ensures EndFrom(input, k) < |input| ==> input[EndFrom(input, k)] == []
    ensures NonEmptyReads(input) ==> EndFrom(input, k) == |input|
    decreases |input| - k
  {
    if k < |input| && input[k] != [] {
      TakenReads(input, k + 1);
    }
  }

  lemma AllTaken(input: seq<seq<byte>>)
    requires NonEmptyReads(input)
    ensures Taken(input) == input
  {
    TakenReads(input, 0);
  }

  /** The events of the whole stream scanned at once, then a final cell holding whatever
      followed the last separator. */
  function StreamEvents(s: seq<byte>): seq<Event>
  {
    Emit(Scan(s, ChunkSeps).found) + [NewCell(Rest(s, ChunkSeps))]
  }

  lemma ConcatStep(input: seq<seq<byte>>, k: nat)
    requires k < |input|
    ensures Concat(input[..k + 1]) == Concat(input[..k]) + input[k]
  {
    assert input[..k + 1][..k] == input[..k];
  }

  lemma {:induction false} ConcatSplit(input: seq<seq<byte>>, k: nat)
    requires k <= |input|
    ensures Concat(input) == Concat(input[..k]) + Concat(input[k..])
  {
    if k < |input| {
      var n := |input|;
      ConcatSplit(input[..n - 1], k);
      assert input[..n - 1][..k] == input[..k];
      assert input[..n - 1][k..] == input[k..][..|input[k..]| - 1];
    } else {
      assert input[..k] == input;
    }
  }

  /** One step of a reader's loop: the carry-over, followed by the bytes just read, is
      scanned from outside quotes. The new events extend the stream's events and the new
      carry-over is the stream's remainder: no byte is dropped or duplicated. */
  lemma CarryOver(s: seq<byte>, r: seq<byte>)
    ensures var chunk := Rest(s, ChunkSeps) + r;
      Emit(Scan(s + r, ChunkSeps).found) == Emit(Scan(s, ChunkSeps).found) + Emit(Scan(chunk, ChunkSeps).found)
      && Rest(s + r, ChunkSeps) == Rest(chunk, ChunkSeps)
  {
    CarryStep(s, r, ChunkSeps);
    EmitAppend(Scan(s, ChunkSeps).found, Scan(Rest(s, ChunkSeps) + r, ChunkSeps).found);
  }

  /** The carry-over a reader holds after the first k reads: what follows the last separator
      of the previous carry-over followed by the k-th read. */
  function Carry(input: seq<seq<byte>>, k: nat): seq<byte>
    requires k <= |input|
  {
    if k == 0 then [] else Rest(Carry(input, k - 1) + input[k - 1], ChunkSeps)
  }

  /** The events a reader reports over the first k reads, chunk by chunk. */
  function ChunkEvents(input: seq<seq<byte>>, k: nat): seq<Event>
    requires k <= |input|
  {
    if k == 0 then []
    else ChunkEvents(input, k - 1) + Emit(Scan(Carry(input, k - 1) + input[k - 1], ChunkSeps).found)
  }

  /** Scanning chunk by chunk, each with the carry-over in front, reports what scanning the
      bytes read so far at once reports, and keeps its remainder. */
  lemma {:induction false} ChunksAreStream(input: seq<seq<byte>>, k: nat)
    requires k <= |input|
    ensures ChunkEvents(input, k) == Emit(Scan(Concat(input[..k]), ChunkSeps).found)
    ensures Carry(input, k) == Rest(Concat(input[..k]), ChunkSeps)
  {
    if k > 0 {
      ChunksAreStream(input, k - 1);
      CarryOver(Concat(input[..k - 1]), input[k - 1]);
      ConcatStep(input, k - 1);
    } else {
      assert input[..0] == [];
    }
  }

  /** The boundaries found in a prefix of the stream are a prefix of those of the stream. */
  lemma {:induction false} FoundGrows(s: seq<byte>, i: nat, n: nat, seps: set<byte>)
    requires i <= n <= |s|
    ensures ScanTo(s, i, seps).found <= ScanTo(s, n, seps).found
  {
    if i < n {
      FoundGrows(s, i, n - 1, seps);
    }
  }
}
