/** Record assembly on top of the chunk scanner: cells are collected into a record
    until an unquoted line feed hands the record to the consumer. Two consumers
    exist: one that keeps raw bytes (csv_reader.rs for_each_raw_line) and one that
    decodes every cell as text and gives up at the first cell that is not valid
    text (chunk_reader.rs run). Text validity is a parameter, `valid`. */
module Records {
  import opened Bytes
  import opened Scanner
  import opened Stream

  type Record = seq<seq<byte>>

  /** Records handed to the consumer so far, and the cells of the record being built. */
  datatype Assembly = Assembly(done: seq<Record>, holder: Record)

  function Feed(a: Assembly, e: Event): Assembly
  {
    match e
    case NewCell(c) => Assembly(a.done, a.holder + [c])
    case NewLine => Assembly(a.done + [a.holder], [])
  }

  function FeedAll(a: Assembly, events: seq<Event>): Assembly
  {
    if events == [] then a else Feed(FeedAll(a, events[..|events| - 1]), events[|events| - 1])
  }

  /** The records of a whole stream: its events, the final cell included, then one last
      record end for the final flush. */
  function Records(s: seq<byte>): seq<Record>
  {
    FeedAll(Assembly([], []), StreamEvents(s) + [NewLine]).done
  }

  /** Each cell followed by sep. */
  function Terminated(cells: Record, sep: byte): seq<byte>
  {
    if cells == [] then [] else Terminated(cells[..|cells| - 1], sep) + cells[|cells| - 1] + [sep]
  }

  /** The cells with sep between them. */
  function Join(cells: Record, sep: byte): seq<byte>
  {
    if cells == [] then [] else Terminated(cells[..|cells| - 1], sep) + cells[|cells| - 1]
  }

  /** Each record joined by commas and followed by a line feed. */
  function LinesText(recs: seq<Record>): seq<byte>
  {
    if recs == [] then [] else LinesText(recs[..|recs| - 1]) + Join(recs[|recs| - 1], COMMA) + [LF]
  }

  /** The records with line feeds between them, the cells of each with commas between them. */
  function JoinRecords(recs: seq<Record>): seq<byte>
  {
    if recs == [] then [] else LinesText(recs[..|recs| - 1]) + Join(recs[|recs| - 1], COMMA)
  }

  /** The bytes an assembly stands for. */
  function Text(a: Assembly): seq<byte>
  {
    LinesText(a.done) + Terminated(a.holder, COMMA)
  }

  lemma {:induction false} FeedAllAppend(a: Assembly, e1: seq<Event>, e2: seq<Event>)
    ensures FeedAll(a, e1 + e2) == FeedAll(FeedAll(a, e1), e2)
  {
    if e2 == [] {
      assert e1 + e2 == e1;
    } else {
      assert (e1 + e2)[..|e1 + e2| - 1] == e1 + e2[..|e2| - 1];
      FeedAllAppend(a, e1, e2[..|e2| - 1]);
    }
  }

  /** What the consumer holds after the first k reads, fed chunk by chunk. */
  function FedAfter(input: seq<seq<byte>>, k: nat): Assembly
    requires k <= |input|
  {
    if k == 0 then Assembly([], [])
    else FeedAll(FedAfter(input, k - 1), Emit(Scan(Carry(input, k - 1) + input[k - 1], ChunkSeps).found))
  }

  /** Feeding chunk by chunk is feeding the events of all chunks at once. */
  lemma {:induction false} FedChunks(input: seq<seq<byte>>, k: nat)
    requires k <= |input|
    ensures FedAfter(input, k) == FeedAll(Assembly([], []), ChunkEvents(input, k))
  {
    if k > 0 {
      FedChunks(input, k - 1);
      FeedAllAppend(Assembly([], []), ChunkEvents(input, k - 1),
        Emit(Scan(Carry(input, k - 1) + input[k - 1], ChunkSeps).found));
    }
  }

  /** The events of one boundary close a cell, and at a line feed the record too. */
  lemma FeedBoundary(a: Assembly, b: Boundary)
    ensures FeedAll(a, EventsAt(b))
      == if b.sep == LF then Assembly(a.done + [a.holder + [b.cell]], []) else Assembly(a.done, a.holder + [b.cell])
  {
    assert [NewCell(b.cell)][..0] == [];
    if b.sep == LF {
      assert [NewCell(b.cell), NewLine][..1] == [NewCell(b.cell)];
      assert FeedAll(a, [NewCell(b.cell)]) == Assembly(a.done, a.holder + [b.cell]);
    }
  }

  /** Closing a cell adds the cell and its separator to the bytes an assembly stands for. */
  lemma TextBoundary(a: Assembly, b: Boundary)
    requires b.sep in ChunkSeps
    ensures Text(FeedAll(a, EventsAt(b))) == Text(a) + b.cell + [b.sep]
  {
    FeedBoundary(a, b);
    var h := a.holder + [b.cell];
    assert h[..|h| - 1] == a.holder;
    if b.sep == LF {
      var d := a.done + [h];
      assert d[..|d| - 1] == a.done;
    }
  }

  /** Feeding the events of boundaries builds records standing for the same bytes; records
      are closed exactly at line feeds, and none is empty. */
  lemma {:induction false} FeedFound(found: seq<Boundary>)
    requires forall k | 0 <= k < |found| :: found[k].sep in ChunkSeps
    ensures Text(FeedAll(Assembly([], []), Emit(found))) == Flatten(found)
    ensures |FeedAll(Assembly([], []), Emit(found)).done| == FoundCount(found, LF)
    ensures forall k | 0 <= k < |FeedAll(Assembly([], []), Emit(found)).done| ::
      FeedAll(Assembly([], []), Emit(found)).done[k] != []
  {
    if found != [] {
      var init := Assembly([], []);
      var f := found[..|found| - 1];
      var b := found[|found| - 1];
      FeedFound(f);
      var a := FeedAll(init, Emit(f));
      FeedAllAppend(init, Emit(f), EventsAt(b));
      FeedBoundary(a, b);
      TextBoundary(a, b);
    }
  }

  /** The records of a stream: those its events complete, then the pending record with the
      stream's remainder as its last cell. */
  lemma FinalRecord(s: seq<byte>, a: Assembly)
    requires a == FeedAll(Assembly([], []), Emit(Scan(s, ChunkSeps).found))
    ensures Records(s) == a.done + [a.holder + [Rest(s, ChunkSeps)]]
  {
    var rest := Rest(s, ChunkSeps);
    var e := Emit(Scan(s, ChunkSeps).found);
    assert StreamEvents(s) + [NewLine] == e + [NewCell(rest), NewLine];
    FeedAllAppend(Assembly([], []), e, [NewCell(rest), NewLine]);
    assert [NewCell(rest), NewLine][..1] == [NewCell(rest)];
    assert [NewCell(rest)][..0] == [];
  }

  /** Joining the records (cells by commas, records by line feeds) gives back the stream. */
  lemma RecordsRoundTrip(s: seq<byte>)
    ensures JoinRecords(Records(s)) == s
  {
    var f := Scan(s, ChunkSeps).found;
    var rest := Rest(s, ChunkSeps);
    FoundSeps(s, |s|, ChunkSeps);
    FeedFound(f);
    RoundTrip(s, ChunkSeps);
    var a := FeedAll(Assembly([], []), Emit(f));
    FinalRecord(s, a);
    var last := a.holder + [rest];
    assert last[..|last| - 1] == a.holder;
    assert (a.done + [last])[..|a.done|] == a.done;
  }

  /** There is one record per unquoted line feed, plus the final one; none is empty, and
      the final one ends with the carry-over. */
  lemma RecordsShape(s: seq<byte>)
    ensures |Records(s)| == SepCount(s, |s|, ChunkSeps, LF) + 1
    ensures forall k | 0 <= k < |Records(s)| :: Records(s)[k] != []
    ensures var last := Records(s)[|Records(s)| - 1]; last[|last| - 1] == Rest(s, ChunkSeps)
  {
    var init := Assembly([], []);
    var f := Scan(s, ChunkSeps).found;
    var rest := Rest(s, ChunkSeps);
    FoundSeps(s, |s|, ChunkSeps);
    FeedFound(f);
    FoundCountIsSepCount(s, |s|, ChunkSeps, LF);
    var a := FeedAll(init, Emit(f));
    assert StreamEvents(s) + [NewLine] == Emit(f) + [NewCell(rest), NewLine];
    FeedAllAppend(init, Emit(f), [NewCell(rest), NewLine]);
    assert [NewCell(rest), NewLine][..1] == [NewCell(rest)];
    assert [NewCell(rest)][..0] == [];
    assert Records(s) == a.done + [a.holder + [rest]];
  }

  // ---------------------------------------------------------------------------
  // The decoding consumer

  /** Records handed over, cells of the current record, and whether a cell failed. */
  datatype Decoding = Decoding(done: seq<Record>, result: Record, failed: bool)

  /** One event for the decoding consumer: a cell that is not valid text stops it for good. */
  function Step(st: Decoding, e: Event, valid: seq<byte> -> bool): Decoding
  {
    if st.failed then st
    else match e
      case NewCell(c) => if valid(c) then Decoding(st.done, st.result + [c], false) else Decoding(st.done, st.result, true)
      case NewLine => Decoding(st.done + [st.result], [], false)
  }

  function StepAll(st: Decoding, events: seq<Event>, valid: seq<byte> -> bool): Decoding
  {
    if events == [] then st else Step(StepAll(st, events[..|events| - 1], valid), events[|events| - 1], valid)
  }

  /** What the decoding consumer ends with over a whole stream, final flush included. */
  function RunStream(s: seq<byte>, valid: seq<byte> -> bool): Decoding
  {
    StepAll(Decoding([], [], false), StreamEvents(s) + [NewLine], valid)
  }

  /** Every cell among the events is valid text. */
  predicate AllValid(events: seq<Event>, valid: seq<byte> -> bool)
  {
    forall k | 0 <= k < |events| :: events[k].NewCell? ==> valid(events[k].bytes)
  }

  lemma {:induction false} StepAllAppend(st: Decoding, e1: seq<Event>, e2: seq<Event>, valid: seq<byte> -> bool)
    ensures StepAll(st, e1 + e2, valid) == StepAll(StepAll(st, e1, valid), e2, valid)
  {
    if e2 == [] {
      assert e1 + e2 == e1;
    } else {
      assert (e1 + e2)[..|e1 + e2| - 1] == e1 + e2[..|e2| - 1];
      StepAllAppend(st, e1, e2[..|e2| - 1], valid);
    }
  }

  /** Once a cell has failed, nothing changes any more. */
  lemma {:induction false} StepAllStopped(st: Decoding, events: seq<Event>, valid: seq<byte> -> bool)
    requires st.failed
    ensures StepAll(st, events, valid) == st
  {
    if events != [] {
      StepAllStopped(st, events[..|events| - 1], valid);
    }
  }

  /** While every cell is valid, the decoding consumer builds the same records as the raw one;
      it fails exactly when some cell is not valid. */
  lemma {:induction false} StepAllValid(a: Assembly, events: seq<Event>, valid: seq<byte> -> bool)
    ensures StepAll(Decoding(a.done, a.holder, false), events, valid).failed <==> !AllValid(events, valid)
    ensures AllValid(events, valid) ==>
      StepAll(Decoding(a.done, a.holder, false), events, valid)
      == Decoding(FeedAll(a, events).done, FeedAll(a, events).holder, false)
  {
    if events != [] {
      var pre := events[..|events| - 1];
      StepAllValid(a, pre, valid);
      assert forall k | 0 <= k < |pre| :: pre[k] == events[k];
    }
  }

  /** The decoding consumer gives up at the first cell that is not valid text: the records it
      handed over are exactly those completed before that cell. */
  lemma StopsAtFirstInvalid(events: seq<Event>, p: nat, valid: seq<byte> -> bool)
    requires p < |events| && events[p].NewCell? && !valid(events[p].bytes)
    requires AllValid(events[..p], valid)
    ensures StepAll(Decoding([], [], false), events, valid).failed
    ensures StepAll(Decoding([], [], false), events, valid).done == FeedAll(Assembly([], []), events[..p]).done
  {
    var init := Decoding([], [], false);
    StepAllValid(Assembly([], []), events[..p], valid);
    assert events == events[..p] + [events[p]] + events[p + 1..];
    StepAllAppend(init, events[..p] + [events[p]], events[p + 1..], valid);
    StepAllAppend(init, events[..p], [events[p]], valid);
    assert [events[p]][..0] == [];
    var mid := StepAll(init, events[..p] + [events[p]], valid);
    assert mid.failed;
    StepAllStopped(mid, events[p + 1..], valid);
  }

  /** Over a whole stream: the decoding consumer fails exactly when a cell of the stream is not
      valid text, and otherwise hands over the raw records. */
  lemma RunStreamOutcome(s: seq<byte>, valid: seq<byte> -> bool)
    ensures RunStream(s, valid).failed <==> !AllValid(StreamEvents(s), valid)
    ensures !RunStream(s, valid).failed ==> RunStream(s, valid).done == Records(s)
  {
    var ev := StreamEvents(s) + [NewLine];
    StepAllValid(Assembly([], []), ev, valid);
    assert forall k | 0 <= k < |StreamEvents(s)| :: ev[k] == StreamEvents(s)[k];
    assert AllValid(ev, valid) <==> AllValid(StreamEvents(s), valid) by {
      assert ev[|ev| - 1] == NewLine;
    }
  }

  /** The events of one boundary for the decoding consumer: the cell is added, or stops the
      consumer when it is not valid text; at a line feed the record is handed over. */
  lemma StepBoundary(st: Decoding, b: Boundary, valid: seq<byte> -> bool)
    requires !st.failed
    ensures StepAll(st, EventsAt(b), valid)
      == if !valid(b.cell) then Decoding(st.done, st.result, true)
         else if b.sep == LF then Decoding(st.done + [st.result + [b.cell]], [], false)
         else Decoding(st.done, st.result + [b.cell], false)
  {
    assert [NewCell(b.cell)][..0] == [];
    if b.sep == LF {
      assert [NewCell(b.cell), NewLine][..1] == [NewCell(b.cell)];
      assert StepAll(st, [NewCell(b.cell)], valid) == Step(st, NewCell(b.cell), valid);
    }
  }

  /** The events found in a prefix are a prefix of the events found later. */
  lemma EmitGrows(s: seq<byte>, i: nat, n: nat, seps: set<byte>)
    requires i <= n <= |s|
    ensures Emit(ScanTo(s, i, seps).found) <= Emit(ScanTo(s, n, seps).found)
  {
    FoundGrows(s, i, n, seps);
    var fi, fn := ScanTo(s, i, seps).found, ScanTo(s, n, seps).found;
    assert fn == fi + fn[|fi|..];
    EmitAppend(fi, fn[|fi|..]);
  }

  /** Reading more of the stream only adds events after those already found. */
  lemma EmitExtends(x: seq<byte>, y: seq<byte>)
    ensures Emit(Scan(x, ChunkSeps).found) <= Emit(Scan(x + y, ChunkSeps).found)
  {
    assert (x + y)[..|x|] == x[..|x|];
    ScanPrefix(x + y, x, |x|, ChunkSeps);
    EmitGrows(x + y, |x|, |x + y|, ChunkSeps);
  }

  /** One byte of a chunk for the decoding consumer that reads the chunk after the events e0
      of the stream before it: a separator outside quotes adds the cell before it (or stops
      the consumer when that cell is not valid text), and at a line feed hands over the
      record; any other byte changes nothing. */
  lemma DecodeStep(e0: seq<Event>, c: seq<byte>, i: nat, valid: seq<byte> -> bool)
    requires i < |c|
    ensures UnquotedSep(c, i, ChunkSeps) <==> !ScanTo(c, i + 1, ChunkSeps).inside && c[i] in ChunkSeps
    ensures var pre := ScanTo(c, i, ChunkSeps);
      var st := StepAll(Decoding([], [], false), e0 + Emit(pre.found), valid);
      var after := StepAll(Decoding([], [], false), e0 + Emit(ScanTo(c, i + 1, ChunkSeps).found), valid);
      var cell := c[pre.start..i];
      !st.failed ==>
        after == if !UnquotedSep(c, i, ChunkSeps) then st
          else if !valid(cell) then Decoding(st.done, st.result, true)
          else if c[i] == LF then Decoding(st.done + [st.result + [cell]], [], false)
          else Decoding(st.done, st.result + [cell], false)
  {
    var init := Decoding([], [], false);
    var pre := ScanTo(c, i, ChunkSeps);
    BoundaryAt(c, i, ChunkSeps);
    InsideIsOddQuotes(c, i + 1, ChunkSeps);
    if UnquotedSep(c, i, ChunkSeps) {
      var bd := Boundary(c[pre.start..i], c[i]);
      EmitAppend(pre.found, [bd]);
      assert Emit([bd]) == EventsAt(bd) by {
        assert [bd][..0] == [];
      }
      assert e0 + Emit(ScanTo(c, i + 1, ChunkSeps).found) == (e0 + Emit(pre.found)) + EventsAt(bd);
      StepAllAppend(init, e0 + Emit(pre.found), EventsAt(bd), valid);
      var st := StepAll(init, e0 + Emit(pre.found), valid);
      if !st.failed {
        StepBoundary(st, bd, valid);
      }
    }
  }

  lemma PrefixAppend<T>(e0: seq<T>, a: seq<T>, b: seq<T>)
    requires a <= b
    ensures e0 + a <= e0 + b
  {
    assert |e0 + a| <= |e0 + b|;
    forall k | 0 <= k < |e0 + a|
      ensures (e0 + a)[k] == (e0 + b)[k]
    {
      if k >= |e0| {
        assert (e0 + a)[k] == a[k - |e0|];
      }
    }
  }

  /** Once the consumer has stopped, further events change nothing. */
  lemma StoppedPrefix(st: Decoding, p: seq<Event>, q: seq<Event>, valid: seq<byte> -> bool)
    requires p <= q && StepAll(st, p, valid).failed
    ensures StepAll(st, q, valid) == StepAll(st, p, valid)
  {
    assert q == p + q[|p|..];
    StepAllAppend(st, p, q[|p|..], valid);
    StepAllStopped(StepAll(st, p, valid), q[|p|..], valid);
  }

  /** A cell that is not valid text at byte i of a chunk stops the consumer there: after the
      whole chunk it is in the state it had just before that cell, failed. */
  lemma DecodeStops(e0: seq<Event>, c: seq<byte>, i: nat, valid: seq<byte> -> bool)
    requires i < |c| && UnquotedSep(c, i, ChunkSeps)
    requires var pre := ScanTo(c, i, ChunkSeps);
      !valid(c[pre.start..i]) && !StepAll(Decoding([], [], false), e0 + Emit(pre.found), valid).failed
    ensures var st := StepAll(Decoding([], [], false), e0 + Emit(ScanTo(c, i, ChunkSeps).found), valid);
      StepAll(Decoding([], [], false), e0 + Emit(Scan(c, ChunkSeps).found), valid) == Decoding(st.done, st.result, true)
  {
    var init := Decoding([], [], false);
    var pre := ScanTo(c, i, ChunkSeps);
    var st := StepAll(init, e0 + Emit(pre.found), valid);
    var a := Emit(ScanTo(c, i + 1, ChunkSeps).found);
    DecodeStep(e0, c, i, valid);
    assert StepAll(init, e0 + a, valid) == Decoding(st.done, st.result, true);
    EmitGrows(c, i + 1, |c|, ChunkSeps);
    var b := Emit(Scan(c, ChunkSeps).found);
    PrefixAppend(e0, a, b);
    StoppedPrefix(Decoding([], [], false), e0 + a, e0 + b, valid);
  }

  /** Once the consumer has stopped on the stream read so far, whatever is read after
      changes nothing. */
  lemma RunStopped(s: seq<byte>, t: seq<byte>, valid: seq<byte> -> bool)
    requires StepAll(Decoding([], [], false), Emit(Scan(s, ChunkSeps).found), valid).failed
    ensures RunStream(s + t, valid) == StepAll(Decoding([], [], false), Emit(Scan(s, ChunkSeps).found), valid)
  {
    EmitExtends(s, t);
    var a := Emit(Scan(s, ChunkSeps).found);
    var full := StreamEvents(s + t) + [NewLine];
    assert a <= full;
    StoppedPrefix(Decoding([], [], false), a, full, valid);
  }

  /** The final flush: the carry-over is decoded as one last cell and its record handed over,
      unless that cell is not valid text. */
  lemma DecodeFlush(s: seq<byte>, valid: seq<byte> -> bool)
    requires !StepAll(Decoding([], [], false), Emit(Scan(s, ChunkSeps).found), valid).failed
    ensures var st := StepAll(Decoding([], [], false), Emit(Scan(s, ChunkSeps).found), valid);
      var rest := Rest(s, ChunkSeps);
      RunStream(s, valid) ==
        if valid(rest) then Decoding(st.done + [st.result + [rest]], [], false) else Decoding(st.done, st.result, true)
  {
    var init := Decoding([], [], false);
    var f := Emit(Scan(s, ChunkSeps).found);
    var last := Boundary(Rest(s, ChunkSeps), LF);
    assert StreamEvents(s) + [NewLine] == f + EventsAt(last);
    StepAllAppend(init, f, EventsAt(last), valid);
    StepBoundary(StepAll(init, f, valid), last, valid);
  }

  lemma DecodeStart(e0: seq<Event>, c: seq<byte>)
    ensures e0 + Emit(ScanTo(c, 0, ChunkSeps).found) == e0
  {
  }
}
