/** What csv_reader.rs for_each_line does, read by read. Its callback pushes a cell only
    when the cell is valid text and otherwise reports an error, but split_to_string keeps
    only the callback's result for the LAST boundary of a chunk. So a cell that is not
    valid text is either left out silently or ends the run, depending on where the reads
    happen to cut the stream. */
module LaxLines {
  import opened Bytes
  import opened Scanner
  import opened Stream
  import opened Records

  /** for_each_line's callback on one event: a cell that is valid text joins the record,
      one that is not is left out; a record end hands the record over. */
  function LaxFeed(a: Assembly, e: Event, valid: seq<byte> -> bool): Assembly
  {
    match e
    case NewCell(c) => if valid(c) then Assembly(a.done, a.holder + [c]) else a
    case NewLine => Assembly(a.done + [a.holder], [])
  }

  function LaxFeedAll(a: Assembly, events: seq<Event>, valid: seq<byte> -> bool): Assembly
  {
    if events == [] then a else LaxFeed(LaxFeedAll(a, events[..|events| - 1], valid), events[|events| - 1], valid)
  }

  /** Whether the callback succeeded on an event: it fails only on a cell that is not valid text. */
  predicate EventOk(e: Event, valid: seq<byte> -> bool)
  {
    e.NewCell? ==> valid(e.bytes)
  }

  /** What split_to_string reports for a chunk: the callback's result on the last event. */
  predicate LastOk(events: seq<Event>, valid: seq<byte> -> bool)
  {
    events == [] || EventOk(events[|events| - 1], valid)
  }

  /** Records handed over, and whether the run ended with Ok. */
  datatype LineRun = LineRun(done: seq<Record>, ok: bool)

  /** The rest of a run of for_each_line: a the records so far, carry the carry-over, input
      the reads still to come. Records once handed over are never taken back, and a run that
      ends with Ok has handed over at least the final record. */
  function LaxRun(a: Assembly, carry: seq<byte>, input: seq<seq<byte>>, valid: seq<byte> -> bool): (r: LineRun)
    ensures a.done <= r.done
    ensures r.ok ==> |a.done| < |r.done|
    decreases |input|
  {
    if input == [] then
      if valid(carry) then LineRun(a.done + [a.holder + [carry]], true) else LineRun(a.done, false)
    else
      var chunk := carry + input[0];
      var ev := Emit(Scan(chunk, ChunkSeps).found);
      var fed := LaxFeedAll(a, ev, valid);
      LaxFeedAllExtends(a, ev, valid);
      if !LastOk(ev, valid) then LineRun(fed.done, false)
      else LaxRun(fed, Rest(chunk, ChunkSeps), input[1..], valid)
  }

  /** The callback only ever appends records. */
  lemma {:induction false} LaxFeedAllExtends(a: Assembly, events: seq<Event>, valid: seq<byte> -> bool)
    ensures a.done <= LaxFeedAll(a, events, valid).done
  {
    if events != [] {
      LaxFeedAllExtends(a, events[..|events| - 1], valid);
    }
  }

  /** A whole run of for_each_line over the reads input: when it ends with Ok, the final
      flush has handed over a record. */
  function ForEachLineRun(input: seq<seq<byte>>, valid: seq<byte> -> bool): (r: LineRun)
    ensures r.ok ==> |r.done| >= 1
  {
    LaxRun(Assembly([], []), [], input, valid)
  }

  /** On events whose cells are all valid text, the callback builds what the raw consumer
      builds, and reports success on the last one. */
  lemma {:induction false} LaxFeedValid(a: Assembly, events: seq<Event>, valid: seq<byte> -> bool)
    requires AllValid(events, valid)
    ensures LaxFeedAll(a, events, valid) == FeedAll(a, events)
    ensures LastOk(events, valid)
  {
    if events != [] {
      var pre := events[..|events| - 1];
      assert forall k | 0 <= k < |pre| :: pre[k] == events[k];
      LaxFeedValid(a, pre, valid);
    }
  }

  lemma ConcatFront(input: seq<seq<byte>>)
    requires input != []
    ensures Concat(input) == input[0] + Concat(input[1..])
  {
    ConcatSplit(input, 1);
    assert input[..1][..0] == [];
  }

  /** Every cell among a prefix of valid events is valid. */
  lemma ValidPrefix(p: seq<Event>, q: seq<Event>, valid: seq<byte> -> bool)
    requires p <= q && AllValid(q, valid)
    ensures AllValid(p, valid)
  {
    assert forall k | 0 <= k < |p| :: p[k] == q[k];
  }

  /** Every cell in the middle of valid events is valid. */
  lemma ValidSuffix(p: seq<Event>, q: seq<Event>, valid: seq<byte> -> bool)
    requires AllValid(p + q, valid)
    ensures AllValid(q, valid)
  {
    assert forall k | 0 <= k < |q| :: q[k] == (p + q)[|p| + k];
  }

  /** When every cell of the stream is valid text, the rest of a run, started after the stream
      s has been read, ends with Ok and with the raw records of the whole stream. */
  lemma {:induction false} LaxRunValid(s: seq<byte>, rest: seq<seq<byte>>, valid: seq<byte> -> bool)
    requires AllValid(StreamEvents(s + Concat(rest)), valid)
    decreases |rest|
    ensures LaxRun(FeedAll(Assembly([], []), Emit(Scan(s, ChunkSeps).found)), Rest(s, ChunkSeps), rest, valid)
      == LineRun(Records.Records(s + Concat(rest)), true)
  {
    var init := Assembly([], []);
    var e := Emit(Scan(s, ChunkSeps).found);
    var a := FeedAll(init, e);
    if rest == [] {
      assert s + Concat(rest) == s;
      var ev := StreamEvents(s);
      assert ev[|ev| - 1] == NewCell(Rest(s, ChunkSeps));
      assert StreamEvents(s) + [NewLine] == e + [NewCell(Rest(s, ChunkSeps)), NewLine];
      FeedAllAppend(init, e, [NewCell(Rest(s, ChunkSeps)), NewLine]);
      assert [NewCell(Rest(s, ChunkSeps)), NewLine][..1] == [NewCell(Rest(s, ChunkSeps))];
      assert [NewCell(Rest(s, ChunkSeps))][..0] == [];
    } else {
      var chunk := Rest(s, ChunkSeps) + rest[0];
      var ev := Emit(Scan(chunk, ChunkSeps).found);
      var s' := s + rest[0];
      ConcatFront(rest);
      assert s' + Concat(rest[1..]) == s + Concat(rest);
      CarryOver(s, rest[0]);
      EmitExtends(s', Concat(rest[1..]));
      assert e + ev <= StreamEvents(s + Concat(rest));
      ValidPrefix(e + ev, StreamEvents(s + Concat(rest)), valid);
      ValidSuffix(e, ev, valid);
      LaxFeedValid(a, ev, valid);
      FeedAllAppend(init, e, ev);
      LaxRunValid(s', rest[1..], valid);
    }
  }

  /** When every cell of the stream is valid text, for_each_line ends with Ok and hands over
      exactly the records of for_each_raw_line, whatever the reads. */
  lemma ForEachLineValid(input: seq<seq<byte>>, valid: seq<byte> -> bool)
    requires AllValid(StreamEvents(Concat(input)), valid)
    ensures ForEachLineRun(input, valid) == LineRun(Records.Records(Concat(input)), true)
  {
    assert [] + Concat(input) == Concat(input);
    assert Scan([], ChunkSeps).found == [] && Rest([], ChunkSeps) == [];
    assert FeedAll(Assembly([], []), Emit([])) == Assembly([], []);
    LaxRunValid([], input, valid);
  }

  /** The same bytes, "\xFF,a\n", as one read or as two: as one read the bad cell is left out
      and the run ends with Ok; as two reads the run ends with an error after the first. The
      fail-fast consumer rejects the stream either way. */
  lemma ForEachLineDependsOnReads(valid: seq<byte> -> bool)
    requires !valid([255]) && valid([97]) && valid([])
    ensures Concat([[255, 44, 97, 10]]) == Concat([[255, 44], [97, 10]])
    ensures ForEachLineRun([[255, 44, 97, 10]], valid) == LineRun([[[97]], [[]]], true)
    ensures ForEachLineRun([[255, 44], [97, 10]], valid) == LineRun([], false)
    ensures RunStream(Concat([[255, 44, 97, 10]]), valid).failed
  {
    assert [[255, 44, 97, 10]][..0] == [];
    assert [[255, 44], [97, 10]][..1] == [[255, 44]];
    assert [[255, 44], [97, 10]][..1][..0] == [];
    assert Concat([[255, 44], [97, 10]]) == [] + [255, 44] + [97, 10];
    assert Concat([[255, 44, 97, 10]]) == [255, 44, 97, 10];
    OneRead(valid);
    TwoReads(valid);
    FailFastSample(valid);
  }

  /** "\xFF,a\n" scanned at once: a comma cell, then a line-feed cell, nothing after. */
  lemma ScanSample()
    ensures Emit(Scan([255, 44, 97, 10], ChunkSeps).found) == [NewCell([255]), NewCell([97]), NewLine]
    ensures Rest([255, 44, 97, 10], ChunkSeps) == []
  {
    var b1 := Boundary([255], COMMA);
    var b2 := Boundary([97], LF);
    SampleBoundaries();
    assert [b1, b2][..1] == [b1] && [b1][..0] == [];
    assert Emit([b1]) == [NewCell([255])];
    assert Emit([b1, b2]) == [NewCell([255])] + [NewCell([97]), NewLine];
  }

  lemma SampleBoundaries()
    ensures Scan([255, 44, 97, 10], ChunkSeps) == State(false, 4, [Boundary([255], COMMA), Boundary([97], LF)])
  {
    var one: seq<byte> := [255, 44, 97, 10];
    var b1 := Boundary([255], COMMA);
    var b2 := Boundary([97], LF);
    assert one[0..1] == [255] && one[2..3] == [97];
    assert ScanTo(one, 1, ChunkSeps) == State(false, 0, []);
    assert ScanTo(one, 2, ChunkSeps) == State(false, 2, [] + [b1]);
    assert ScanTo(one, 3, ChunkSeps) == State(false, 2, [b1]);
    assert ScanTo(one, 4, ChunkSeps) == State(false, 4, [b1] + [b2]);
  }

  /** As one read, the bad cell is left out and the run ends with Ok. */
  lemma OneRead(valid: seq<byte> -> bool)
    requires !valid([255]) && valid([97]) && valid([])
    ensures ForEachLineRun([[255, 44, 97, 10]], valid) == LineRun([[[97]], [[]]], true)
  {
    var one: seq<byte> := [255, 44, 97, 10];
    var init := Assembly([], []);
    ScanSample();
    var ev := [NewCell([255]), NewCell([97]), NewLine];
    assert ev[..2] == [NewCell([255]), NewCell([97])] && ev[..2][..1] == [NewCell([255])];
    assert ev[..2][..1][..0] == [];
    assert LaxFeedAll(init, ev[..2][..1], valid) == init;
    assert LaxFeedAll(init, ev[..2], valid) == Assembly([], [[97]]);
    assert LaxFeedAll(init, ev, valid) == Assembly([[[97]]], []);
    assert [] + one == one;
    var whole: seq<seq<byte>> := [one];
    assert whole[0] == one && whole[1..] == [];
    var empty: seq<byte> := [];
    assert [[97]] + [[]] == [[97], []] && [] + [empty] == [empty];
    assert LastOk(ev, valid);
    assert ForEachLineRun(whole, valid) == LaxRun(Assembly([[[97]]], []), [], [], valid);
  }

  /** As two reads, the first read ends with the bad cell and the run ends with an error. */
  lemma TwoReads(valid: seq<byte> -> bool)
    requires !valid([255])
    ensures ForEachLineRun([[255, 44], [97, 10]], valid) == LineRun([], false)
  {
    var init := Assembly([], []);
    var b1 := Boundary([255], COMMA);
    var first: seq<byte> := [255, 44];
    assert first[0..1] == [255];
    assert [] + first == first;
    assert ScanTo(first, 1, ChunkSeps) == State(false, 0, []);
    assert Scan(first, ChunkSeps) == State(false, 2, [] + [b1]);
    assert [b1][..0] == [];
    assert Emit([b1]) == [NewCell([255])];
    assert !LastOk([NewCell([255])], valid);
    assert [NewCell([255])][..0] == [];
    var split: seq<seq<byte>> := [first, [97, 10]];
    assert split[0] == first;
    assert LaxFeedAll(init, [NewCell([255])], valid) == init;
  }

  /** The fail-fast consumer rejects "\xFF,a\n". */
  lemma FailFastSample(valid: seq<byte> -> bool)
    requires !valid([255])
    ensures RunStream([255, 44, 97, 10], valid).failed
  {
    ScanSample();
    RunStreamOutcome([255, 44, 97, 10], valid);
    assert StreamEvents([255, 44, 97, 10])[0] == NewCell([255]);
  }
}
