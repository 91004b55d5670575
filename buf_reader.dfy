/** process_csv/src/buf_reader.rs: a line-at-a-time reader; parse_line splits one line at
    the commas that are outside double quotes and drops the line feed that ends it. Lines
    are byte sequences; a cell keeps its quotes. */
module BufReader {
  import opened Bytes
  import opened Scanner
  import opened Records

  /** The cells of the boundaries, in order. */
  function Cells(found: seq<Boundary>): (cells: seq<seq<byte>>)
    ensures |cells| == |found|
  {
    if found == [] then [] else Cells(found[..|found| - 1]) + [found[|found| - 1].cell]
  }

  /** The line without the line feed that ends it, if it ends with one. */
  function StripLF(s: seq<byte>): seq<byte>
  {
    if |s| > 0 && s[|s| - 1] == LF then s[..|s| - 1] else s
  }

  /** The cells of a line: those closed by its unquoted commas, then what follows the last
      of them, without the final line feed. */
  function LineCells(line: seq<byte>): seq<seq<byte>>
  {
    Cells(Scan(line, LineSeps).found) + [StripLF(Rest(line, LineSeps))]
  }

  /** parse_line: one pass over the bytes of the line, with i counting the bytes seen and j
      the start of the current cell; at the end, a final line feed is not part of the last
      cell. */
  method ParseLine(line: seq<byte>) returns (cells: seq<seq<byte>>)
    ensures cells == LineCells(line)
    ensures |cells| == SepCount(line, |line|, LineSeps, COMMA) + 1
    ensures Join(cells, COMMA) == StripLF(line)
  {
    var skip := false;
    var i := 0;
    var j := 0;
    cells := [];
    while i < |line|
      invariant i <= |line|
      invariant skip == ScanTo(line, i, LineSeps).inside && j == ScanTo(line, i, LineSeps).start
      invariant cells == Cells(ScanTo(line, i, LineSeps).found)
    {
      var b := line[i];
      if b == QUOTES {
        skip := !skip;
      }
      if !skip && b == COMMA {
        cells := cells + [line[j..i]];
        j := i + 1;
      }
      i := i + 1;
    }
    LastCell(line);
    if |line| > 0 && line[|line| - 1] == LF {
      i := i - 1;
    }
    cells := cells + [line[j..i]];
    assert cells == LineCells(line);
    LineCellsCount(line);
    LineCellsJoin(line);
  }

  /** The last cell runs from the last unquoted comma to the end, less a final line feed. */
  lemma LastCell(line: seq<byte>)
    ensures var j, i := Scan(line, LineSeps).start, if |line| > 0 && line[|line| - 1] == LF then |line| - 1 else |line|;
      j <= i && line[j..i] == StripLF(Rest(line, LineSeps))
  {
    FoundSeps(line, |line|, LineSeps);
  }

  /** One cell per unquoted comma, plus the last. */
  lemma LineCellsCount(line: seq<byte>)
    ensures |LineCells(line)| == SepCount(line, |line|, LineSeps, COMMA) + 1
  {
    var found := Scan(line, LineSeps).found;
    FoundSeps(line, |line|, LineSeps);
    FoundCountAll(found, COMMA);
    FoundCountIsSepCount(line, |line|, LineSeps, COMMA);
  }

  /** Cells each followed by a comma stand for the boundaries when every separator is a comma. */
  lemma {:induction false} TerminatedCells(found: seq<Boundary>)
    requires forall k | 0 <= k < |found| :: found[k].sep == COMMA
    ensures Terminated(Cells(found), COMMA) == Flatten(found)
  {
    if found != [] {
      var f := found[..|found| - 1];
      TerminatedCells(f);
      var c := Cells(found);
      assert c[..|c| - 1] == Cells(f);
    }
  }

  /** Joining the cells with commas gives back the line, less its final line feed. */
  lemma LineCellsJoin(line: seq<byte>)
    ensures Join(LineCells(line), COMMA) == StripLF(line)
  {
    var found := Scan(line, LineSeps).found;
    var rest := Rest(line, LineSeps);
    FoundSeps(line, |line|, LineSeps);
    TerminatedCells(found);
    RoundTrip(line, LineSeps);
    var c := LineCells(line);
    assert c[..|c| - 1] == Cells(found);
    if |line| > 0 && line[|line| - 1] == LF {
      assert rest != [];
      assert line[..|line| - 1] == Flatten(found) + rest[..|rest| - 1];
    }
  }

  /** Bytes with no quote and no separator leave the scan where it started. */
  lemma {:induction false} NoQuoteNoSep(x: seq<byte>, i: nat, seps: set<byte>)
    requires i <= |x|
    requires forall k | 0 <= k < i :: x[k] != QUOTES && x[k] !in seps
    ensures ScanTo(x, i, seps) == State(false, 0, [])
  {
    if i > 0 {
      NoQuoteNoSep(x, i - 1, seps);
    }
  }

  /** A cell with no quote and no separator, then a separator. */
  lemma PlainCell(x: seq<byte>, c: byte, seps: set<byte>)
    requires forall k | 0 <= k < |x| :: x[k] != QUOTES && x[k] !in seps
    requires c in seps && c != QUOTES
    ensures Scan(x + [c], seps) == State(false, |x| + 1, [Boundary(x, c)])
  {
    assert (x + [c])[..|x|] == x[..|x|];
    ScanPrefix(x + [c], x, |x|, seps);
    NoQuoteNoSep(x, |x|, seps);
    assert (x + [c])[0..|x|] == x;
  }

  /** Scanning on after a separator that closes s is scanning the rest afresh. */
  lemma AfterSep(s: seq<byte>, r: seq<byte>, seps: set<byte>)
    requires !Scan(s, seps).inside && Scan(s, seps).start == |s|
    ensures var st, rt := Scan(s, seps), Scan(r, seps);
      Scan(s + r, seps) == State(rt.inside, |s| + rt.start, st.found + rt.found)
      && Rest(s + r, seps) == Rest(r, seps)
  {
    CarryStep(s, r, seps);
    assert Rest(s, seps) + r == r;
  }

  // The cells of the tests of buf_reader.rs, as bytes.
  /** "Sample" */
  const SampleText: seq<byte> := [83, 97, 109, 112, 108, 101]
  /** "Header" */
  const HeaderText: seq<byte> := [72, 101, 97, 100, 101, 114]
  /** "Example" */
  const ExampleText: seq<byte> := [69, 120, 97, 109, 112, 108, 101]
  /** "\"He\"\"@add\"\"ader\"": a quoted cell with doubled quotes inside */
  const QuotedText: seq<byte> := [34, 72, 101, 34, 34, 64, 97, 100, 100, 34, 34, 97, 100, 101, 114, 34]

  /** Scanning the cell followed by a comma closes exactly that cell, outside quotes. */
  predicate ClosedCell(x: seq<byte>)
  {
    Scan(x + [COMMA], LineSeps) == State(false, |x| + 1, [Boundary(x, COMMA)])
  }

  /** Bytes with no quote and no comma: the scan does not split them. */
  predicate Unsplit(z: seq<byte>)
  {
    forall k | 0 <= k < |z| :: z[k] != QUOTES && z[k] != COMMA
  }

  /** Two closed cells, each with its comma, then bytes the scan does not split: the scan
      finds the two cells and keeps the rest. */
  lemma ThreeCellsScan(x: seq<byte>, y: seq<byte>, z: seq<byte>)
    requires ClosedCell(x) && ClosedCell(y) && Unsplit(z)
    ensures Scan(x + [COMMA] + y + [COMMA] + z, LineSeps).found == [Boundary(x, COMMA), Boundary(y, COMMA)]
    ensures Rest(x + [COMMA] + y + [COMMA] + z, LineSeps) == z
  {
    NoQuoteNoSep(z, |z|, LineSeps);
    AfterSep(y + [COMMA], z, LineSeps);
    AfterSep(x + [COMMA], y + [COMMA] + z, LineSeps);
    assert x + [COMMA] + y + [COMMA] + z == x + [COMMA] + (y + [COMMA] + z);
  }

  /** Such a line parses into the two cells and the rest, less a final line feed. */
  lemma ThreeCells(x: seq<byte>, y: seq<byte>, z: seq<byte>)
    requires ClosedCell(x) && ClosedCell(y) && Unsplit(z)
    ensures LineCells(x + [COMMA] + y + [COMMA] + z) == [x, y, StripLF(z)]
  {
    ThreeCellsScan(x, y, z);
    var found := [Boundary(x, COMMA), Boundary(y, COMMA)];
    assert found[..1] == [Boundary(x, COMMA)] && found[..1][..0] == [];
    assert Cells(found) == [x, y];
  }

  /** The first test of buf_reader.rs: "Sample,Header,Example". */
  lemma ParseLinePlain()
    ensures LineCells(SampleText + [COMMA] + HeaderText + [COMMA] + ExampleText) == [SampleText, HeaderText, ExampleText]
  {
    PlainCell(SampleText, COMMA, LineSeps);
    PlainCell(HeaderText, COMMA, LineSeps);
    ThreeCells(SampleText, HeaderText, ExampleText);
  }

  /** The quoted cell of the second test, then its comma: its doubled quotes flip the
      parity in and out, and it is even again before the closing comma. */
  lemma QuotedCell()
    ensures Scan(QuotedText + [COMMA], LineSeps) == State(false, 17, [Boundary(QuotedText, COMMA)])
  {
    var q: seq<byte> := QuotedText + [COMMA];
    QuotedSteps0();
    QuotedSteps6();
    QuotedSteps11();
    assert q[0..16] == QuotedText;
  }

  lemma QuotedSteps0()
    ensures ScanTo(QuotedText + [COMMA], 6, LineSeps) == State(true, 0, [])
  {
    var q: seq<byte> := QuotedText + [COMMA];
    assert ScanTo(q, 1, LineSeps) == State(true, 0, []);
    assert ScanTo(q, 2, LineSeps) == State(true, 0, []);
    assert ScanTo(q, 3, LineSeps) == State(true, 0, []);
    assert ScanTo(q, 4, LineSeps) == State(false, 0, []);
    assert ScanTo(q, 5, LineSeps) == State(true, 0, []);
  }

  lemma QuotedSteps6()
    requires ScanTo(QuotedText + [COMMA], 6, LineSeps) == State(true, 0, [])
    ensures ScanTo(QuotedText + [COMMA], 11, LineSeps) == State(true, 0, [])
  {
    var q: seq<byte> := QuotedText + [COMMA];
    assert ScanTo(q, 7, LineSeps) == State(true, 0, []);
    assert ScanTo(q, 8, LineSeps) == State(true, 0, []);
    assert ScanTo(q, 9, LineSeps) == State(true, 0, []);
    assert ScanTo(q, 10, LineSeps) == State(false, 0, []);
  }

  lemma QuotedSteps11()
    requires ScanTo(QuotedText + [COMMA], 11, LineSeps) == State(true, 0, [])
    ensures ScanTo(QuotedText + [COMMA], 16, LineSeps) == State(false, 0, [])
  {
    var q: seq<byte> := QuotedText + [COMMA];
    assert ScanTo(q, 12, LineSeps) == State(true, 0, []);
    assert ScanTo(q, 13, LineSeps) == State(true, 0, []);
    assert ScanTo(q, 14, LineSeps) == State(true, 0, []);
    assert ScanTo(q, 15, LineSeps) == State(true, 0, []);
  }

  /** The second test of buf_reader.rs: "Sample,\"He\"\"@add\"\"ader\",Example\n"; the quoted
      cell keeps its quotes and the final line feed is dropped. */
  lemma ParseLineQuoted()
    ensures LineCells(SampleText + [COMMA] + QuotedText + [COMMA] + ExampleText + [LF])
      == [SampleText, QuotedText, ExampleText]
  {
    PlainCell(SampleText, COMMA, LineSeps);
    QuotedCell();
    var z := ExampleText + [LF];
    assert Unsplit(z);
    ThreeCells(SampleText, QuotedText, z);
    assert z[|z| - 1] == LF && z[..|z| - 1] == ExampleText;
    assert SampleText + [COMMA] + QuotedText + [COMMA] + ExampleText + [LF]
      == SampleText + [COMMA] + QuotedText + [COMMA] + z;
  }
}
