/** The quote-aware splitter shared by every reader of process_csv: a single
    left-to-right pass over a byte chunk that tracks quote parity and stops a
    cell at every separator met outside quotes. Quote bytes stay in the cells;
    nothing is unescaped. */
module Scanner {
  import opened Bytes

  const LF: byte := 10
  const COMMA: byte := 44
  const QUOTES: byte := 34

  /** Separators of the chunk scanners: a comma ends a cell, a line feed ends a cell and a record. */
  const ChunkSeps: set<byte> := {COMMA, LF}
  /** Separators of the line parser: only the comma. */
  const LineSeps: set<byte> := {COMMA}

  /** One separator found by the scanner: the bytes of the cell it ends and the separator itself. */
  datatype Boundary = Boundary(cell: seq<byte>, sep: byte)

  /** What a chunk scanner hands to its consumer. */
  datatype Event = NewCell(bytes: seq<byte>) | NewLine

  /** The scanner after a prefix: inside quotes or not, where the pending cell starts,
      and the separators found so far. */
  datatype State = State(inside: bool, start: nat, found: seq<Boundary>)

  /** The scanner's state after the first i bytes of s, starting outside quotes. */
  function ScanTo(s: seq<byte>, i: nat, seps: set<byte>): (st: State)
    requires i <= |s|
    ensures st.start <= i
  {
    if i == 0 then State(false, 0, [])
    else
      var prev := ScanTo(s, i - 1, seps);
      var b := s[i - 1];
      var inside := if b == QUOTES then !prev.inside else prev.inside;
      if !inside && b in seps then State(inside, i, prev.found + [Boundary(s[prev.start..i - 1], b)])
      else State(inside, prev.start, prev.found)
  }

  function Scan(s: seq<byte>, seps: set<byte>): State
  {
    ScanTo(s, |s|, seps)
  }

  /** The bytes after the last separator: what a reader keeps as carry-over. */
  function Rest(s: seq<byte>, seps: set<byte>): seq<byte>
  {
    s[Scan(s, seps).start..]
  }

  /** Number of quote bytes in s. */
  function QuoteCount(s: seq<byte>): nat
  {
    if s == [] then 0 else QuoteCount(s[..|s| - 1]) + (if s[|s| - 1] == QUOTES then 1 else 0)
  }

  /** Byte i of s is a separator with an even number of quotes up to and including it. */
  predicate UnquotedSep(s: seq<byte>, i: nat, seps: set<byte>)
    requires i < |s|
  {
    s[i] in seps && QuoteCount(s[..i + 1]) % 2 == 0
  }

  /** The bytes the boundaries stand for: each cell followed by its separator. */
  function Flatten(found: seq<Boundary>): seq<byte>
  {
    if found == [] then []
    else Flatten(found[..|found| - 1]) + found[|found| - 1].cell + [found[|found| - 1].sep]
  }

  /** The events one boundary produces: a line feed closes the cell and then the record. */
  function EventsAt(b: Boundary): seq<Event>
  {
    if b.sep == LF then [NewCell(b.cell), NewLine] else [NewCell(b.cell)]
  }

  function Emit(found: seq<Boundary>): seq<Event>
  {
    if found == [] then [] else Emit(found[..|found| - 1]) + EventsAt(found[|found| - 1])
  }

  /** Number of boundaries whose separator is b. */
  function FoundCount(found: seq<Boundary>, b: byte): nat
  {
    if found == [] then 0
    else FoundCount(found[..|found| - 1], b) + (if found[|found| - 1].sep == b then 1 else 0)
  }

  /** Number of positions below n holding b as an unquoted separator. */
  function SepCount(s: seq<byte>, n: nat, seps: set<byte>, b: byte): nat
    requires n <= |s|
  {
    if n == 0 then 0
    else SepCount(s, n - 1, seps, b) + (if UnquotedSep(s, n - 1, seps) && s[n - 1] == b then 1 else 0)
  }

  // ---------------------------------------------------------------------------
  // Parity and boundaries

  /** The tracked flag is the parity of the quotes seen so far. */
  lemma {:induction false} InsideIsOddQuotes(s: seq<byte>, i: nat, seps: set<byte>)
    requires i <= |s|
    ensures ScanTo(s, i, seps).inside <==> QuoteCount(s[..i]) % 2 == 1
  {
    if i > 0 {
      InsideIsOddQuotes(s, i - 1, seps);
      assert s[..i][..i - 1] == s[..i - 1];
    }
  }

  /** Byte i ends a cell exactly when it is a separator at even quote parity; otherwise
      nothing is found and the pending cell goes on. */
  lemma BoundaryAt(s: seq<byte>, i: nat, seps: set<byte>)
    requires i < |s|
    ensures var before, after := ScanTo(s, i, seps), ScanTo(s, i + 1, seps);
      if UnquotedSep(s, i, seps) then
        after.start == i + 1 && after.found == before.found + [Boundary(s[before.start..i], s[i])]
      else
        after.start == before.start && after.found == before.found
  {
    InsideIsOddQuotes(s, i + 1, seps);
  }

  /** Every separator found is one of seps, and a cell starts right after a separator. */
  lemma {:induction false} FoundSeps(s: seq<byte>, i: nat, seps: set<byte>)
    requires i <= |s|
    ensures forall k | 0 <= k < |ScanTo(s, i, seps).found| :: ScanTo(s, i, seps).found[k].sep in seps
    ensures ScanTo(s, i, seps).start > 0 ==> s[ScanTo(s, i, seps).start - 1] in seps
  {
    if i > 0 {
      FoundSeps(s, i - 1, seps);
    }
  }

  /** The boundaries found so far reassemble the bytes before the pending cell. */
  lemma {:induction false} FlattenFound(s: seq<byte>, i: nat, seps: set<byte>)
    requires i <= |s|
    ensures Flatten(ScanTo(s, i, seps).found) == s[..ScanTo(s, i, seps).start]
  {
    if i > 0 {
      FlattenFound(s, i - 1, seps);
      var prev := ScanTo(s, i - 1, seps);
      var st := ScanTo(s, i, seps);
      if st.start == i {
        assert st.found[..|st.found| - 1] == prev.found;
        assert s[..prev.start] + s[prev.start..i - 1] + [s[i - 1]] == s[..i];
      }
    }
  }

  /** Round trip: cells, their separators and the remainder give back the chunk. */
  lemma RoundTrip(s: seq<byte>, seps: set<byte>)
    ensures Flatten(Scan(s, seps).found) + Rest(s, seps) == s
  {
    FlattenFound(s, |s|, seps);
  }

  /** Once the last cell has started, no later byte changes the start or the found list. */
  lemma {:induction false} StartStable(s: seq<byte>, n: nat, seps: set<byte>)
    requires n <= |s|
    ensures forall i | ScanTo(s, n, seps).start <= i <= n ::
      ScanTo(s, i, seps).start == ScanTo(s, n, seps).start && ScanTo(s, i, seps).found == ScanTo(s, n, seps).found
  {
    if ScanTo(s, n, seps).start < n {
      StartStable(s, n - 1, seps);
    }
  }

  /** The remainder holds no separator at even quote parity. */
  lemma NoSepInRest(s: seq<byte>, seps: set<byte>)
    ensures forall i | Scan(s, seps).start <= i < |s| :: !UnquotedSep(s, i, seps)
  {
    StartStable(s, |s|, seps);
    forall i | Scan(s, seps).start <= i < |s|
      ensures !UnquotedSep(s, i, seps)
    {
      BoundaryAt(s, i, seps);
    }
  }

  /** The offset where the pending cell starts is at even quote parity, and the scanner
      stood there with everything found already. */
  lemma CarryOffset(s: seq<byte>, n: nat, seps: set<byte>)
    requires n <= |s|
    ensures var st := ScanTo(s, n, seps);
      ScanTo(s, st.start, seps) == State(false, st.start, st.found)
      && QuoteCount(s[..st.start]) % 2 == 0
  {
    StartStable(s, n, seps);
    var j := ScanTo(s, n, seps).start;
    InsideIsOddQuotes(s, j, seps);
  }

  /** The scan of a prefix depends only on that prefix. */
  lemma {:induction false} ScanPrefix(s: seq<byte>, t: seq<byte>, i: nat, seps: set<byte>)
    requires i <= |s| && i <= |t| && s[..i] == t[..i]
    ensures ScanTo(s, i, seps) == ScanTo(t, i, seps)
  {
    if i > 0 {
      assert s[..i - 1] == t[..i - 1] by {
        assert s[..i - 1] == s[..i][..i - 1];
        assert t[..i - 1] == t[..i][..i - 1];
      }
      assert s[i - 1] == s[..i][i - 1];
      assert t[i - 1] == t[..i][i - 1];
      ScanPrefix(s, t, i - 1, seps);
      var st := ScanTo(s, i - 1, seps);
      assert s[st.start..i - 1] == s[..i][st.start..i - 1];
      assert t[st.start..i - 1] == t[..i][st.start..i - 1];
    }
  }

  /** Scanning on after a cut at a cell start, from an even parity, is scanning the rest afresh. */
  lemma {:induction false} ScanShift(x: seq<byte>, y: seq<byte>, m: nat, seps: set<byte>)
    requires m <= |y|
    requires !ScanTo(x, |x|, seps).inside && ScanTo(x, |x|, seps).start == |x|
    ensures var pre, st := ScanTo(x, |x|, seps), ScanTo(y, m, seps);
      ScanTo(x + y, |x| + m, seps) == State(st.inside, |x| + st.start, pre.found + st.found)
  {
    if m == 0 {
      assert (x + y)[..|x|] == x[..|x|];
      ScanPrefix(x + y, x, |x|, seps);
    } else {
      ScanShift(x, y, m - 1, seps);
      var st := ScanTo(y, m - 1, seps);
      assert (x + y)[|x| + m - 1] == y[m - 1];
      assert (x + y)[|x| + st.start..|x| + m - 1] == y[st.start..m - 1];
    }
  }

  /** The carry-over step: scanning the stream extended by r equals scanning the old
      remainder followed by r, offset by where the remainder started. */
  lemma CarryStep(s: seq<byte>, r: seq<byte>, seps: set<byte>)
    ensures var st, cst := Scan(s, seps), Scan(Rest(s, seps) + r, seps);
      Scan(s + r, seps) == State(cst.inside, st.start + cst.start, st.found + cst.found)
      && Rest(s + r, seps) == Rest(Rest(s, seps) + r, seps)
  {
    var st := Scan(s, seps);
    var x := s[..st.start];
    var y := Rest(s, seps) + r;
    assert x + y == s + r;
    CarryOffset(s, |s|, seps);
    ScanPrefix(x, s, |x|, seps);
    ScanShift(x, y, |y|, seps);
  }

  /** The remainder, scanned on its own from outside quotes, holds no separator. */
  lemma RestHasNoSep(s: seq<byte>, seps: set<byte>)
    ensures Scan(Rest(s, seps), seps).found == []
    ensures Rest(Rest(s, seps), seps) == Rest(s, seps)
  {
    CarryStep(s, [], seps);
    assert s + [] == s;
    assert Rest(s, seps) + [] == Rest(s, seps);
  }

  // ---------------------------------------------------------------------------
  // Events and counts

  lemma {:induction false} EmitAppend(a: seq<Boundary>, b: seq<Boundary>)
    ensures Emit(a + b) == Emit(a) + Emit(b)
  {
    if b == [] {
      assert a + b == a;
    } else {
      assert (a + b)[..|a + b| - 1] == a + b[..|b| - 1];
      EmitAppend(a, b[..|b| - 1]);
    }
  }

  /** Separators found with byte b are exactly the unquoted occurrences of b. */
  lemma {:induction false} FoundCountIsSepCount(s: seq<byte>, n: nat, seps: set<byte>, b: byte)
    requires n <= |s|
    ensures FoundCount(ScanTo(s, n, seps).found, b) == SepCount(s, n, seps, b)
  {
    if n > 0 {
      FoundCountIsSepCount(s, n - 1, seps, b);
      BoundaryAt(s, n - 1, seps);
      var before := ScanTo(s, n - 1, seps);
      if UnquotedSep(s, n - 1, seps) {
        FoundCountSnoc(before.found, Boundary(s[before.start..n - 1], s[n - 1]), b);
      }
    }
  }

  lemma FoundCountSnoc(f: seq<Boundary>, x: Boundary, b: byte)
    ensures FoundCount(f + [x], b) == FoundCount(f, b) + if x.sep == b then 1 else 0
  {
    assert (f + [x])[..|f|] == f;
  }

  /** When every separator found is b, every boundary is counted. */
  lemma {:induction false} FoundCountAll(found: seq<Boundary>, b: byte)
    requires forall k | 0 <= k < |found| :: found[k].sep == b
    ensures FoundCount(found, b) == |found|
  {
    if found != [] {
      FoundCountAll(found[..|found| - 1], b);
    }
  }
}
