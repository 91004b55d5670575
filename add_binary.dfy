/** add_binary_str/src/lib.rs: binary numbers as strings of '0' and '1', and their sum
    computed digit by digit from the right. Strings are modelled by their UTF-8 bytes; a
    string holds only '0' and '1' exactly when its bytes are only 48 and 49. */
module AddBinary {
  import opened Bytes
  import opened Wrappers

  const ZERO: byte := 48
  const ONE: byte := 49

  predicate IsDigit(d: byte)
  {
    d == ZERO || d == ONE
  }

  /** is_valid: only '0' and '1'. */
  predicate IsValid(s: seq<byte>)
  {
    forall k | 0 <= k < |s| :: IsDigit(s[k])
  }

  datatype Binary = Binary(value: seq<byte>)

  /** build: a Binary for a string of '0' and '1', an error for anything else. */
  function Build(s: seq<byte>): (r: Result<Binary>)
    ensures r.Ok? <==> IsValid(s)
    ensures r.Ok? ==> r.value == Binary(s)
    ensures r.Err? ==> r.error == "Invalid String, only '0', '1' are supported"
  {
    if IsValid(s) then Ok(Binary(s)) else Err("Invalid String, only '0', '1' are supported")
  }

  // ---------------------------------------------------------------------------
  // What add computes

  /** A written digit and the carry after it. */
  datatype Column = Column(digit: byte, carry: bool)

  /** One column as add writes it, from the carry in and the two digits: equal digits write
      '1' with a carry, '0' without; different digits write '0' with a carry, '1' without;
      the carry changes only when both digits are '0' (it ends) or both are '1' (it starts). */
  function AddColumn(carry: bool, x: byte, y: byte): (col: Column)
    ensures IsDigit(col.digit)
  {
    match (carry, x == y)
    case (true, true) => Column(ONE, if x == ZERO then false else carry)
    case (false, true) => Column(ZERO, if x == ONE then true else carry)
    case (true, false) => Column(ZERO, carry)
    case (false, false) => Column(ONE, carry)
  }

  function Init(s: seq<byte>): seq<byte>
  {
    if s == [] then [] else s[..|s| - 1]
  }

  /** The last digit, or '0' once the number is used up (unwrap_or(b'0')). */
  function LastOrZero(s: seq<byte>): byte
  {
    if s == [] then ZERO else s[|s| - 1]
  }

  /** The digits add writes for a and b with carry in: column by column from the right
      until both are used up, then a final '1' if a carry is left. */
  function Ripple(a: seq<byte>, b: seq<byte>, carry: bool): seq<byte>
    decreases |a| + |b|
  {
    if a == [] && b == [] then (if carry then [ONE] else [])
    else
      var col := AddColumn(carry, LastOrZero(a), LastOrZero(b));
      Ripple(Init(a), Init(b), col.carry) + [col.digit]
  }

  function Max(x: nat, y: nat): nat
  {
    if x > y then x else y
  }

  function Bit(d: byte): nat
  {
    if d == ONE then 1 else 0
  }

  /** The number a string of binary digits stands for, most significant digit first. */
  function Value(s: seq<byte>): nat
  {
    if s == [] then 0 else 2 * Value(s[..|s| - 1]) + Bit(s[|s| - 1])
  }

  // ---------------------------------------------------------------------------
  // add

  /** add: the digits of the sum, written from the right into a buffer one longer than the
      longer operand; the first slot is kept only when a carry is left. */
  method Add(a: Binary, b: Binary) returns (r: Binary)
    ensures r.value == Ripple(a.value, b.value, false)
    ensures IsValid(r.value)
    ensures IsValid(a.value) && IsValid(b.value) ==> Value(r.value) == Value(a.value) + Value(b.value)
  {
    var maxSize := Max(|a.value|, |b.value|) + 1;
    var sum := new byte[maxSize](_ => 0);
    var carry := FillSum(a.value, b.value, sum);
    if carry {
      sum[0] := ONE;
      assert sum[..] == [ONE] + sum[1..];
      r := Binary(sum[..]);
    } else {
      r := Binary(sum[1..]);
    }
    RippleDigits(a.value, b.value, false);
    if IsValid(a.value) && IsValid(b.value) {
      RippleValue(a.value, b.value, false);
    }
  }

  /** The loop of add: the operands are walked from the back (next_back, at ia and ib), and
      until both are used up each column's digit is written into sum from its end; the
      carry left over is returned. */
  method FillSum(a: seq<byte>, b: seq<byte>, sum: array<byte>) returns (carry: bool)
    requires sum.Length == Max(|a|, |b|) + 1
    modifies sum
    ensures Ripple(a, b, false) == (if carry then [ONE] else []) + sum[1..]
  {
    var ia: nat, ib: nat := |a|, |b|;
    carry := false;
    var i := sum.Length - 1;
    ghost var tail: seq<byte> := [];
    assert a[..ia] == a && b[..ib] == b;
    RippleFrom(a, b, ia, ib, false);
    ghost var goal := Ripple(a, b, false);
    while true
      invariant ia <= |a| && ib <= |b| && i == Max(ia, ib)
      invariant sum[i + 1..] == tail
      invariant goal == RippleAt(a, b, ia, ib, carry) + tail
      decreases ia + ib
    {
      ghost var ia0, ib0, tail0 := ia, ib, tail;
      var byteA, byteB := NextBack(a, ia), NextBack(b, ib);
      ia, ib := Dec(ia), Dec(ib);
      if byteA == None && byteB == None {
        break;
      }
      var x := if byteA.Some? then byteA.value else ZERO;
      var y := if byteB.Some? then byteB.value else ZERO;
      ghost var col := RippleAtStep(a, b, ia0, ib0, carry, tail);
      var digit;
      digit, carry := WriteColumn(carry, x, y);
      ghost var before := sum[..];
      sum[i] := digit;
      assert sum[..] == before[i := digit];
      WriteFront(before, i, digit);
      tail := [digit] + tail;
      assert carry == col.carry && tail == [col.digit] + tail0;
      i := i - 1;
    }
  }

  /** next_back on what is left of an operand, its first n digits: the last of them, or None
      once it is used up. */
  function NextBack(s: seq<byte>, n: nat): (r: Option<byte>)
    requires n <= |s|
    ensures r == None <==> n == 0
    ensures r.Some? ==> r.value == s[n - 1]
  {
    if n > 0 then Some(s[n - 1]) else None
  }

  /** The match of add's loop on the carry and whether the two digits are equal: it writes
      '0' or '1', and on two binary digits it is a one-bit full adder. */
  method WriteColumn(carry: bool, x: byte, y: byte) returns (digit: byte, carryOut: bool)
    ensures IsDigit(digit)
    ensures IsDigit(x) && IsDigit(y) ==>
      Bit(digit) + 2 * (if carryOut then 1 else 0) == Bit(x) + Bit(y) + (if carry then 1 else 0)
    ensures Column(digit, carryOut) == AddColumn(carry, x, y)
  {
    carryOut := carry;
    match (carry, x == y) {
      case (true, true) =>
        if x == ZERO {
          carryOut := false;
        }
        digit := ONE;
      case (false, true) =>
        if x == ONE {
          carryOut := true;
        }
        digit := ZERO;
      case (true, false) =>
        digit := ZERO;
      case (false, false) =>
        digit := ONE;
    }
    if IsDigit(x) && IsDigit(y) {
      ColumnAdds(carry, x, y);
    }
  }

  lemma WriteFront(s: seq<byte>, i: nat, d: byte)
    requires i < |s|
    ensures s[i := d][i..] == [d] + s[i + 1..]
  {
  }

  function Dec(n: nat): nat
  {
    if n > 0 then n - 1 else 0
  }

  /** Ripple as add's loop walks it: on the first ia digits of a and ib of b, by index. */
  function RippleAt(a: seq<byte>, b: seq<byte>, ia: nat, ib: nat, carry: bool): seq<byte>
    requires ia <= |a| && ib <= |b|
    decreases ia + ib
  {
    if ia == 0 && ib == 0 then (if carry then [ONE] else [])
    else
      var col := AddColumn(carry, if ia > 0 then a[ia - 1] else ZERO, if ib > 0 then b[ib - 1] else ZERO);
      RippleAt(a, b, Dec(ia), Dec(ib), col.carry) + [col.digit]
  }

  /** The walk by index computes Ripple on the prefixes. */
  lemma {:induction false} RippleFrom(a: seq<byte>, b: seq<byte>, ia: nat, ib: nat, carry: bool)
    requires ia <= |a| && ib <= |b|
    ensures RippleAt(a, b, ia, ib, carry) == Ripple(a[..ia], b[..ib], carry)
    decreases ia + ib
  {
    if ia > 0 || ib > 0 {
      var col := AddColumn(carry, if ia > 0 then a[ia - 1] else ZERO, if ib > 0 then b[ib - 1] else ZERO);
      PrefixStep(a, ia);
      PrefixStep(b, ib);
      RippleFrom(a, b, Dec(ia), Dec(ib), col.carry);
    }
  }

  /** What is left of an operand, one turn on. */
  lemma PrefixStep(s: seq<byte>, n: nat)
    requires n <= |s|
    ensures LastOrZero(s[..n]) == (if n > 0 then s[n - 1] else ZERO)
    ensures Init(s[..n]) == s[..Dec(n)]
  {
  }

  /** One turn of add's loop on the walk by index, tail the digits written so far. */
  lemma RippleAtStep(a: seq<byte>, b: seq<byte>, ia: nat, ib: nat, carry: bool, tail: seq<byte>) returns (col: Column)
    requires ia <= |a| && ib <= |b| && (ia > 0 || ib > 0)
    ensures col == AddColumn(carry, if ia > 0 then a[ia - 1] else ZERO, if ib > 0 then b[ib - 1] else ZERO)
    ensures RippleAt(a, b, ia, ib, carry) + tail == RippleAt(a, b, Dec(ia), Dec(ib), col.carry) + ([col.digit] + tail)
  {
    col := AddColumn(carry, if ia > 0 then a[ia - 1] else ZERO, if ib > 0 then b[ib - 1] else ZERO);
    var r := RippleAt(a, b, Dec(ia), Dec(ib), col.carry);
    assert (r + [col.digit]) + tail == r + ([col.digit] + tail);
  }

  // ---------------------------------------------------------------------------
  // Properties

  /** On two digits, a column is a one-bit full adder. */
  lemma ColumnAdds(carry: bool, x: byte, y: byte)
    requires IsDigit(x) && IsDigit(y)
    ensures var col := AddColumn(carry, x, y);
      Bit(col.digit) + 2 * (if col.carry then 1 else 0) == Bit(x) + Bit(y) + (if carry then 1 else 0)
  {
  }

  lemma ValueStep(s: seq<byte>)
    ensures Value(s) == 2 * Value(Init(s)) + Bit(LastOrZero(s))
  {
  }

  lemma ValueAppend(s: seq<byte>, d: byte)
    ensures Value(s + [d]) == 2 * Value(s) + Bit(d)
  {
    assert (s + [d])[..|s|] == s;
  }

  lemma InitValid(s: seq<byte>)
    requires IsValid(s)
    ensures IsValid(Init(s)) && IsDigit(LastOrZero(s))
  {
  }

  /** On strings of '0' and '1', add computes the sum of the numbers they stand for. */
  lemma {:induction false} RippleValue(a: seq<byte>, b: seq<byte>, carry: bool)
    requires IsValid(a) && IsValid(b)
    ensures Value(Ripple(a, b, carry)) == Value(a) + Value(b) + (if carry then 1 else 0)
    decreases |a| + |b|
  {
    if a == [] && b == [] {
      if carry {
        assert Value([ONE]) == 2 * Value([]) + 1 by {
          assert [ONE][..0] == [];
        }
      }
    } else {
      var x, y := LastOrZero(a), LastOrZero(b);
      var col := AddColumn(carry, x, y);
      InitValid(a);
      InitValid(b);
      RippleValue(Init(a), Init(b), col.carry);
      ValueAppend(Ripple(Init(a), Init(b), col.carry), col.digit);
      ValueStep(a);
      ValueStep(b);
      ColumnAdds(carry, x, y);
    }
  }

  /** Whatever the operands, add writes only '0' and '1', so turning the buffer back into a
      string cannot fail. */
  lemma {:induction false} RippleDigits(a: seq<byte>, b: seq<byte>, carry: bool)
    ensures IsValid(Ripple(a, b, carry))
    decreases |a| + |b|
  {
    if a != [] || b != [] {
      var col := AddColumn(carry, LastOrZero(a), LastOrZero(b));
      RippleDigits(Init(a), Init(b), col.carry);
      var r := Ripple(Init(a), Init(b), col.carry);
      assert forall k | 0 <= k < |r| :: (r + [col.digit])[k] == r[k];
    }
  }

  /** The sum is as long as the longer operand, or one longer, and then it starts with the
      carry's '1'. */
  lemma {:induction false} RippleLength(a: seq<byte>, b: seq<byte>, carry: bool)
    ensures var r := Ripple(a, b, carry);
      |r| == Max(|a|, |b|) || (|r| == Max(|a|, |b|) + 1 && r[0] == ONE)
    decreases |a| + |b|
  {
    if a != [] || b != [] {
      var col := AddColumn(carry, LastOrZero(a), LastOrZero(b));
      RippleLength(Init(a), Init(b), col.carry);
    }
  }

  /** The example of add's documentation: 1101 + 1011 = 11000. */
  lemma AddExample()
    ensures Ripple([ONE, ONE, ZERO, ONE], [ONE, ZERO, ONE, ONE], false) == [ONE, ONE, ZERO, ZERO, ZERO]
  {
    assert Init([ONE, ONE, ZERO, ONE]) == [ONE, ONE, ZERO] && Init([ONE, ZERO, ONE, ONE]) == [ONE, ZERO, ONE];
    assert Init([ONE, ONE, ZERO]) == [ONE, ONE] && Init([ONE, ZERO, ONE]) == [ONE, ZERO];
    assert Init([ONE, ONE]) == [ONE] && Init([ONE, ZERO]) == [ONE];
    assert Ripple([], [], true) == [ONE];
    assert Ripple([ONE], [ONE], false) == [ONE, ZERO];
    assert Ripple([ONE, ONE], [ONE, ZERO], true) == [ONE, ONE, ZERO];
    assert Ripple([ONE, ONE, ZERO], [ONE, ZERO, ONE], true) == [ONE, ONE, ZERO, ZERO];
  }
}
