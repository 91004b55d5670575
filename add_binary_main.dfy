/** add_binary_str/src/main.rs: the same addition as a free function on strings, and the
    sum main prints. Its loop is the loop of Binary::add, digit for digit, so the model
    shares it (AddBinary.FillSum); what differs is the early return when a carry is left. */
module AddBinaryMain {
  import opened Bytes
  import opened AddBinary

  /** add_binary: the digits of the sum of a and b, whatever bytes they hold; on strings of
      '0' and '1' they stand for the sum of the numbers. */
  method AddBinaryStr(a: seq<byte>, b: seq<byte>) returns (r: seq<byte>)
    ensures r == Ripple(a, b, false)
    ensures IsValid(r)
    ensures IsValid(a) && IsValid(b) ==> Value(r) == Value(a) + Value(b)
  {
    var sum := new byte[(if |a| > |b| then |a| else |b|) + 1](_ => 0);
    var carry := FillSum(a, b, sum);
    RippleDigits(a, b, false);
    if IsValid(a) && IsValid(b) {
      RippleValue(a, b, false);
    }
    if carry {
      ghost var before := sum[..];
      sum[0] := ONE;
      assert sum[..] == before[0 := ONE];
      WriteFront(before, 0, ONE);
      return sum[..];
    }
    r := sum[1..sum.Length];
  }

  /** What main prints: "1010" + "1011" = "10101". */
  lemma MainSum()
    ensures Ripple([ONE, ZERO, ONE, ZERO], [ONE, ZERO, ONE, ONE], false) == [ONE, ZERO, ONE, ZERO, ONE]
    ensures Value([ONE, ZERO, ONE, ZERO]) == 10 && Value([ONE, ZERO, ONE, ONE]) == 11
    ensures Value([ONE, ZERO, ONE, ZERO, ONE]) == 21
  {
    assert Init([ONE, ZERO, ONE, ZERO]) == [ONE, ZERO, ONE] && Init([ONE, ZERO, ONE, ONE]) == [ONE, ZERO, ONE];
    assert Init([ONE, ZERO, ONE]) == [ONE, ZERO] && Init([ONE, ZERO]) == [ONE];
    assert Ripple([], [], true) == [ONE];
    assert Ripple([ONE], [ONE], false) == [ONE, ZERO];
    assert Ripple([ONE, ZERO], [ONE, ZERO], true) == [ONE, ZERO, ONE];
    assert Ripple([ONE, ZERO, ONE], [ONE, ZERO, ONE], false) == [ONE, ZERO, ONE, ZERO];
    assert [ONE, ZERO, ONE, ZERO][..3] == [ONE, ZERO, ONE] && [ONE, ZERO, ONE][..2] == [ONE, ZERO];
    assert [ONE, ZERO][..1] == [ONE] && [ONE][..0] == [];
    assert [ONE, ZERO, ONE, ONE][..3] == [ONE, ZERO, ONE];
    assert [ONE, ZERO, ONE, ZERO, ONE][..4] == [ONE, ZERO, ONE, ZERO];
    assert Value([ONE]) == 1;
    assert Value([ONE, ZERO]) == 2;
    assert Value([ONE, ZERO, ONE]) == 5;
  }
}
