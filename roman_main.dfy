/** roman_to_int/src/main.rs: the same reading of a numeral as a free function on i32,
    and the value main prints. */
module RomanMain {
  import opened Roman

  newtype i32 = x: int | -0x8000_0000 <= x < 0x8000_0000

  /** roman_to_int: the value of s by the subtractive rule. The lookup fails on a char not in
      the table and i32 arithmetic fails on a total of 2^31 or more: both are required away. */
  method RomanToInt(s: string) returns (n: i32)
    requires Numerals(s)
    requires Fits(s, 0x8000_0000)
    ensures n as int == SubtractiveSum(s)
    ensures n >= 0
  {
    var prev: i32 := 0;
    var result: i32 := 0;
    var k := |s|;
    while k > 0
      invariant 0 <= k <= |s|
      invariant Tally(result as int, prev as int) == TallyFrom(s, k)
      decreases k
    {
      TallyCoversPrev(s, k);
      k := k - 1;
      assert TallyFrom(s, k).result < 0x8000_0000;
      var val := RomanMap[s[k]] as i32;
      if val < prev {
        result := result - val;
      } else {
        result := result + val;
      }
      prev := val;
    }
    TallyIsSubtractive(s, 0);
    TallyCoversPrev(s, 0);
    n := result;
  }

  /** What main prints: MCMXCIV is 1994, well inside i32. */
  lemma MainValue()
    ensures Numerals("MCMXCIV") && Fits("MCMXCIV", 0x8000_0000)
    ensures SubtractiveSum("MCMXCIV") == 1994
  {
    Example1994();
  }
}
