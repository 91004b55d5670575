/** roman_to_int/src/lib.rs: a Roman numeral checked for its letters, and its value read
    from the right, subtracting a letter worth less than the one after it. The u32 arithmetic
    of to_integer is the newtype u32. */
module Roman {
  import opened Bytes
  import opened Wrappers

  /** The table of to_integer and roman_to_int. */
  const RomanMap: map<char, int> := map['I' := 1, 'V' := 5, 'X' := 10, 'L' := 50, 'C' := 100, 'D' := 500, 'M' := 1000]

  const Letters: string := "IVXLCDM"

  function ToAsciiUpper(c: char): (u: char)
    ensures 'a' <= c <= 'z' ==> 'A' <= u <= 'Z' && u as int == c as int - 32
    ensures !('a' <= c <= 'z') ==> u == c
  {
    if 'a' <= c <= 'z' then (c as int - 32) as char else c
  }

  /** is_valid: every char, taken to ASCII upper case, is one of the seven letters. */
  predicate IsValid(s: string)
  {
    forall k | 0 <= k < |s| :: ToAsciiUpper(s[k]) in Letters
  }

  /** Every char is a key of the table, so the lookups of to_integer succeed. */
  predicate Numerals(s: string)
  {
    forall k | 0 <= k < |s| :: s[k] in RomanMap
  }

  datatype RomanNumeral = RomanNumeral(numeral: string)

  const LettersError := "Only roman characters are supported 'I, V, X, L, C, D, M'"

  /** build: a numeral for a string that passes is_valid, an error otherwise. */
  function Build(s: string): (r: Result<RomanNumeral>)
    ensures r.Ok? <==> IsValid(s)
    ensures r.Ok? ==> r.value.numeral == s
    ensures r.Err? ==> r.error == LettersError
  {
    if IsValid(s) then Ok(RomanNumeral(s)) else Err(LettersError)
  }

  /** build_from: the first argument (the program name) is skipped; the second is built. */
  function BuildFrom(args: seq<string>): (r: Result<RomanNumeral>)
    ensures |args| < 2 ==> r == Err("Didn't get a roman string")
    ensures |args| >= 2 ==> r == Build(args[1])
  {
    if |args| < 2 then Err("Didn't get a roman string") else Build(args[1])
  }

  // ---------------------------------------------------------------------------
  // The value of a numeral

  /** The loop's variables after the chars from k to the end: the total so far and the value
      of the char last read. */
  datatype Tally = Tally(result: int, prev: int)

  /** The loop of to_integer, read from the right down to k. */
  function TallyFrom(s: string, k: nat): Tally
    requires Numerals(s) && k <= |s|
    decreases |s| - k
  {
    if k == |s| then Tally(0, 0)
    else
      var t := TallyFrom(s, k + 1);
      var v := RomanMap[s[k]];
      if v < t.prev then Tally(t.result - v, v) else Tally(t.result + v, v)
  }

  /** The subtractive rule, from the left: a letter worth less than the letter after it
      counts negatively, every other letter positively. */
  function SubtractiveSum(s: string): int
    requires Numerals(s)
  {
    if s == [] then 0
    else
      var v := RomanMap[s[0]];
      (if |s| > 1 && v < RomanMap[s[1]] then -v else v) + SubtractiveSum(s[1..])
  }

  /** Every numeral in a bound: each partial total of the loop stays below it. */
  predicate Fits(s: string, bound: int)
  {
    Numerals(s) && forall k | 0 <= k <= |s| :: TallyFrom(s, k).result < bound
  }

  /** to_integer: the value of the numeral by the subtractive rule. The table lookup fails on
      a char that is not one of the seven upper-case letters, and u32 arithmetic fails on a
      total of 2^32 or more: both are required away. */
  method ToInteger(r: RomanNumeral) returns (n: u32)
    requires Numerals(r.numeral)
    requires Fits(r.numeral, 0x1_0000_0000)
    ensures n as int == SubtractiveSum(r.numeral)
  {
    var s := r.numeral;
    var prev: u32 := 0;
    var result: u32 := 0;
    var k := |s|;
    while k > 0
      invariant 0 <= k <= |s|
      invariant Tally(result as int, prev as int) == TallyFrom(s, k)
      decreases k
    {
      TallyCoversPrev(s, k);
      k := k - 1;
      assert TallyFrom(s, k).result < 0x1_0000_0000;
      var val := RomanMap[s[k]] as u32;
      if val < prev {
        result := result - val;
      } else {
        result := result + val;
      }
      prev := val;
    }
    TallyIsSubtractive(s, 0);
    n := result;
  }

  /** The string with every char taken to ASCII upper case. */
  function Upper(s: string): (u: string)
    ensures |u| == |s| && forall k | 0 <= k < |s| :: u[k] == ToAsciiUpper(s[k])
  {
    seq(|s|, k requires 0 <= k < |s| => ToAsciiUpper(s[k]))
  }

  /** to_integer reading each char through its upper case, as is_valid does: every numeral
      build accepts can be converted, and on upper-case numerals nothing changes. */
  method ToIntegerUpper(r: RomanNumeral) returns (n: u32)
    requires IsValid(r.numeral)
    requires Fits(Upper(r.numeral), 0x1_0000_0000)
    ensures n as int == SubtractiveSum(Upper(r.numeral))
  {
    ValidUpper(r.numeral);
    n := ToInteger(RomanNumeral(Upper(r.numeral)));
  }

  // ---------------------------------------------------------------------------
  // Properties

  lemma LettersAreKeys(c: char)
    ensures c in Letters <==> c in RomanMap
  {
  }

  /** is_valid accepts exactly the strings whose upper-case form is all table keys. */
  lemma ValidUpper(s: string)
    ensures IsValid(s) <==> Numerals(Upper(s))
  {
    forall k | 0 <= k < |s|
      ensures ToAsciiUpper(s[k]) in Letters <==> Upper(s)[k] in RomanMap
    {
      LettersAreKeys(ToAsciiUpper(s[k]));
    }
  }

  lemma UpperOfNumerals(s: string)
    requires Numerals(s)
    ensures Upper(s) == s
  {
  }

  /** The seven values are spread so that a smaller one is at most half of any larger one. */
  lemma {:induction false} AtMostHalf(c: char, d: char)
    requires c in RomanMap && d in RomanMap && RomanMap[c] < RomanMap[d]
    ensures 2 * RomanMap[c] <= RomanMap[d]
  {
    assert RomanMap['I'] == 1 && RomanMap['V'] == 5 && RomanMap['X'] == 10 && RomanMap['L'] == 50;
    assert RomanMap['C'] == 100 && RomanMap['D'] == 500 && RomanMap['M'] == 1000;
    assert c == 'I' || c == 'V' || c == 'X' || c == 'L' || c == 'C' || c == 'D' || c == 'M';
    assert d == 'I' || d == 'V' || d == 'X' || d == 'L' || d == 'C' || d == 'D' || d == 'M';
  }

  lemma {:induction false} TallyPrev(s: string, k: nat)
    requires Numerals(s) && k <= |s|
    ensures TallyFrom(s, k).prev == if k < |s| then RomanMap[s[k]] else 0
  {
  }

  /** The total never drops below the value last read, so the u32 subtraction never wraps
      and the total is never negative. */
  lemma {:induction false} TallyCoversPrev(s: string, k: nat)
    requires Numerals(s) && k <= |s|
    ensures 0 <= TallyFrom(s, k).prev <= TallyFrom(s, k).result
    decreases |s| - k
  {
    if k < |s| {
      TallyCoversPrev(s, k + 1);
      var t := TallyFrom(s, k + 1);
      if RomanMap[s[k]] < t.prev {
        TallyPrev(s, k + 1);
        AtMostHalf(s[k], s[k + 1]);
      }
    }
  }

  /** The loop of to_integer computes the subtractive rule: the char read before (the next
      one to the right) is the one it is compared with. */
  lemma {:induction false} TallyIsSubtractive(s: string, k: nat)
    requires Numerals(s) && k <= |s|
    ensures TallyFrom(s, k).result == SubtractiveSum(s[k..])
    decreases |s| - k
  {
    if k < |s| {
      TallyIsSubtractive(s, k + 1);
      TallyPrev(s, k + 1);
      assert s[k..][1..] == s[k + 1..];
    }
  }

  /** A single letter is worth its table value. */
  lemma SingleNumeral(c: char)
    requires c in RomanMap
    ensures SubtractiveSum([c]) == RomanMap[c]
  {
    assert [c][1..] == [];
  }

  /** The examples of is_valid's documentation. */
  lemma ValidExamples()
    ensures IsValid("MCMXCIV")
    ensures !IsValid("ABCD")
  {
    assert ToAsciiUpper("ABCD"[0]) !in Letters;
  }

  /** The example of to_integer's documentation: MCMXCIV is 1994. */
  lemma Example1994()
    ensures Numerals("MCMXCIV") && SubtractiveSum("MCMXCIV") == 1994
    ensures Fits("MCMXCIV", 2000)
  {
    var s := "MCMXCIV";
    assert s[6..] == "V" && s[5..] == "IV" && s[4..] == "CIV" && s[3..] == "XCIV";
    assert s[2..] == "MXCIV" && s[1..] == "CMXCIV";
    assert "V"[1..] == [];
    assert SubtractiveSum("V") == 5;
    assert SubtractiveSum("IV") == 4;
    assert SubtractiveSum("CIV") == 104;
    assert SubtractiveSum("XCIV") == 94;
    assert SubtractiveSum("MXCIV") == 1094;
    assert SubtractiveSum("CMXCIV") == 994;
    forall k | 0 <= k <= |s|
      ensures TallyFrom(s, k).result < 2000
    {
      TallyIsSubtractive(s, k);
    }
  }

  /** is_valid lets lower case through, but to_integer looks the char up as it is: "mcmxciv"
      builds, and the first lookup of to_integer fails on it. */
  lemma LowercaseBuilds()
    ensures Build("mcmxciv").Ok? && !Numerals(Build("mcmxciv").value.numeral)
    ensures Upper("mcmxciv") == "MCMXCIV"
  {
    assert Upper("mcmxciv")[0] == 'M';
    assert 'v' !in RomanMap;
  }
}
