/** utils/src/lib.rs biggest_number: the largest number the given decimal digits can form,
    by counting each digit into a histogram and then writing the digits out from '9' down
    to '0', most significant position first. */
module Biggest {
  import opened Bytes

  const DigitChars: string := "0123456789"

  predicate IsDigit(c: char)
  {
    '0' <= c <= '9'
  }

  predicate AllDigits(ds: seq<char>)
  {
    forall k | 0 <= k < |ds| :: IsDigit(ds[k])
  }

  function DigitOf(c: char): int
  {
    c as int - 48
  }

  function Pow10(i: nat): (p: nat)
    ensures p >= 1
  {
    if i == 0 then 1 else 10 * Pow10(i - 1)
  }

  /** The number a string of decimal digits stands for, most significant digit first. */
  function DecimalValue(s: seq<char>): int
  {
    ValueTo(s, |s|)
  }

  /** The number the first n digits of s stand for. */
  function ValueTo(s: seq<char>, n: nat): int
    requires n <= |s|
  {
    if n == 0 then 0 else 10 * ValueTo(s, n - 1) + DigitOf(s[n - 1])
  }

  predicate NonIncreasing(s: seq<char>)
  {
    forall a, b | 0 <= a < b < |s| :: s[a] >= s[b]
  }

  /** c placed in the non-increasing s before the first char smaller than it. */
  function Insert(c: char, s: seq<char>): seq<char>
  {
    if s == [] || c >= s[0] then [c] + s else [s[0]] + Insert(c, s[1..])
  }

  /** The digits of ds from the largest to the smallest: the reference the loops are
      measured against. */
  function Descending(ds: seq<char>): seq<char>
  {
    if ds == [] then [] else Insert(ds[0], Descending(ds[1..]))
  }

  // ---------------------------------------------------------------------------
  // The order the loops write the digits in

  function Repeat(c: char, n: nat): (r: seq<char>)
    ensures |r| == n
  {
    if n == 0 then [] else Repeat(c, n - 1) + [c]
  }

  function Zeros(n: nat): seq<char>
  {
    Repeat('0', n)
  }

  /** The digits above the char code j, as the loops write them: every '9' of m, then every
      '8', down to code j + 1. */
  function High(m: multiset<char>, j: int): seq<char>
    requires 47 <= j <= 57
    decreases 57 - j
  {
    if j == 57 then [] else High(m, j + 1) + Repeat((j + 1) as char, m[(j + 1) as char])
  }

  /** The digits from the char code j down to '0'. */
  function Low(m: multiset<char>, j: int): seq<char>
    requires 47 <= j <= 57
    decreases j
  {
    if j == 47 then [] else Repeat(j as char, m[j as char]) + Low(m, j - 1)
  }

  /** How many digits of m have a code from j down to '0'. */
  function CountTo(m: multiset<char>, j: int): nat
    requires 47 <= j <= 57
    decreases j
  {
    if j == 47 then 0 else m[j as char] + CountTo(m, j - 1)
  }

  /** The digits above code j and then n copies of j itself. */
  function Written(m: multiset<char>, j: int, n: nat): seq<char>
    requires 48 <= j <= 57
  {
    High(m, j) + Repeat(j as char, n)
  }

  /** A histogram with one count per digit, zero for the rest of the chars. */
  predicate Counts(hist: map<char, int>, m: multiset<char>)
  {
    (forall c :: c in hist <==> IsDigit(c)) && forall c | c in hist :: hist[c] == m[c]
  }

  /** biggest_number: the digits in non-increasing order, read as a number. Every char must be
      a digit: a non-digit is not counted, so the outer loop walks below '0' to a char the
      histogram has no entry for. At most ten digits, or 10_u32.pow overflows for the first
      position, and the value must fit u32. */
  method BiggestNumber(digits: seq<char>) returns (result: u32)
    requires AllDigits(digits)
    requires |digits| <= 10
    requires DecimalValue(Descending(digits)) < 0x1_0000_0000
    ensures result as int == DecimalValue(Descending(digits))
  {
    var hist := CountDigits(digits);
    ghost var m, bottom := multiset(digits), 47;
    result := 0;
    var i: u32 := |digits| as u32;
    var j: u32 := 57;
    Start(digits, j as int);
    while i > 0
      invariant 47 <= j <= 57
      invariant i as int == CountTo(m, j as int)
      invariant result as int == DecimalValue(High(m, j as int) + Zeros(i as nat))
      decreases j
    {
      Columns(m, j as int);
      var k: int := hist[j as char];
      ghost var jc := j as char;
      while k > 0
        invariant 0 <= k <= m[jc]
        invariant i as int == k + CountTo(m, j as int - 1)
        invariant result as int == DecimalValue(Written(m, j as int, m[jc] - k) + Zeros(i as nat))
        decreases k
      {
        ghost var n, before := m[jc] - k, i as int;
        PlaceNext(digits, j as int, n, before, bottom);
        i := i - 1;
        k := k - 1;
        assert m[jc] - k == n + 1 && i as nat == before - 1;
        var add := (j - 48) * Pow(10, i);
        result := result + add;
      }
      j := j - 1;
    }
    Finish(digits, j as int, bottom);
  }

  /** u32::pow for the base 10 that biggest_number uses; a power past 10^9 overflows. */
  function Pow(base: u32, exp: u32): (p: u32)
    requires base == 10 && exp <= 9
    ensures p as int == Pow10(exp as nat)
  {
    Pow10Fits(exp as nat);
    Pow10(exp as nat) as u32
  }

  /** The first loop: the histogram of every digit, a zero count for each digit that does not
      occur; entry(..).and_modify counts only chars that already have an entry. */
  method CountDigits(digits: seq<char>) returns (hist: map<char, int>)
    ensures Counts(hist, multiset(digits))
  {
    hist := map c | c in DigitChars :: 0;
    for n := 0 to |digits|
      invariant forall c :: c in hist <==> IsDigit(c)
      invariant forall c | c in hist :: hist[c] == multiset(digits[..n])[c]
    {
      assert digits[..n + 1] == digits[..n] + [digits[n]];
      var dig := digits[n];
      if dig in hist {
        hist := hist[dig := hist[dig] + 1];
      }
    }
    assert digits[..|digits|] == digits;
  }

  // ---------------------------------------------------------------------------
  // Lemmas for the loops. The bounds 57 and 47 are passed as parameters so that the
  // recursive definitions are not unrolled over the whole digit range.

  /** Before the loops: nothing is written and every digit is still to come. */
  lemma Start(ds: seq<char>, top: int)
    requires AllDigits(ds) && top == 57
    ensures CountTo(multiset(ds), top) == |ds|
    ensures DecimalValue(High(multiset(ds), top) + Zeros(|ds|)) == 0
  {
    CountAll(ds, top);
    assert High(multiset(ds), top) + Zeros(|ds|) == Zeros(|ds|);
    ZerosAreZero(|ds|);
  }

  /** The inner loop for code j starts from the digits above j and ends with every copy of j
      written, which is the digits above j - 1. */
  lemma Columns(m: multiset<char>, j: int)
    requires 47 <= j <= 57 && CountTo(m, j) > 0
    ensures 48 <= j && IsDigit(j as char) && CountTo(m, j) == m[j as char] + CountTo(m, j - 1)
    ensures Written(m, j, 0) == High(m, j)
    ensures Written(m, j, m[j as char]) == High(m, j - 1)
  {
    assert High(m, j) + [] == High(m, j);
  }

  /** After the loops: no digit is left below j, so what is written is all of them. */
  lemma Finish(ds: seq<char>, j: int, bottom: int)
    requires AllDigits(ds) && 47 <= j <= 57 && bottom == 47 && CountTo(multiset(ds), j) == 0
    ensures DecimalValue(High(multiset(ds), j) + Zeros(0)) == DecimalValue(Descending(ds))
  {
    var m := multiset(ds);
    assert High(m, j) + Zeros(0) == High(m, j);
    DescendingSplit(m, j, bottom);
    LowLength(m, j);
    assert High(m, j) + Low(m, j) == High(m, j);
    HighIsDescending(ds, bottom);
  }

  /** One more copy of j written at the next position, the position i - 1 from the right,
      adds (j - '0') * 10^(i - 1); the count stays within the digits' own value. */
  lemma PlaceNext(ds: seq<char>, j: int, n: nat, i: int, bottom: int)
    requires AllDigits(ds) && 48 <= j <= 57 && bottom == 47
    requires n < multiset(ds)[j as char] && i == multiset(ds)[j as char] - n + CountTo(multiset(ds), j - 1)
    requires |ds| <= 10
    ensures 1 <= i <= 10
    ensures var m, v := multiset(ds), (j - 48) * Pow10(i - 1);
      DecimalValue(Written(m, j, n + 1) + Zeros(i - 1)) == DecimalValue(Written(m, j, n) + Zeros(i)) + v
      && 0 <= v <= DecimalValue(Written(m, j, n + 1) + Zeros(i - 1)) <= DecimalValue(Descending(ds))
  {
    var m, c, d := multiset(ds), j as char, j - 48;
    var rest := Decompose(ds, j, n, i, bottom);
    var done, whole, r := Written(m, j, n), High(m, bottom), |rest|;
    assert DecimalValue(done + [c] + Zeros(r)) == DecimalValue(done + Zeros(r + 1)) + d * Pow10(r)
      && 0 <= d * Pow10(r) <= DecimalValue(done + [c] + Zeros(r)) <= DecimalValue(whole) by {
      HighDigits(m, bottom);
      PlaceDigit(done, c, rest, whole, d);
    }
    assert whole == Descending(ds) by {
      HighIsDescending(ds, bottom);
    }
    assert Written(m, j, n + 1) + Zeros(i - 1) == done + [c] + Zeros(r);
  }

  /** Where the next copy of j goes: after what is written, before the rest of the digits. */
  lemma Decompose(ds: seq<char>, j: int, n: nat, i: int, bottom: int) returns (rest: seq<char>)
    requires AllDigits(ds) && 48 <= j <= 57 && bottom == 47
    requires n < multiset(ds)[j as char] && i == multiset(ds)[j as char] - n + CountTo(multiset(ds), j - 1)
    requires |ds| <= 10
    ensures 1 <= i <= 10 && |rest| == i - 1
    ensures Written(multiset(ds), j, n) + [j as char] + rest == High(multiset(ds), bottom)
    ensures Written(multiset(ds), j, n + 1) == Written(multiset(ds), j, n) + [j as char]
  {
    var m, c := multiset(ds), j as char;
    DescendingSplit(m, j - 1, bottom);
    LowLength(m, j - 1);
    CountBound(ds, j);
    var h, r1, r2, below := High(m, j), Repeat(c, n), Repeat(c, m[c] - n - 1), Low(m, j - 1);
    rest := r2 + below;
    RepeatSplit(c, n, m[c] - n - 1);
    assert High(m, j - 1) == h + (r1 + [c] + r2);
    Regroup4(h, r1, [c], r2, below);
  }

  lemma Regroup4(h: seq<char>, r1: seq<char>, x: seq<char>, r2: seq<char>, b: seq<char>)
    ensures h + r1 + x + (r2 + b) == h + (r1 + x + r2) + b
  {
  }

  /** Writing the next digit c in the position r (counted from the right) adds c * 10^r, and
      the total stays within the whole number. */
  lemma PlaceDigit(done: seq<char>, c: char, rest: seq<char>, whole: seq<char>, d: int)
    requires done + [c] + rest == whole && AllDigits(whole) && d == DigitOf(c)
    ensures 0 <= d <= 9
    ensures DecimalValue(done + [c] + Zeros(|rest|)) == DecimalValue(done + Zeros(|rest| + 1)) + d * Pow10(|rest|)
    ensures DecimalValue(done + [c] + Zeros(|rest|)) <= DecimalValue(whole)
    ensures 0 <= d * Pow10(|rest|) <= DecimalValue(done + [c] + Zeros(|rest|))
  {
    var r := |rest|;
    DigitsSplit(done + [c], rest, whole);
    DigitsSplit(done, [c], done + [c]);
    assert [c][0] == c;
    ValueBound(done);
    WithinWhole(done + [c], rest, whole);
    ZerosValue(done + [c], r);
    ZerosValue(done, r + 1);
    Snoc(done, c);
    var a, p := DecimalValue(done), Pow10(r);
    assert DecimalValue(done + [c]) == 10 * a + d;
    assert Pow10(r + 1) == 10 * p;
    Shift(DecimalValue(done + [c] + Zeros(r)), DecimalValue(done + [c]), a, d, p,
      DecimalValue(done + Zeros(r + 1)), Pow10(r + 1));
  }

  /** The arithmetic of PlaceDigit: a value x * p whose x is 10 * a + d is a * (10 * p) plus
      d * p. */
  lemma Shift(v: int, x: int, a: int, d: int, p: int, w: int, q: int)
    requires v == x * p && x == 10 * a + d && w == a * q && q == 10 * p
    requires a >= 0 && d >= 0 && p >= 1
    ensures v == w + d * p && w >= 0 && d * p >= 0
  {
  }

  lemma DigitsSplit(front: seq<char>, back: seq<char>, whole: seq<char>)
    requires front + back == whole && AllDigits(whole)
    ensures AllDigits(front) && AllDigits(back)
  {
    assert forall k | 0 <= k < |front| :: front[k] == whole[k];
    assert forall k | 0 <= k < |back| :: back[k] == whole[|front| + k];
  }

  lemma WithinWhole(front: seq<char>, rest: seq<char>, whole: seq<char>)
    requires front + rest == whole && AllDigits(whole)
    ensures DecimalValue(front) * Pow10(|rest|) <= DecimalValue(whole)
  {
    ValueAppend(front, rest);
    DigitsSplit(front, rest, whole);
    ValueBound(rest);
  }

  /** The whole is the digits above j followed by the digits from j down. */
  lemma {:induction false} DescendingSplit(m: multiset<char>, j: int, bottom: int)
    requires 47 <= j <= 57 && bottom == 47
    ensures High(m, j) + Low(m, j) == High(m, bottom)
    decreases j
  {
    if j > 47 {
      DescendingSplit(m, j - 1, bottom);
      var r := Repeat(j as char, m[j as char]);
      assert High(m, j - 1) == High(m, j) + r;
      assert Low(m, j) == r + Low(m, j - 1);
      assert High(m, j) + (r + Low(m, j - 1)) == (High(m, j) + r) + Low(m, j - 1);
    } else {
      assert Low(m, j) == [];
      assert High(m, j) + [] == High(m, j);
    }
  }

  /** The value of the first n digits depends on those digits only. */
  lemma {:induction false} ValuePrefix(s: seq<char>, t: seq<char>, n: nat)
    requires n <= |s| && n <= |t| && forall k | 0 <= k < n :: s[k] == t[k]
    ensures ValueTo(s, n) == ValueTo(t, n)
  {
    if n > 0 {
      ValuePrefix(s, t, n - 1);
    }
  }

  /** One more digit at the end: ten times the value, plus the digit. */
  lemma Snoc(s: seq<char>, c: char)
    ensures DecimalValue(s + [c]) == 10 * DecimalValue(s) + DigitOf(c)
  {
    ValuePrefix(s + [c], s, |s|);
  }

  lemma {:induction false} ValueAppend(p: seq<char>, q: seq<char>)
    ensures DecimalValue(p + q) == DecimalValue(p) * Pow10(|q|) + DecimalValue(q)
    decreases |q|
  {
    if q != [] {
      var q', x := q[..|q| - 1], q[|q| - 1];
      assert p + q == (p + q') + [x] && q == q' + [x];
      ValueAppend(p, q');
      Snoc(p + q', x);
      Snoc(q', x);
      Regroup(DecimalValue(p), Pow10(|q'|), DecimalValue(q'), DigitOf(x));
    } else {
      assert p + q == p;
    }
  }

  lemma Regroup(a: int, b: int, c: int, d: int)
    ensures 10 * (a * b + c) + d == a * (10 * b) + (10 * c + d)
  {
  }

  lemma {:induction false} ValueToBound(q: seq<char>, n: nat)
    requires AllDigits(q) && n <= |q|
    ensures 0 <= ValueTo(q, n) < Pow10(n)
  {
    if n > 0 {
      ValueToBound(q, n - 1);
    }
  }

  lemma ValueBound(q: seq<char>)
    requires AllDigits(q)
    ensures 0 <= DecimalValue(q) < Pow10(|q|)
  {
    ValueToBound(q, |q|);
  }

  lemma {:induction false} ZerosValue(p: seq<char>, n: nat)
    ensures DecimalValue(p + Zeros(n)) == DecimalValue(p) * Pow10(n)
  {
    ValueAppend(p, Zeros(n));
    ZerosAreZero(n);
  }

  lemma {:induction false} ZerosUpTo(n: nat, k: nat)
    requires k <= n
    ensures ValueTo(Zeros(n), k) == 0
  {
    if k > 0 {
      ZerosUpTo(n, k - 1);
      RepeatAll('0', n);
    }
  }

  lemma ZerosAreZero(n: nat)
    ensures DecimalValue(Zeros(n)) == 0
  {
    ZerosUpTo(n, n);
  }

  lemma {:induction false} RepeatAll(c: char, n: nat)
    ensures forall k | 0 <= k < n :: Repeat(c, n)[k] == c
  {
    if n > 0 {
      RepeatAll(c, n - 1);
    }
  }

  lemma {:induction false} RepeatSplit(c: char, a: nat, b: nat)
    ensures Repeat(c, a + 1 + b) == Repeat(c, a) + [c] + Repeat(c, b)
    decreases b
  {
    if b > 0 {
      RepeatSplit(c, a, b - 1);
    }
  }

  /** The digits above j have codes above j. */
  lemma {:induction false} HighAbove(m: multiset<char>, j: int)
    requires 47 <= j <= 57
    ensures forall k | 0 <= k < |High(m, j)| :: j < High(m, j)[k] as int <= 57
    decreases 57 - j
  {
    if j < 57 {
      HighAbove(m, j + 1);
      var h, r := High(m, j + 1), Repeat((j + 1) as char, m[(j + 1) as char]);
      RepeatAll((j + 1) as char, m[(j + 1) as char]);
      assert forall k | 0 <= k < |h + r| :: (h + r)[k] == if k < |h| then h[k] else r[k - |h|];
    }
  }

  lemma HighDigits(m: multiset<char>, j: int)
    requires 47 <= j <= 57
    ensures AllDigits(High(m, j))
  {
    HighAbove(m, j);
  }

  /** The loops write the digits in non-increasing order. */
  lemma {:induction false} HighSorted(m: multiset<char>, j: int)
    requires 47 <= j <= 57
    ensures NonIncreasing(High(m, j))
    decreases 57 - j
  {
    if j < 57 {
      HighSorted(m, j + 1);
      HighAbove(m, j + 1);
      var h, r := High(m, j + 1), Repeat((j + 1) as char, m[(j + 1) as char]);
      RepeatAll((j + 1) as char, m[(j + 1) as char]);
      assert forall k | 0 <= k < |h + r| :: (h + r)[k] == if k < |h| then h[k] else r[k - |h|];
    }
  }

  lemma {:induction false} RepeatCount(c: char, n: nat, x: char)
    ensures multiset(Repeat(c, n))[x] == if x == c then n else 0
  {
    if n > 0 {
      RepeatCount(c, n - 1, x);
    }
  }

  /** The digits above j are those of m with a code above j, each as often as in m. */
  lemma {:induction false} HighCount(m: multiset<char>, j: int, x: char)
    requires 47 <= j <= 57
    ensures multiset(High(m, j))[x] == if j < x as int <= 57 then m[x] else 0
    decreases 57 - j
  {
    if j < 57 {
      HighCount(m, j + 1, x);
      RepeatCount((j + 1) as char, m[(j + 1) as char], x);
    }
  }

  /** Written out by the loops, the digits are the reference order. */
  lemma HighIsDescending(ds: seq<char>, bottom: int)
    requires AllDigits(ds) && bottom == 47
    ensures High(multiset(ds), bottom) == Descending(ds)
  {
    var m := multiset(ds);
    forall x
      ensures multiset(High(m, bottom))[x] == m[x]
    {
      HighCount(m, bottom, x);
      if x in m {
        var k :| 0 <= k < |ds| && ds[k] == x;
      }
    }
    assert multiset(High(m, bottom)) == m;
    HighSorted(m, bottom);
    DescendingSorted(ds);
    DescendingPerm(ds);
    SortedUnique(High(m, bottom), Descending(ds));
  }

  lemma {:induction false} CountBelow(m: multiset<char>, j: int, h: int)
    requires 47 <= j <= h <= 57
    ensures CountTo(m, j) <= CountTo(m, h)
    decreases h
  {
    if j < h {
      CountBelow(m, j, h - 1);
    }
  }

  lemma {:induction false} LowLength(m: multiset<char>, j: int)
    requires 47 <= j <= 57
    ensures |Low(m, j)| == CountTo(m, j)
    decreases j
  {
    if j > 47 {
      LowLength(m, j - 1);
    }
  }

  lemma {:induction false} CountAdd(m: multiset<char>, c: char, j: int)
    requires 47 <= j <= 57
    ensures CountTo(m + multiset{c}, j) == CountTo(m, j) + if 48 <= c as int <= j then 1 else 0
    decreases j
  {
    if j > 47 {
      CountAdd(m, c, j - 1);
    }
  }

  /** Every digit is counted once. */
  lemma {:induction false} CountAll(ds: seq<char>, top: int)
    requires AllDigits(ds) && top == 57
    ensures CountTo(multiset(ds), top) == |ds|
    decreases |ds|
  {
    if ds != [] {
      var init, last := ds[..|ds| - 1], ds[|ds| - 1];
      assert ds == init + [last];
      assert multiset(ds) == multiset(init) + multiset{last};
      CountAll(init, top);
      CountAdd(multiset(init), last, top);
    }
  }

  /** The digits of m from code j down are at most all of ds. */
  lemma CountBound(ds: seq<char>, j: int)
    requires AllDigits(ds) && 47 <= j <= 57
    ensures CountTo(multiset(ds), j) <= |ds|
  {
    var top := 57;
    CountAll(ds, top);
    CountBelow(multiset(ds), j, top);
  }

  lemma {:induction false} Pow10Fits(i: nat)
    requires i <= 9
    ensures Pow10(i) <= 1_000_000_000
  {
    Pow10Grows(i, 9);
    assert Pow10(9) == 1_000_000_000;
  }

  lemma {:induction false} Pow10Grows(i: nat, j: nat)
    requires i <= j
    ensures Pow10(i) <= Pow10(j)
    decreases j
  {
    if i < j {
      Pow10Grows(i, j - 1);
    }
  }

  // ---------------------------------------------------------------------------
  // The reference order: sorted, a permutation, the unique such, and the largest value

  /** A char no smaller than every char of a non-increasing sequence can go in front. */
  lemma ConsSorted(x: char, r: seq<char>)
    requires NonIncreasing(r) && forall k | 0 <= k < |r| :: x >= r[k]
    ensures NonIncreasing([x] + r)
  {
    var w := [x] + r;
    forall a, b | 0 <= a < b < |w|
      ensures w[a] >= w[b]
    {
      assert w[b] == r[b - 1];
      if a > 0 {
        assert w[a] == r[a - 1];
      }
    }
  }

  /** Inserting keeps every char at most top when all were. */
  lemma {:induction false} InsertBound(c: char, s: seq<char>, top: char)
    requires c <= top && forall k | 0 <= k < |s| :: s[k] <= top
    ensures forall k | 0 <= k < |Insert(c, s)| :: Insert(c, s)[k] <= top
    decreases |s|
  {
    if s != [] && c < s[0] {
      InsertBound(c, s[1..], top);
      var r := Insert(c, s[1..]);
      assert forall k | 0 < k < |[s[0]] + r| :: ([s[0]] + r)[k] == r[k - 1];
    }
  }

  lemma {:induction false} InsertSorted(c: char, s: seq<char>)
    requires NonIncreasing(s)
    ensures NonIncreasing(Insert(c, s))
    decreases |s|
  {
    if s == [] || c >= s[0] {
      ConsSorted(c, s);
    } else {
      InsertSorted(c, s[1..]);
      InsertBound(c, s[1..], s[0]);
      ConsSorted(s[0], Insert(c, s[1..]));
    }
  }

  lemma {:induction false} InsertPerm(c: char, s: seq<char>)
    ensures multiset(Insert(c, s)) == multiset(s) + multiset{c}
    decreases |s|
  {
    if s != [] && c < s[0] {
      InsertPerm(c, s[1..]);
      assert s == [s[0]] + s[1..];
    }
  }

  lemma {:induction false} DescendingSorted(ds: seq<char>)
    ensures NonIncreasing(Descending(ds))
    decreases |ds|
  {
    if ds != [] {
      DescendingSorted(ds[1..]);
      InsertSorted(ds[0], Descending(ds[1..]));
    }
  }

  /** The reference order holds the digits of ds, each as often as ds does. */
  lemma {:induction false} DescendingPerm(ds: seq<char>)
    ensures multiset(Descending(ds)) == multiset(ds)
    decreases |ds|
  {
    if ds != [] {
      DescendingPerm(ds[1..]);
      InsertPerm(ds[0], Descending(ds[1..]));
      assert ds == [ds[0]] + ds[1..];
    }
  }

  /** The first char of a non-empty non-increasing sequence is its largest. */
  lemma FrontIsLargest(s: seq<char>, x: char)
    requires NonIncreasing(s) && x in multiset(s)
    ensures s != [] && s[0] >= x
  {
    var k :| 0 <= k < |s| && s[k] == x;
  }

  /** Two non-increasing sequences with the same chars are equal. */
  lemma {:induction false} SortedUnique(a: seq<char>, b: seq<char>)
    requires NonIncreasing(a) && NonIncreasing(b) && multiset(a) == multiset(b)
    ensures a == b
    decreases |a|
  {
    if a == [] {
      assert |b| == |multiset(b)| == 0;
    } else {
      assert a[0] in multiset(a);
      FrontIsLargest(b, a[0]);
      assert b[0] in multiset(b);
      FrontIsLargest(a, b[0]);
      assert a[0] == b[0];
      assert a == [a[0]] + a[1..] && b == [b[0]] + b[1..];
      assert multiset(a[1..]) == multiset(a) - multiset{a[0]};
      assert multiset(b[1..]) == multiset(b) - multiset{b[0]};
      SortedTail(a);
      SortedTail(b);
      SortedUnique(a[1..], b[1..]);
    }
  }

  lemma SortedTail(s: seq<char>)
    requires NonIncreasing(s) && s != []
    ensures NonIncreasing(s[1..])
  {
    assert forall k | 0 <= k < |s| - 1 :: s[1..][k] == s[k + 1];
  }

  /** The same chars as the digits ds are digits. */
  lemma SameDigits(p: seq<char>, ds: seq<char>)
    requires AllDigits(ds) && multiset(p) == multiset(ds)
    ensures AllDigits(p)
  {
    forall k | 0 <= k < |p|
      ensures IsDigit(p[k])
    {
      assert p[k] in multiset(ds);
      var n :| 0 <= n < |ds| && ds[n] == p[k];
    }
  }

  /** A number read from the front: the first digit weighs 10^(length of the rest). */
  lemma FrontValue(s: seq<char>)
    requires s != []
    ensures DecimalValue(s) == DigitOf(s[0]) * Pow10(|s| - 1) + DecimalValue(s[1..])
  {
    var h, t := [s[0]], s[1..];
    assert h + t == s;
    ValueAppend(h, t);
    assert [] + [s[0]] == h;
    Snoc([], s[0]);
  }

  /** The arithmetic of a smaller first digit: it loses whatever the rest adds. */
  lemma FrontLess(a: int, b: int, x: int, y: int, p: int)
    requires 0 <= a < b && 0 <= x < p && 0 <= y
    ensures a * p + x < b * p + y
  {
    assert (a + 1) * p <= b * p;
  }

  /** No arrangement of the same digits is worth more than the non-increasing one. */
  lemma {:induction false} SortedIsMax(p: seq<char>, s: seq<char>)
    requires AllDigits(s) && NonIncreasing(s) && multiset(p) == multiset(s)
    ensures DecimalValue(p) <= DecimalValue(s)
    decreases |p|
  {
    if p == [] {
      assert |s| == |multiset(s)| == 0;
    } else {
      FrontFacts(p, s);
      var t, u := p[1..], s[1..];
      if p[0] == s[0] {
        TailFacts(p, s);
        SortedIsMax(t, u);
        SameFront(DigitOf(p[0]), DecimalValue(t), DecimalValue(u), Pow10(|t|));
      } else {
        ValueBound(t);
        ValueBound(u);
        FrontLess(DigitOf(p[0]), DigitOf(s[0]), DecimalValue(t), DecimalValue(u), Pow10(|t|));
      }
    }
  }

  /** Both read from the front, the sorted one starting with the larger digit. */
  lemma FrontFacts(p: seq<char>, s: seq<char>)
    requires AllDigits(s) && NonIncreasing(s) && multiset(p) == multiset(s) && p != []
    ensures |s| == |p| && p[0] <= s[0] && IsDigit(p[0]) && IsDigit(s[0]) && AllDigits(p[1..]) && AllDigits(s[1..])
    ensures DecimalValue(p) == DigitOf(p[0]) * Pow10(|p| - 1) + DecimalValue(p[1..])
    ensures DecimalValue(s) == DigitOf(s[0]) * Pow10(|p| - 1) + DecimalValue(s[1..])
  {
    SameDigits(p, s);
    assert p[0] in multiset(p);
    FrontIsLargest(s, p[0]);
    assert |s| == |multiset(s)| == |p|;
    FrontValue(p);
    FrontValue(s);
    DigitsTail(p);
    DigitsTail(s);
  }

  /** With the same first digit, the rests are again a sorted sequence and an arrangement of
      it. */
  lemma TailFacts(p: seq<char>, s: seq<char>)
    requires NonIncreasing(s) && multiset(p) == multiset(s) && p != [] && s != [] && p[0] == s[0]
    ensures NonIncreasing(s[1..]) && multiset(p[1..]) == multiset(s[1..])
  {
    assert multiset(p[1..]) == multiset(p) - multiset{p[0]} by {
      assert p == [p[0]] + p[1..];
    }
    assert multiset(s[1..]) == multiset(s) - multiset{s[0]} by {
      assert s == [s[0]] + s[1..];
    }
    SortedTail(s);
  }

  lemma SameFront(a: int, x: int, y: int, p: int)
    requires x <= y
    ensures a * p + x <= a * p + y
  {
  }

  lemma DigitsTail(s: seq<char>)
    requires AllDigits(s) && s != []
    ensures AllDigits(s[1..])
  {
    assert forall k | 0 <= k < |s| - 1 :: s[1..][k] == s[k + 1];
  }

  /** biggest_number's promise: the reference order is an arrangement of the digits, and no
      arrangement is worth more. */
  lemma BiggestIsMax(ds: seq<char>, p: seq<char>)
    requires AllDigits(ds) && multiset(p) == multiset(ds)
    ensures multiset(Descending(ds)) == multiset(ds) && NonIncreasing(Descending(ds))
    ensures DecimalValue(p) <= DecimalValue(Descending(ds))
  {
    DescendingPerm(ds);
    DescendingSorted(ds);
    SameDigits(Descending(ds), ds);
    SortedIsMax(p, Descending(ds));
  }

  /** A non-increasing arrangement of the digits is the reference order. */
  lemma SortedIsDescending(ds: seq<char>, s: seq<char>)
    requires NonIncreasing(s) && multiset(s) == multiset(ds)
    ensures Descending(ds) == s
  {
    DescendingPerm(ds);
    DescendingSorted(ds);
    SortedUnique(Descending(ds), s);
  }

  /** A sorted arrangement of the digits gives their value. */
  lemma SortedValue(ds: seq<char>, s: seq<char>, v: int)
    requires NonIncreasing(s) && multiset(s) == multiset(ds) && DecimalValue(s) == v
    ensures DecimalValue(Descending(ds)) == v
  {
    SortedIsDescending(ds, s);
  }

  /** The test with ten digits: 4222222222, just below 2^32, so it fits u32. */
  lemma ExampleTenDigits(ds: seq<char>)
    requires ds == ['4', '2', '2', '2', '2', '2', '2', '2', '2', '2']
    ensures DecimalValue(Descending(ds)) == 4222222222 < 0x1_0000_0000
  {
    assert forall a, b | 0 <= a < b < |ds| :: ds[a] >= ds[b];
    assert ValueTo(ds, 1) == 4;
    assert ValueTo(ds, 2) == 42;
    assert ValueTo(ds, 3) == 422;
    assert ValueTo(ds, 4) == 4222;
    assert ValueTo(ds, 5) == 42222;
    assert ValueTo(ds, 6) == 422222;
    assert ValueTo(ds, 7) == 4222222;
    assert ValueTo(ds, 8) == 42222222;
    assert ValueTo(ds, 9) == 422222222;
    SortedValue(ds, ds, 4222222222);
  }

  /** The test with a single digit: 5 gives 5. */
  lemma ExampleSingle(ds: seq<char>)
    requires ds == ['5']
    ensures DecimalValue(Descending(ds)) == 5
  {
    assert ValueTo(ds, 1) == 5;
    SortedValue(ds, ds, 5);
  }

  /** A test with unique digits: 123 gives 321. */
  lemma Example321()
    ensures DecimalValue(Descending(['1', '2', '3'])) == 321
  {
    var s := ['1', '2', '3'];
    assert s[1..] == ['2', '3'] && s[2..] == ['3'];
    assert ['3'][1..] == [];
    assert Descending(['3']) == ['3'];
    assert ['3'][1..] == [] && Insert('2', []) == ['2'];
    assert Insert('2', ['3']) == ['3', '2'];
    assert Descending(['2', '3']) == ['3', '2'];
    assert ['3', '2'][1..] == ['2'] && ['2'][1..] == [];
    assert Insert('1', ['2']) == ['2', '1'];
    assert Insert('1', ['3', '2']) == ['3', '2', '1'];
    assert Descending(s) == ['3', '2', '1'];
    var v := ['3', '2', '1'];
    assert ValueTo(v, 1) == 3 && ValueTo(v, 2) == 32;
  }

  /** The other test with unique digits: 908 gives 980. */
  lemma Example980()
    ensures DecimalValue(Descending(['9', '0', '8'])) == 980
  {
    var s := ['9', '0', '8'];
    assert s[1..] == ['0', '8'] && s[2..] == ['8'];
    assert ['8'][1..] == [];
    assert Descending(['8']) == ['8'];
    assert ['8'][1..] == [] && Insert('0', []) == ['0'];
    assert Insert('0', ['8']) == ['8', '0'];
    assert Descending(['0', '8']) == ['8', '0'];
    assert Insert('9', ['8', '0']) == ['9', '8', '0'];
    assert Descending(s) == ['9', '8', '0'];
    var v := ['9', '8', '0'];
    assert ValueTo(v, 1) == 9 && ValueTo(v, 2) == 98;
  }

  /** The tests with repeated digits: 111 gives 111, 221 gives 221. */
  lemma ExampleRepeated(d1: seq<char>, d2: seq<char>)
    requires d1 == ['1', '1', '1'] && d2 == ['2', '2', '1']
    ensures DecimalValue(Descending(d1)) == 111 && DecimalValue(Descending(d2)) == 221
  {
    assert ValueTo(d1, 1) == 1;
    assert ValueTo(d1, 2) == 11;
    SortedValue(d1, d1, 111);
    assert ValueTo(d2, 1) == 2;
    assert ValueTo(d2, 2) == 22;
    SortedValue(d2, d2, 221);
  }

  /** The example of the documentation and a test: 3141 gives 4311. */
  lemma Example4311()
    ensures DecimalValue(Descending(['3', '1', '4', '1'])) == 4311
  {
    var s := ['3', '1', '4', '1'];
    assert s[1..] == ['1', '4', '1'] && s[2..] == ['4', '1'] && s[3..] == ['1'];
    assert ['1'][1..] == [];
    assert Descending(['1']) == ['1'];
    assert Descending(['4', '1']) == ['4', '1'];
    assert ['4', '1'][1..] == ['1'];
    assert Insert('1', ['1']) == ['1', '1'];
    assert Descending(['1', '4', '1']) == ['4', '1', '1'];
    assert Descending(s) == ['4', '3', '1', '1'];
    var v := ['4', '3', '1', '1'];
    assert ValueTo(v, 1) == 4 && ValueTo(v, 2) == 43 && ValueTo(v, 3) == 431;
  }

  /** Zeros go last: 009 gives 900. */
  lemma Example900()
    ensures DecimalValue(Descending(['0', '0', '9'])) == 900
  {
    var s := ['0', '0', '9'];
    assert s[1..] == ['0', '9'] && s[2..] == ['9'];
    assert ['9'][1..] == [];
    assert Descending(['9']) == ['9'];
    assert ['9', '0'][1..] == ['0'];
    assert Insert('0', ['0']) == ['0', '0'];
    assert Descending(['0', '9']) == ['9', '0'];
    assert Descending(s) == ['9', '0', '0'];
    var v := ['9', '0', '0'];
    assert ValueTo(v, 1) == 9 && ValueTo(v, 2) == 90;
  }
}
