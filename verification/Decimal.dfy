/** Two number printers, built differently, that print the same canonical decimal. */
module Decimal {
  import opened Words

  type int32 = x: int | -0x8000_0000 <= x < 0x8000_0000

  // ----- canonical decimals

  function Digit(d: nat): char
    requires d < 10
  {
    '0' + d as char
  }

  function Digits(n: nat): (s: string)
    ensures |s| > 0
  {
    if n < 10 then [Digit(n)] else Digits(n / 10) + [Digit(n % 10)]
  }

  function Text(v: int): string {
    if v < 0 then "-" + Digits(-v) else Digits(v)
  }

  predicate IsDigit(c: char) {
    '0' <= c <= '9'
  }

  function ParseDigits(s: string): int {
    if s == "" then 0 else 10 * ParseDigits(s[..|s| - 1]) + (s[|s| - 1] as int - '0' as int)
  }

  /** The number a decimal with an optional sign stands for. */
  function Parse(s: string): int {
    if s != "" && s[0] == '-' then -ParseDigits(s[1..]) else ParseDigits(s)
  }

  lemma {:induction false} DigitsParse(n: nat)
    ensures ParseDigits(Digits(n)) == n
    ensures forall i :: 0 <= i < |Digits(n)| ==> IsDigit(Digits(n)[i])
    ensures Digits(n)[0] == '0' ==> n == 0
    decreases n
  {
    if n >= 10 {
      DigitsParse(n / 10);
      var s := Digits(n);
      assert s[..|s| - 1] == Digits(n / 10);
    } else {
      assert Digits(n)[..0] == "";
    }
  }

  /** The printed text reads back, has only digits after the sign, and no leading zero. */
  lemma TextIsCanonical(v: int)
    ensures Parse(Text(v)) == v
    ensures v < 0 ==> Text(v)[0] == '-' && Text(v)[1] != '0'
    ensures v >= 0 ==> (Text(v)[0] == '0' ==> Text(v) == "0")
    ensures forall i :: (if v < 0 then 1 else 0) <= i < |Text(v)| ==> IsDigit(Text(v)[i])
  {
    var n := if v < 0 then -v else v;
    DigitsParse(n);
    if v < 0 { assert Text(v)[1..] == Digits(n); }
  }

  function Pow10(k: nat): nat {
    if k == 0 then 1 else 10 * Pow10(k - 1)
  }

  lemma {:induction false} DigitsLength(n: nat, k: nat)
    requires 0 < k && n < Pow10(k)
    ensures |Digits(n)| <= k
    decreases k
  {
    if n >= 10 { DigitsLength(n / 10, k - 1); }
  }

  /** At most 10 digits for 32 unsigned bits, at most 11 characters for 32 signed bits. */
  lemma TextLength(v: int)
    requires -0x8000_0000 <= v < 0x1_0000_0000
    ensures |Text(v)| <= if v < 0 then 11 else 10
  {
    assert Pow10(10) == 10_000_000_000 by {
      assert Pow10(5) == 100_000;
    }
    DigitsLength(if v < 0 then -v else v, 10);
  }

  // ----- digits counted, then filled in from the right

  method CountDigits(num: u32) returns (len: nat)
    ensures len == |Digits(num)|
  {
    var temp, more := num, true;
    len := 0;
    while more
      invariant |Digits(num)| == len + if more then |Digits(temp)| else 0
      decreases temp, more
    {
      len := len + 1;
      more := temp / 10 != 0;
      temp := temp / 10;
    }
  }

  method UintToStr(num: u32, str: array<char>)
    requires |Digits(num)| < str.Length
    modifies str
    ensures str[..|Digits(num)|] == Digits(num) && str[|Digits(num)|] == '\0'
    ensures forall j :: |Digits(num)| < j < str.Length ==> str[j] == old(str[j])
  {
    var len := CountDigits(num);
    str[len] := '\0';
    var rest: nat, i: int := num, len - 1;
    ghost var goal := Digits(num);
    while i >= 0
      invariant -1 <= i < len == |goal|
      invariant i >= 0 ==> Digits(rest) == goal[..i + 1]
      invariant forall j :: i < j < len ==> str[j] == goal[j]
      invariant str[len] == '\0' && forall j :: len < j < str.Length ==> str[j] == old(str[j])
    {
      LastDigit(rest, goal[..i + 1]);
      assert i > 0 ==> goal[..i + 1][..i] == goal[..i];
      str[i] := '0' + (rest % 10) as char;
      rest := rest / 10;
      i := i - 1;
    }
  }

  lemma LastDigit(n: nat, s: string)
    requires Digits(n) == s
    ensures s[|s| - 1] == Digit(n % 10) && (|s| > 1 ==> Digits(n / 10) == s[..|s| - 1])
  {
  }

  // ----- signed digits emitted backwards, then reversed in place

  const LOW_LETTERS := "zyxwvutsrqponmlkjihgfedcba"
  const DIGIT_CHARS := "9876543210123456789"
  const HIGH_LETTERS := "abcdefghijklmnopqrstuvwxyz"
  const LOOKUP := LOW_LETTERS + DIGIT_CHARS + HIGH_LETTERS

  lemma LookupLengths()
    ensures |LOW_LETTERS| == 26 && |DIGIT_CHARS| == 19 && |LOOKUP| == 71
  {
  }

  /** The table gives the digit for remainders of either sign. */
  lemma LookupDigit(d: int)
    requires -10 < d < 10
    ensures |LOOKUP| == 71 && LOOKUP[35 + d] == Digit(Abs(d))
  {
    LookupLengths();
    assert LOOKUP[35 + d] == DIGIT_CHARS[9 + d];
    var c := DIGIT_CHARS;
    assert c[0] == c[18] == Digit(9) && c[1] == c[17] == Digit(8) && c[2] == c[16] == Digit(7);
    assert c[3] == c[15] == Digit(6) && c[4] == c[14] == Digit(5) && c[5] == c[13] == Digit(4);
    assert c[6] == c[12] == Digit(3) && c[7] == c[11] == Digit(2) && c[8] == c[10] == Digit(1) && c[9] == Digit(0);
  }

  method LookUp(d: int) returns (c: char)
    requires -10 < d < 10
    ensures c == Digit(Abs(d))
  {
    LookupDigit(d);
    c := LOOKUP[35 + d];
  }

  /** C's division truncates toward zero. */
  function Quotient(a: int, b: int): int
    requires b > 0
  {
    if a >= 0 then a / b else -(-a / b)
  }

  function Abs(v: int): nat {
    if v < 0 then -v else v
  }

  function Reversed(s: string): (r: string)
    ensures |r| == |s| && forall i :: 0 <= i < |s| ==> r[i] == s[|s| - 1 - i]
  {
    if s == "" then "" else Reversed(s[1..]) + [s[0]]
  }

  lemma ReversedNone(s: string)
    requires s == ""
    ensures Reversed(s) == ""
  {
  }

  lemma ReversedEnd(s: string, c: char)
    ensures Reversed(s + [c]) == [c] + Reversed(s)
  {
    var a, b := Reversed(s + [c]), [c] + Reversed(s);
    assert |a| == |b| && forall i :: 0 <= i < |a| ==> a[i] == b[i];
  }

  /** One division step of either sign: the quotient's digits, then the remainder's. */
  lemma QuotientStep(v: int)
    ensures Quotient(v, 10) < 0 ==> v < 0
    ensures Quotient(v, 10) > 0 ==> v > 0
    ensures v < 0 ==> Quotient(v, 10) <= 0
    ensures -0x8000_0000 <= v < 0x8000_0000 ==> -0x8000_0000 <= Quotient(v, 10) < 0x8000_0000
    ensures Quotient(v, 10) != 0 ==> Abs(Quotient(v, 10)) < Abs(v)
    ensures var r := v - Quotient(v, 10) * 10;
      && -10 < r < 10 && Abs(Quotient(v, 10)) == Abs(v) / 10 && Abs(r) == Abs(v) % 10
      && (Quotient(v, 10) == 0 <==> Abs(v) < 10)
      && Digits(Abs(v)) == (if Quotient(v, 10) == 0 then "" else Digits(Abs(Quotient(v, 10)))) + [Digit(Abs(r))]
  {
  }

  /** The emitting loop: digits from the last to the first; last is the value before the last division. */
  method Emit(num: int32, result: array<char>) returns (n: nat, last: int32)
    requires |Digits(Abs(num))| <= result.Length
    modifies result
    ensures n == |Digits(Abs(num))| && Reversed(result[..n]) == Digits(Abs(num))
    ensures last < 0 <==> num < 0
    ensures forall j :: n <= j < result.Length ==> result[j] == old(result[j])
  {
    hide Digits, Quotient, Abs, Reversed;
    var value: int32, more: bool := num, true;
    n, last := 0, num;
    assert Reversed(result[..0]) == "" by { ReversedNone(result[..0]); }
    while more
      invariant n <= |Digits(Abs(num))| && (more ==> (value < 0 <==> num < 0) && n < |Digits(Abs(num))|)
      invariant last < 0 <==> num < 0
      invariant Digits(Abs(num)) == (if more then Digits(Abs(value)) else "") + Reversed(result[..n])
      invariant forall j :: n <= j < result.Length ==> result[j] == old(result[j])
      decreases Abs(value), more
    {
      last := value;
      QuotientStep(value);
      var digit := LookUp(last - Quotient(value, 10) * 10);
      value := Quotient(value, 10);
      ghost var before := result[..n];
      result[n] := digit;
      assert result[..n + 1] == before + [result[n]];
      ReversedEnd(before, result[n]);
      n := n + 1;
      more := value != 0;
    }
  }

  /** The swapping loop from both ends. */
  method ReverseInPlace(a: array<char>, n: nat)
    requires n <= a.Length
    modifies a
    ensures a[..n] == Reversed(old(a[..n]))
    ensures forall j :: n <= j < a.Length ==> a[j] == old(a[j])
  {
    var i, j: int := 0, n - 1;
    while i < j
      invariant 0 <= i && i + j == n - 1
      invariant forall k :: 0 <= k < n && (k < i || k > j) ==> a[k] == old(a[n - 1 - k])
      invariant forall k :: i <= k <= j ==> a[k] == old(a[k])
      invariant forall k :: n <= k < a.Length ==> a[k] == old(a[k])
    {
      a[i], a[j] := a[j], a[i];
      i, j := i + 1, j - 1;
    }
    ghost var s, r := old(a[..n]), Reversed(old(a[..n]));
    forall k | 0 <= k < n
      ensures a[k] == r[k]
    {
      assert r[k] == s[n - 1 - k];
    }
  }

  method Itoa(num: int32, result: array<char>)
    requires |Text(num)| < result.Length
    modifies result
    ensures result[..|Text(num)|] == Text(num) && result[|Text(num)|] == '\0'
    ensures forall j :: |Text(num)| < j < result.Length ==> result[j] == old(result[j])
  {
    hide Digits, Reversed;
    var n, last := Emit(num, result);
    if last < 0 {
      ghost var before := result[..n];
      result[n] := '-';
      n := n + 1;
      assert result[..n] == before + ['-'];
      ReversedEnd(before, '-');
    }
    assert Reversed(result[..n]) == Text(num);
    result[n] := '\0';
    ReverseInPlace(result, n);
  }

  /** For a number that both can print, the two printers leave the same text. */
  method PrintersAgree(num: int32, a: array<char>, b: array<char>)
    requires 0 <= num && a != b && 11 <= a.Length && 11 <= b.Length
    modifies a, b
    ensures |Text(num)| <= 10 && a[..|Text(num)| + 1] == b[..|Text(num)| + 1] == Text(num) + ['\0']
  {
    TextLength(num);
    Itoa(num, a);
    UintToStr(num, b);
  }
}
