/** The few .NET string primitives the core relies on, with the behaviour of the
    base class library: decimal formatting of a non-negative Int32, `String.LastIndexOf(char)`
    and `String.Substring(int, int)`. */
module Text {
  import opened Wrappers

  predicate IsDigit(c: char) {
    '0' <= c <= '9'
  }

  function DigitChar(d: nat): (c: char)
    requires d < 10
    ensures IsDigit(c)
  {
    "0123456789"[d]
  }

  function DigitValue(c: char): (d: nat)
    requires IsDigit(c)
    ensures d < 10 && DigitChar(d) == c
  {
    (c as int - '0' as int) as nat
  }

  /** `Int32.ToString()` of a non-negative value, as `StringBuilder.Append(int)` writes it:
      unpadded decimal, no sign, no group separators. */
  function DecimalString(n: nat): (s: string)
    ensures |s| >= 1
    ensures forall k :: 0 <= k < |s| ==> IsDigit(s[k])
    ensures s[0] == '0' ==> n == 0 && s == "0"
    decreases n
  {
    if n < 10 then [DigitChar(n)] else DecimalString(n / 10) + [DigitChar(n % 10)]
  }

  /** Reads back a string of decimal digits. */
  function ParseDecimal(s: string): (n: nat)
    requires forall k :: 0 <= k < |s| ==> IsDigit(s[k])
    decreases |s|
  {
    if s == [] then 0 else 10 * ParseDecimal(s[..|s| - 1]) + DigitValue(s[|s| - 1])
  }

  lemma {:induction false} ParseDecimalOfDecimalString(n: nat)
    ensures ParseDecimal(DecimalString(n)) == n
    decreases n
  {
    var s := DecimalString(n);
    if n >= 10 {
      ParseDecimalOfDecimalString(n / 10);
      assert s[..|s| - 1] == DecimalString(n / 10);
    }
  }

  /** Distinct indices are written as distinct strings. */
  lemma DecimalStringInjective(i: nat, j: nat)
    ensures DecimalString(i) == DecimalString(j) <==> i == j
  {
    ParseDecimalOfDecimalString(i);
    ParseDecimalOfDecimalString(j);
  }

  /** `s.LastIndexOf(c)`: the position of the last `c` in `s`, or -1 when there is none. */
  function LastIndexOf(s: string, c: char): (r: int)
    ensures -1 <= r < |s|
    ensures r == -1 <==> c !in s
    ensures 0 <= r ==> s[r] == c
    ensures forall k :: r < k < |s| ==> s[k] != c
    decreases |s|
  {
    if s == [] then -1
    else if s[|s| - 1] == c then |s| - 1
    else LastIndexOf(s[..|s| - 1], c)
  }

  /** `s.Substring(startIndex, length)`; None stands for the ArgumentOutOfRangeException
      it throws when either argument is negative or the range runs past the end. */
  function Substring(s: string, startIndex: int, length: int): (r: Option<string>)
    ensures r.Some? <==> 0 <= startIndex && 0 <= length && startIndex + length <= |s|
    ensures r.Some? ==> |r.value| == length
    ensures r.Some? ==> forall k :: 0 <= k < length ==> r.value[k] == s[startIndex + k]
  {
    if startIndex < 0 || length < 0 || startIndex + length > |s| then None
    else Some(s[startIndex..startIndex + length])
  }
}
