/**
 Decimal numbers as the passes use them: `operator<<` on a stream writes one, and
 `operator>>` into an `unsigned int` reads one back from the front of a string.
 */
module Decimal {

  import opened Wrappers

  // One more than the largest `unsigned int`; reading a larger number fails.
  const UNSIGNED_LIMIT: nat := 0x1_0000_0000

  predicate IsDigit(c: char) {
    '0' <= c <= '9'
  }

  function DigitChar(d: nat): (c: char)
    requires d < 10
    ensures IsDigit(c) && DigitValue(c) == d
  {
    '0' + d as char
  }

  function DigitValue(c: char): nat
    requires IsDigit(c)
  {
    (c - '0') as nat
  }

  predicate AllDigits(s: string) {
    forall i :: 0 <= i < |s| ==> IsDigit(s[i])
  }

  // The decimal form of n, without leading zeros.
  function Print(n: nat): (s: string)
    ensures |s| >= 1 && AllDigits(s)
  {
    if n < 10 then [DigitChar(n)] else Print(n / 10) + [DigitChar(n % 10)]
  }

  // The number a string of digits stands for.
  function Value(s: string): nat
    requires AllDigits(s)
  {
    if s == [] then 0 else 10 * Value(s[..|s| - 1]) + DigitValue(s[|s| - 1])
  }

  // How many digits a string starts with.
  function DigitPrefix(s: string): (k: nat)
    ensures k <= |s| && AllDigits(s[..k])
    ensures k < |s| ==> !IsDigit(s[k])
  {
    if s == [] || !IsDigit(s[0]) then 0
    else
      var k := 1 + DigitPrefix(s[1..]);
      assert forall i :: 0 <= i < k ==> s[..k][i] == if i == 0 then s[0] else s[1..][i - 1];
      k
  }

  // Stream extraction of an `unsigned int`: the longest run of leading digits is taken,
  // whatever follows it is left in the stream, and a value that does not fit fails.
  // (Identifiers hold neither white space nor a sign.)
  function ReadUnsigned(s: string): Option<nat> {
    var k := DigitPrefix(s);
    if k == 0 || Value(s[..k]) >= UNSIGNED_LIMIT then None else Some(Value(s[..k]))
  }

  // Reading undoes printing.
  lemma {:induction false} ValuePrint(n: nat)
    ensures Value(Print(n)) == n
  {
    if n >= 10 {
      ValuePrint(n / 10);
      assert Print(n)[..|Print(n)| - 1] == Print(n / 10);
    }
  }

  lemma PrintInjective(m: nat, n: nat)
    requires Print(m) == Print(n)
    ensures m == n
  {
    ValuePrint(m);
    ValuePrint(n);
  }

  // A printed number followed by anything that is not a digit is read back exactly.
  lemma DigitPrefixPrint(n: nat, rest: string)
    requires rest == [] || !IsDigit(rest[0])
    ensures DigitPrefix(Print(n) + rest) == |Print(n)|
    ensures (Print(n) + rest)[..|Print(n)|] == Print(n)
  {
    var s := Print(n) + rest;
    var k := DigitPrefix(s);
    var p := Print(n);
    assert forall i :: 0 <= i < |p| ==> s[i] == p[i];
    assert |rest| > 0 ==> s[|p|] == rest[0];
    assert forall i :: 0 <= i < k ==> s[..k][i] == s[i];
  }

  lemma ReadPrint(n: nat)
    ensures ReadUnsigned(Print(n)) == if n < UNSIGNED_LIMIT then Some(n) else None
  {
    DigitPrefixPrint(n, []);
    assert Print(n) + [] == Print(n);
    ValuePrint(n);
  }

  // Decimal notation.
  lemma PrintDigits(n: nat, d: nat)
    requires d < 10
    ensures Print(d) == ["0123456789"[d]]
    ensures n > 0 ==> Print(10 * n + d) == Print(n) + ["0123456789"[d]]
  {
    assert (10 * n + d) / 10 == n && (10 * n + d) % 10 == d;
  }

  lemma ValueOfDigits(s: string, d: nat)
    requires d < 10 && AllDigits(s)
    ensures AllDigits(s + ["0123456789"[d]]) && Value("") == 0
    ensures Value(s + ["0123456789"[d]]) == 10 * Value(s) + d
  {
    var t := s + ["0123456789"[d]];
    assert t[..|t| - 1] == s;
  }

  lemma AllDigitsIff(s: string)
    ensures AllDigits(s) <==> forall c :: c in s ==> c in "0123456789"
  {
    if forall c :: c in s ==> c in "0123456789" {
      forall i | 0 <= i < |s|
        ensures IsDigit(s[i])
      {
        assert s[i] in s;
      }
    }
  }

  // Digits with the value n, and then no further digit.
  ghost predicate StartsWith(s: string, n: nat) {
    exists digits: string, rest: string ::
      s == digits + rest && digits != "" && AllDigits(digits) && (rest == "" || rest[0] !in "0123456789") && Value(digits) == n
  }

  // The longest run of digits is read, and nothing else.
  lemma ReadUnsignedIff(s: string, n: nat)
    ensures ReadUnsigned(s) == Some(n) <==> n < 0x1_0000_0000 && StartsWith(s, n)
  {
    var k := DigitPrefix(s);
    assert s == s[..k] + s[k..];
    if digits: string, rest: string :|
      s == digits + rest && digits != "" && AllDigits(digits) && (rest == "" || rest[0] !in "0123456789") && Value(digits) == n
    {
      assert rest != "" ==> s[|digits|] == rest[0] && !IsDigit(rest[0]);
      assert forall i :: 0 <= i < |digits| ==> s[i] == digits[i];
      assert forall i :: 0 <= i < k ==> s[..k][i] == s[i];
      assert k == |digits| && s[..k] == digits;
    }
  }

  // ----- Conversion to `int` -----

  // Conversion to `int`, which keeps 32 bits.
  function ToInt(v: int): int {
    var r := v % UNSIGNED_LIMIT;
    if r >= 0x8000_0000 then r - UNSIGNED_LIMIT else r
  }

  predicate FitsInt(v: int) {
    0 <= v < 0x8000_0000
  }

  lemma ToIntFits(v: int)
    requires FitsInt(v)
    ensures ToInt(v) == v
  {
  }
}
