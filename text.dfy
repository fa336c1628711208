/** Character and string helpers shared by the screens: ASCII case mapping,
    the digit filter applied to numeric inputs, `parseInt(s, 10) || 0`, and
    substring search (`String.prototype.includes`). */
module Text {
  import opened Common

  predicate IsDigit(c: char) { '0' <= c <= '9' }

  predicate AllDigits(s: string) { forall i :: 0 <= i < |s| ==> IsDigit(s[i]) }

  function DigitValue(c: char): (d: nat)
    requires IsDigit(c)
    ensures d < 10
  {
    c as int - '0' as int
  }

  function LowerChar(c: char): char {
    if 'A' <= c <= 'Z' then (c as int + 32) as char else c
  }

  function UpperChar(c: char): char {
    if 'a' <= c <= 'z' then (c as int - 32) as char else c
  }

  /** `toLowerCase` restricted to ASCII letters: no upper-case letter is left,
      and every other character is kept. */
  function Lower(s: string): (r: string)
    ensures |r| == |s|
    ensures forall i :: 0 <= i < |r| ==> r[i] == LowerChar(s[i]) && !('A' <= r[i] <= 'Z')
  {
    if s == [] then [] else [LowerChar(s[0])] + Lower(s[1..])
  }

  /** `toUpperCase` restricted to ASCII letters: no lower-case letter is left. */
  function Upper(s: string): (r: string)
    ensures |r| == |s|
    ensures forall i :: 0 <= i < |r| ==> r[i] == UpperChar(s[i]) && !('a' <= r[i] <= 'z')
  {
    if s == [] then [] else [UpperChar(s[0])] + Upper(s[1..])
  }

  /** `s.replace(/[^0-9]/g, "")`: the digits of `s`, in order. */
  function DigitsOnly(s: string): (r: string)
    ensures AllDigits(r) && |r| <= |s|
    ensures AllDigits(s) ==> r == s
  {
    if s == [] then []
    else if IsDigit(s[0]) then [s[0]] + DigitsOnly(s[1..])
    else DigitsOnly(s[1..])
  }

  /** The decimal value of a string of digits (leading zeros allowed). */
  function DecimalValue(ds: string): nat
    requires AllDigits(ds)
  {
    if ds == [] then 0 else DecimalValue(ds[..|ds| - 1]) * 10 + DigitValue(ds[|ds| - 1])
  }

  /** The longest prefix of `s` made of digits. */
  function LeadingDigits(s: string): (r: string)
    ensures AllDigits(r) && r <= s
    ensures |r| < |s| ==> !IsDigit(s[|r|])
  {
    if s != [] && IsDigit(s[0]) then [s[0]] + LeadingDigits(s[1..]) else []
  }

  /** `parseInt(s, 10) || 0` on unsigned input: the value of the leading run
      of digits, and 0 when there is none (parseInt gives NaN, which `|| 0`
      turns into 0). */
  function ParseIntOrZero(s: string): (n: nat)
    ensures AllDigits(s) ==> n == DecimalValue(s)
    ensures s == [] ==> n == 0
  {
    DigitsPrefixOfDigits(s);
    DecimalValue(LeadingDigits(s))
  }

  lemma {:induction false} DigitsPrefixOfDigits(s: string)
    ensures AllDigits(s) ==> LeadingDigits(s) == s
  {
    if s != [] && AllDigits(s) {
      assert AllDigits(s[1..]);
      DigitsPrefixOfDigits(s[1..]);
    }
  }

  function DigitChar(d: nat): (c: char)
    requires d < 10
    ensures IsDigit(c) && DigitValue(c) == d
  {
    ('0' as int + d) as char
  }

  /** `n.toString()` for a non-negative integer: its decimal digits, no
      leading zero. */
  function NatToString(n: nat): (s: string)
    ensures s != [] && AllDigits(s)
    ensures DecimalValue(s) == n
  {
    if n < 10 then [DigitChar(n)]
    else
      var s := NatToString(n / 10) + [DigitChar(n % 10)];
      assert s[..|s| - 1] == NatToString(n / 10);
      s
  }

  /** `n.toString()` for any integer. */
  function IntToString(n: int): string {
    if n < 0 then "-" + NatToString(-n) else NatToString(n)
  }

  /** `parseInt(s, 10)`: an optional sign, then the leading run of digits;
      NaN (here `None`) when there is no digit. Leading white space is not
      modelled. */
  function ParseInt(s: string): (r: Option<int>)
    ensures AllDigits(s) && s != [] ==> r == Some(DecimalValue(s))
    ensures r.None? <==> LeadingDigits(if s != [] && (s[0] == '-' || s[0] == '+') then s[1..] else s) == []
  {
    DigitsPrefixOfDigits(s);
    if s != [] && (s[0] == '-' || s[0] == '+') then
      var ds := LeadingDigits(s[1..]);
      if ds == [] then None
      else if s[0] == '-' then Some(-(DecimalValue(ds) as int))
      else Some(DecimalValue(ds) as int)
    else
      var ds := LeadingDigits(s);
      if ds == [] then None else Some(DecimalValue(ds) as int)
  }

  /** `parseInt` reads back what `toString` writes. */
  lemma ParseIntToString(n: int)
    ensures ParseInt(IntToString(n)) == Some(n)
  {
    var digits := NatToString(if n < 0 then -n else n);
    DigitsPrefixOfDigits(digits);
    if n < 0 {
      assert ("-" + digits)[1..] == digits;
    }
  }

  /** `t` occurs in `s` at index `i`. */
  predicate OccursAt(s: string, t: string, i: int) {
    0 <= i && i + |t| <= |s| && s[i..i + |t|] == t
  }

  /** `s.includes(t)`: true exactly when `t` occurs somewhere in `s`; the
      empty string occurs in every string. */
  function Contains(s: string, t: string): (b: bool)
    ensures b <==> exists i :: OccursAt(s, t, i)
    ensures t == [] ==> b
  {
    assert t == [] ==> OccursAt(s, t, 0);
    if t <= s then
      assert OccursAt(s, t, 0);
      true
    else if s == [] then
      false
    else
      var b := Contains(s[1..], t);
      assert forall i :: OccursAt(s[1..], t, i) ==> OccursAt(s, t, i + 1);
      assert forall i :: OccursAt(s, t, i) && i > 0 ==> OccursAt(s[1..], t, i - 1);
      b
  }
}
