/**
 * Decimal rendering of integers, as JavaScript's string conversion does it for
 * integral numbers, and the left-padding helper `_padTimeLeft`.
 */
module Text {

  predicate IsDigit(ch: char) {
    '0' <= ch <= '9'
  }

  predicate AllDigits(s: string) {
    forall i :: 0 <= i < |s| ==> IsDigit(s[i])
  }

  function DigitChar(d: nat): (ch: char)
    requires d < 10
    ensures IsDigit(ch)
  {
    ('0' as int + d) as char
  }

  function DigitValue(ch: char): nat {
    if IsDigit(ch) then ch as int - '0' as int else 0
  }

  /** The decimal form of `n`, without sign and without leading zeros. */
  function NatToString(n: nat): (s: string)
    ensures |s| >= 1 && AllDigits(s)
    ensures s[0] == '0' ==> n == 0
    decreases n
  {
    if n < 10 then [DigitChar(n)] else NatToString(n / 10) + [DigitChar(n % 10)]
  }

  /** The decimal form of `i`, with a leading '-' when it is negative: `String(i)`. */
  function IntToString(i: int): string {
    if i < 0 then "-" + NatToString(-i) else NatToString(i)
  }

  /** The value of a string of decimal digits (the independent reading of NatToString). */
  function ParseNat(s: string): nat {
    if s == [] then 0 else ParseNat(s[..|s| - 1]) * 10 + DigitValue(s[|s| - 1])
  }

  function ParseInt(s: string): int {
    if |s| > 0 && s[0] == '-' then -(ParseNat(s[1..]) as int) else ParseNat(s)
  }

  lemma {:induction false} ParseNatToString(n: nat)
    ensures ParseNat(NatToString(n)) == n
    decreases n
  {
    if n >= 10 {
      var s := NatToString(n);
      assert s[..|s| - 1] == NatToString(n / 10);
      ParseNatToString(n / 10);
    }
  }

  lemma ParseIntToString(i: int)
    ensures ParseInt(IntToString(i)) == i
  {
    if i < 0 {
      ParseNatToString(-i);
      assert IntToString(i)[1..] == NatToString(-i);
    } else {
      ParseNatToString(i);
    }
  }

  /** Distinct integers render as distinct strings. */
  lemma IntToStringInjective(i: int, j: int)
    requires IntToString(i) == IntToString(j)
    ensures i == j
  {
    ParseIntToString(i);
    ParseIntToString(j);
  }

  /** `new Array(count + 1).join(pad)`: `count` copies of `pad`. */
  function Repeat(pad: string, count: nat): (r: string)
    ensures |r| == count * |pad|
    ensures forall i :: 0 <= i < |r| && |pad| == 1 ==> r[i] == pad[0]
  {
    if count == 0 then "" else Repeat(pad, count - 1) + pad
  }

  /**
   * `_padTimeLeft(string, pad, length)`: `(Repeat(pad, length) + string).slice(-length)`.
   * A slice from `-0` is a slice from `0`, so a zero length returns the string whole.
   */
  function PadTimeLeft(s: string, pad: string, length: nat): (r: string)
    ensures length == 0 ==> r == s
    ensures length > 0 ==> |r| == Min(length, length * |pad| + |s|)
    ensures length > 0 ==> r == (Repeat(pad, length) + s)[length * |pad| + |s| - |r|..]
  {
    var padded := Repeat(pad, length) + s;
    if length == 0 then padded
    else if |padded| <= length then padded
    else padded[|padded| - length..]
  }

  function Min(a: int, b: int): int {
    if a <= b then a else b
  }

  /**
   * With a one-character pad and a positive length the result has exactly
   * `length` characters: the string left-padded when it is short enough, its
   * last `length` characters otherwise.
   */
  lemma PadTimeLeftOneChar(s: string, pad: string, length: nat)
    requires |pad| == 1 && length >= 1
    ensures |PadTimeLeft(s, pad, length)| == length
    ensures |s| <= length ==> PadTimeLeft(s, pad, length) == Repeat(pad, length - |s|) + s
    ensures |s| > length ==> PadTimeLeft(s, pad, length) == s[|s| - length..]
  {
    var r := PadTimeLeft(s, pad, length);
    var padded := Repeat(pad, length) + s;
    if |s| <= length {
      var want := Repeat(pad, length - |s|) + s;
      assert |r| == |want|;
      forall i | 0 <= i < |r|
        ensures r[i] == want[i]
      {
        assert r[i] == padded[|s| + i];
      }
    } else {
      assert r == padded[length + |s| - length..];
    }
  }
}
