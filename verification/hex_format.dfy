/**
 * Python's `'%04X'` / `f'{n:04X}'` rendering of a non-negative integer:
 * upper-case hexadecimal, left-padded with '0' to at least four digits,
 * never truncated.
 */
module HexFormat {

  /** The characters the `X` presentation type emits. */
  predicate IsDigit(ch: char) {
    '0' <= ch <= '9' || 'A' <= ch <= 'F'
  }

  predicate AllDigits(s: string) {
    forall i :: 0 <= i < |s| ==> IsDigit(s[i])
  }

  function DigitValue(ch: char): (v: nat)
    requires IsDigit(ch)
    ensures v < 16
  {
    if ch <= '9' then ch as int - '0' as int else ch as int - 'A' as int + 10
  }

  /** The upper-case digit of value `v`; `DigitValue` undoes it. */
  function Digit(v: nat): (ch: char)
    requires v < 16
    ensures IsDigit(ch) && DigitValue(ch) == v
  {
    if v < 10 then ('0' as int + v) as char else ('A' as int + v - 10) as char
  }

  /** The number a string of hexadecimal digits denotes (the most significant digit first). */
  function Value(s: string): nat
    requires AllDigits(s)
  {
    if s == [] then 0 else Value(s[..|s| - 1]) * 16 + DigitValue(s[|s| - 1])
  }

  function Pow16(k: nat): (p: nat)
    ensures p >= 1
  {
    if k == 0 then 1 else 16 * Pow16(k - 1)
  }

  function Zeros(k: nat): (z: string)
    ensures |z| == k && forall i :: 0 <= i < k ==> z[i] == '0'
  {
    if k == 0 then [] else Zeros(k - 1) + ['0']
  }

  /** The shortest upper-case hexadecimal numeral of `n` (a single '0' for zero). */
  function Hex(n: nat): (s: string)
    ensures |s| >= 1 && AllDigits(s) && Value(s) == n
    ensures |s| > 1 ==> s[0] != '0'
    decreases n
  {
    if n < 16 then [Digit(n)]
    else
      var h := Hex(n / 16);
      var s := h + [Digit(n % 16)];
      assert s[..|s| - 1] == h;
      s
  }

  /** A numeral of `n` has at most `k` digits exactly when `n < 16^k`. */
  lemma {:induction false} HexLength(n: nat, k: nat)
    requires k >= 1
    ensures |Hex(n)| <= k <==> n < Pow16(k)
    decreases n
  {
    if n >= 16 {
      if k == 1 {
        assert |Hex(n)| >= 2;
      } else {
        HexLength(n / 16, k - 1);
        assert n / 16 < Pow16(k - 1) <==> n < 16 * Pow16(k - 1);
      }
    } else {
      assert Pow16(k) >= 16;
    }
  }

  /** Leading zeros do not change the value of a numeral. */
  lemma {:induction false} ZerosValue(k: nat, s: string)
    requires AllDigits(s)
    ensures AllDigits(Zeros(k) + s) && Value(Zeros(k) + s) == Value(s)
    decreases |s|, k
  {
    var z := Zeros(k);
    if s == [] {
      assert z + s == z;
      if k > 0 {
        assert z[..k - 1] == Zeros(k - 1);
        ZerosValue(k - 1, []);
        assert Zeros(k - 1) + [] == Zeros(k - 1);
      }
    } else {
      var init := s[..|s| - 1];
      assert (z + s)[..|z + s| - 1] == z + init;
      ZerosValue(k, init);
    }
  }

  /**
   * `f'{n:04X}'`: the shortest numeral of `n` padded with '0' on the left to four digits.
   * It is made of upper-case digits, denotes `n`, has exactly max(4, |Hex(n)|) digits,
   * and starts with '0' only when the padding put it there.
   */
  function Format04X(n: nat): (s: string)
    ensures AllDigits(s) && Value(s) == n
    ensures |s| >= 4 && (|s| > 4 ==> s[0] != '0')
    ensures n < 0x1_0000 ==> |s| == 4
    ensures n >= 0x1000 ==> s == Hex(n)
    ensures n <= 0x10FFFF ==> |s| <= 6
  {
    var h := Hex(n);
    HexLength(n, 3);
    HexLength(n, 4);
    HexLength(n, 6);
    if |h| < 4 then
      ZerosValue(4 - |h|, h);
      Zeros(4 - |h|) + h
    else
      h
  }
}
