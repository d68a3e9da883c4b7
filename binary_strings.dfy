/**
  The two bit-string helpers of the steganography app: `numberToBinary`
  (Python's `bin(n)[2:].zfill(8)`) and `binaryToNumber` (Python's
  `int(s, 2)`), with the arithmetic facts the codec relies on.
  Digit strings are most-significant digit first, as Python prints them.
 */
module BinaryStrings {

  /** 2 to the power k. */
  function Pow2(k: nat): (p: nat)
    ensures p >= 1
  {
    if k == 0 then 1 else 2 * Pow2(k - 1)
  }

  /** Bit k of n, bit 0 being the least significant. */
  function Bit(n: nat, k: nat): (b: nat)
    ensures b < 2
  {
    if k == 0 then n % 2 else Bit(n / 2, k - 1)
  }

  predicate IsDigit(c: char) {
    c == '0' || c == '1'
  }

  predicate IsDigits(s: string) {
    forall i :: 0 <= i < |s| ==> IsDigit(s[i])
  }

  /** The bit value of a digit character (any other character counts as 0). */
  function DigitValue(c: char): (b: nat)
    ensures b < 2
  {
    if c == '1' then 1 else 0
  }

  /** The character that prints bit value b. */
  function Digit(b: nat): (c: char)
    requires b < 2
    ensures IsDigit(c) && DigitValue(c) == b
  {
    if b == 0 then '0' else '1'
  }

  /** The value of the first n digits of s, read as a base-2 numeral. */
  function PrefixValue(s: string, n: nat): (v: nat)
    requires n <= |s|
    ensures v < Pow2(n)
  {
    if n == 0 then 0 else 2 * PrefixValue(s, n - 1) + DigitValue(s[n - 1])
  }

  /** Python's `bin(n)` without its "0b" prefix: the shortest digit string of n. */
  function Bin(n: nat): (s: string)
    ensures 1 <= |s| && IsDigits(s)
    ensures n < Pow2(|s|)
  {
    if n < 2 then [Digit(n)] else Bin(n / 2) + [Digit(n % 2)]
  }

  /** A string of n zero digits. */
  function Zeros(n: nat): (z: string)
    ensures |z| == n && forall i :: 0 <= i < n ==> z[i] == '0'
  {
    if n == 0 then [] else Zeros(n - 1) + ['0']
  }

  /** Python's `str.zfill(width)` on an unsigned digit string. */
  function ZFill(s: string, width: nat): (r: string)
    ensures |r| == if |s| < width then width else |s|
    ensures r[|r| - |s|..] == s
    ensures forall i :: 0 <= i < |r| - |s| ==> r[i] == '0'
  {
    if |s| < width then Zeros(width - |s|) + s else s
  }

  /** `numberToBinary(num)`: bin(num)[2:] padded with zeros to at least 8 digits. */
  function NumberToBinary(num: nat): (s: string)
    ensures 8 <= |s| && IsDigits(s)
  {
    ZFill(Bin(num), 8)
  }

  /** `binaryToNumber(s)`: int(s, 2), on the non-empty digit strings the codec passes it. */
  function BinaryToNumber(s: string): (n: nat)
    requires 1 <= |s| && IsDigits(s)
    ensures n < Pow2(|s|)
  {
    PrefixValue(s, |s|)
  }

  // ---------- Facts about the digit strings ----------

  /** Strings that agree on their first n digits have the same n-digit value. */
  lemma {:induction false} PrefixValueAgree(s: string, t: string, n: nat)
    requires n <= |s| && n <= |t|
    requires forall i :: 0 <= i < n ==> s[i] == t[i]
    ensures PrefixValue(s, n) == PrefixValue(t, n)
  {
    if n > 0 {
      PrefixValueAgree(s, t, n - 1);
    }
  }

  /** Appending one digit doubles the value and adds the digit. */
  lemma ValueSnoc(s: string, c: char)
    ensures PrefixValue(s + [c], |s| + 1) == 2 * PrefixValue(s, |s|) + DigitValue(c)
  {
    PrefixValueAgree(s + [c], s, |s|);
  }

  /** Eight doubling steps, as plain arithmetic. */
  lemma ShiftEight(w1: int, w2: int, w3: int, w4: int, w5: int, w6: int, w7: int, w8: int,
                   v0: int, v1: int, v2: int, v3: int, v4: int, v5: int, v6: int, v7: int)
    requires w1 == v0 && w2 == 2 * w1 + v1 && w3 == 2 * w2 + v2 && w4 == 2 * w3 + v3
    requires w5 == 2 * w4 + v4 && w6 == 2 * w5 + v5 && w7 == 2 * w6 + v6 && w8 == 2 * w7 + v7
    ensures w8 == 128 * v0 + 64 * v1 + 32 * v2 + 16 * v3 + 8 * v4 + 4 * v5 + 2 * v6 + v7
  {
  }

  /** The value of an 8-digit string, digit by digit. */
  lemma ValueOfEight(s: string)
    requires |s| == 8
    ensures PrefixValue(s, 8) == 128 * DigitValue(s[0]) + 64 * DigitValue(s[1]) + 32 * DigitValue(s[2])
                               + 16 * DigitValue(s[3]) + 8 * DigitValue(s[4]) + 4 * DigitValue(s[5])
                               + 2 * DigitValue(s[6]) + DigitValue(s[7])
  {
    ShiftEight(PrefixValue(s, 1), PrefixValue(s, 2), PrefixValue(s, 3), PrefixValue(s, 4),
               PrefixValue(s, 5), PrefixValue(s, 6), PrefixValue(s, 7), PrefixValue(s, 8),
               DigitValue(s[0]), DigitValue(s[1]), DigitValue(s[2]), DigitValue(s[3]),
               DigitValue(s[4]), DigitValue(s[5]), DigitValue(s[6]), DigitValue(s[7]));
  }

  lemma {:induction false} ZerosValue(s: string, n: nat)
    requires n <= |s|
    requires forall i :: 0 <= i < n ==> s[i] == '0'
    ensures PrefixValue(s, n) == 0
  {
    if n > 0 {
      ZerosValue(s, n - 1);
    }
  }

  /** Zeros in front of a digit string do not change its value. */
  lemma {:induction false} ZeroPaddedValue(z: string, s: string, n: nat)
    requires forall i :: 0 <= i < |z| ==> z[i] == '0'
    requires n <= |s|
    ensures PrefixValue(z + s, |z| + n) == PrefixValue(s, n)
  {
    if n == 0 {
      ZerosValue(z + s, |z|);
    } else {
      ZeroPaddedValue(z, s, n - 1);
      assert (z + s)[|z| + n - 1] == s[n - 1];
    }
  }

  lemma {:induction false} ValueOfBin(n: nat)
    ensures PrefixValue(Bin(n), |Bin(n)|) == n
  {
    if n >= 2 {
      ValueOfBin(n / 2);
      ValueSnoc(Bin(n / 2), Digit(n % 2));
    }
  }

  /** Bits at or above position m of a number below 2^m are zero. */
  lemma {:induction false} BitAboveIsZero(n: nat, m: nat, k: nat)
    requires n < Pow2(m) && m <= k
    ensures Bit(n, k) == 0
  {
    if k > 0 {
      BitAboveIsZero(n / 2, if m == 0 then 0 else m - 1, k - 1);
    }
  }

  /** The digit of Bin(n) that sits k places from the right is bit k of n. */
  lemma {:induction false} BinDigits(n: nat, k: nat)
    requires k < |Bin(n)|
    ensures Bin(n)[|Bin(n)| - 1 - k] == Digit(Bit(n, k))
  {
    if n >= 2 && k > 0 {
      BinDigits(n / 2, k - 1);
    }
  }

  /** bin(n) has at most m digits when n < 2^m (and m >= 1). */
  lemma {:induction false} BinLength(n: nat, m: nat)
    requires 1 <= m && n < Pow2(m)
    ensures |Bin(n)| <= m
  {
    if n >= 2 {
      BinLength(n / 2, m - 1);
    }
  }

  /** Digit j of numberToBinary(n) is bit (length - 1 - j) of n: bin(n) with zeros in front. */
  lemma NumberToBinaryDigit(n: nat, j: nat)
    requires j < |NumberToBinary(n)|
    ensures NumberToBinary(n)[j] == Digit(Bit(n, |NumberToBinary(n)| - 1 - j))
  {
    var b := Bin(n);
    var s := NumberToBinary(n);
    var pad := |s| - |b|;
    var k := |s| - 1 - j;
    if j < pad {
      assert s[j] == '0';
      assert Bit(n, k) == 0 by {
        BitAboveIsZero(n, |b|, k);
      }
    } else {
      assert s[j] == b[j - pad] by {
        assert s[pad..] == b;
      }
      assert b[j - pad] == Digit(Bit(n, k)) by {
        BinDigits(n, k);
        assert |b| - 1 - k == j - pad;
      }
    }
  }

  /**
    numberToBinary(n) has max(8, |bin(n)|) digits and digit j is bit (length - 1 - j)
    of n.
   */
  lemma NumberToBinaryDigits(n: nat)
    ensures |NumberToBinary(n)| == if |Bin(n)| < 8 then 8 else |Bin(n)|
    ensures forall j :: 0 <= j < |NumberToBinary(n)| ==>
              NumberToBinary(n)[j] == Digit(Bit(n, |NumberToBinary(n)| - 1 - j))
  {
    forall j | 0 <= j < |NumberToBinary(n)|
      ensures NumberToBinary(n)[j] == Digit(Bit(n, |NumberToBinary(n)| - 1 - j))
    {
      NumberToBinaryDigit(n, j);
    }
  }

  /**
    For a byte, numberToBinary gives exactly 8 digits, and digit j is bit 7 - j:
    the most significant bit comes first.
   */
  lemma NumberToBinaryByte(n: nat)
    requires n < 256
    ensures |NumberToBinary(n)| == 8
    ensures forall j :: 0 <= j < 8 ==> NumberToBinary(n)[j] == Digit(Bit(n, 7 - j))
  {
    assert |NumberToBinary(n)| == 8 by {
      assert Pow2(8) == 256;
      BinLength(n, 8);
    }
    forall j | 0 <= j < 8
      ensures NumberToBinary(n)[j] == Digit(Bit(n, 7 - j))
    {
      NumberToBinaryDigit(n, j);
    }
  }

  /** binaryToNumber(numberToBinary(n)) == n, for every natural number n. */
  lemma BinaryRoundTrip(n: nat)
    ensures BinaryToNumber(NumberToBinary(n)) == n
  {
    var b := Bin(n);
    var s := NumberToBinary(n);
    var zeros := s[..|s| - |b|];
    assert s == zeros + b;
    ZeroPaddedValue(zeros, b, |b|);
    ValueOfBin(n);
  }

  /**
    Replacing the last digit of an 8-digit string by d keeps the top seven
    bits of its value and makes d the least significant bit:
    binaryToNumber(b[:7] + d) == binaryToNumber(b) // 2 * 2 + d.
   */
  lemma LastDigitReplaced(b: string, d: char)
    requires |b| == 8 && IsDigits(b) && IsDigit(d)
    ensures IsDigits(b[..7] + [d])
    ensures BinaryToNumber(b[..7] + [d]) == BinaryToNumber(b) / 2 * 2 + DigitValue(d)
  {
    var t := b[..7] + [d];
    PrefixValueAgree(b, t, 7);
    assert BinaryToNumber(b) == 2 * PrefixValue(b, 7) + DigitValue(b[7]);
  }
}
