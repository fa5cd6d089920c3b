/**
 * Hexadecimal digits and numerals: what `std::hex << std::uppercase` prints
 * and what `strtoul(..., 16)` reads.
 */
module Hex {

  /** A digit `strtoul` accepts in base 16 (either case). */
  predicate IsHexDigit(c: char) {
    ('0' <= c <= '9') || ('A' <= c <= 'F') || ('a' <= c <= 'f')
  }

  /** A digit `std::uppercase` output can contain. */
  predicate IsUpperHexDigit(c: char) {
    ('0' <= c <= '9') || ('A' <= c <= 'F')
  }

  predicate AllHex(s: string) {
    forall i :: 0 <= i < |s| ==> IsHexDigit(s[i])
  }

  predicate AllUpperHex(s: string) {
    forall i :: 0 <= i < |s| ==> IsUpperHexDigit(s[i])
  }

  /** The value of a hex digit; only ever applied to characters satisfying IsHexDigit. */
  function DigitValue(c: char): (d: nat)
    ensures d < 16
  {
    if '0' <= c <= '9' then c as int - '0' as int
    else if 'A' <= c <= 'F' then c as int - 'A' as int + 10
    else if 'a' <= c <= 'f' then c as int - 'a' as int + 10
    else 0
  }

  /** The uppercase digit for d. */
  function DigitChar(d: nat): (c: char)
    requires d < 16
    ensures IsUpperHexDigit(c) && IsHexDigit(c) && DigitValue(c) == d
    ensures c == '0' <==> d == 0
  {
    if d < 10 then ('0' as int + d) as char else ('A' as int + d - 10) as char
  }

  /** The number a string of hex digits denotes, most significant digit first. */
  function Value(s: string): nat {
    if s == [] then 0 else Value(s[..|s| - 1]) * 16 + DigitValue(s[|s| - 1])
  }

  /**
   * `os << std::hex << std::uppercase << n`: the shortest uppercase numeral
   * for n (a single "0" for zero); it denotes n.
   */
  function ToHex(n: nat): (s: string)
    ensures 1 <= |s| && AllUpperHex(s) && AllHex(s)
    ensures Value(s) == n
    ensures |s| == 1 || s[0] != '0'
    ensures n < 0x100 ==> |s| <= 2
    ensures n >= 16 ==> |s| >= 2
    ensures n >= 0x100 ==> |s| >= 3
  {
    if n < 16 then [DigitChar(n)]
    else
      var t := ToHex(n / 16);
      var s := t + [DigitChar(n % 16)];
      assert s[..|s| - 1] == t;
      s
  }

  lemma UpperIsHex(s: string)
    requires AllUpperHex(s)
    ensures AllHex(s)
  {
  }

  function Zeros(k: nat): (z: string)
    ensures |z| == k && forall i :: 0 <= i < k ==> z[i] == '0'
  {
    seq(k, _ => '0')
  }

  /** `std::setw(width) << std::setfill('0')` on a numeral: pad on the left with '0', never truncate. */
  function PadZero(s: string, width: nat): string {
    if |s| < width then Zeros(width - |s|) + s else s
  }

  /** The two characters of a hex byte string that encode byte number i. */
  function PairAt(s: string, i: nat): string
    requires 2 * i + 2 <= |s|
  {
    s[2 * i..2 * i + 2]
  }

  /** A two-digit numeral is below 0x100. */
  lemma TwoDigitValue(s: string)
    requires |s| == 2
    ensures Value(s) == DigitValue(s[0]) * 16 + DigitValue(s[1])
    ensures Value(s) < 0x100
  {
    assert s[..1][..0] == [];
    assert Value(s[..1]) == DigitValue(s[0]);
  }

  /** Behind a leading pair, pair i of the whole is pair i - 1 of the rest. */
  lemma PairsAfterHead(head: string, rest: string)
    requires |head| == 2
    ensures PairAt(head + rest, 0) == head
    ensures forall i :: 1 <= i && 2 * i + 2 <= |head + rest| ==> PairAt(head + rest, i) == PairAt(rest, i - 1)
  {
    var r := head + rest;
    assert r[..2] == head;
    forall i | 1 <= i && 2 * i + 2 <= |r|
      ensures PairAt(r, i) == PairAt(rest, i - 1)
    {
      assert r[2 * i..2 * i + 2] == rest[2 * i - 2..2 * i];
    }
  }

  lemma PairAtPrefix(a: string, b: string, i: nat)
    requires 2 * i + 2 <= |a|
    ensures PairAt(a + b, i) == PairAt(a, i)
  {
  }

  lemma {:induction false} ValueZeros(k: nat)
    ensures Value(Zeros(k)) == 0
  {
    if k > 0 {
      assert Zeros(k)[..k - 1] == Zeros(k - 1);
      ValueZeros(k - 1);
    }
  }

  /** Leading zeros do not change the value of a numeral. */
  lemma {:induction false} ValueLeadingZeros(k: nat, s: string)
    ensures Value(Zeros(k) + s) == Value(s)
    decreases |s|
  {
    if s == [] {
      assert Zeros(k) + s == Zeros(k);
      ValueZeros(k);
    } else {
      var z := Zeros(k) + s;
      assert z[..|z| - 1] == Zeros(k) + s[..|s| - 1];
      ValueLeadingZeros(k, s[..|s| - 1]);
    }
  }

  /** Zero padding keeps the digits and the value, and reaches the requested width. */
  lemma PadZeroDigits(s: string, width: nat)
    requires AllUpperHex(s)
    ensures var r := PadZero(s, width);
      && |r| == (if |s| < width then width else |s|)
      && AllUpperHex(r) && AllHex(r)
      && Value(r) == Value(s)
      && (|s| < width ==> r[0] == '0')
      && (|s| >= width ==> r == s)
  {
    if |s| < width {
      ValueLeadingZeros(width - |s|, s);
    }
  }
}
