/**
 * `std::stoul(text, nullptr, 16)` as the server uses it. `stoul` hands the
 * text to the C library's `strtoul` and throws when no digit was converted
 * (`std::invalid_argument`) or the value does not fit (`std::out_of_range`);
 * both throws become None here.
 */
module CLib {
  import opened Options
  import opened Hex

  /** `unsigned long` is 32 bits wide with the Microsoft C runtime the server is built for. */
  const ULONG_LIMIT: nat := 0x1_0000_0000

  /** `isspace` in the "C" locale: space, tab, newline, vertical tab, form feed, carriage return. */
  predicate IsSpace(c: char) {
    c == ' ' || ('\t' <= c <= '\r')
  }

  /** What is left after the leading white space that `strtoul` skips. */
  function SkipSpace(s: string): string {
    if s != [] && IsSpace(s[0]) then SkipSpace(s[1..]) else s
  }

  /** What SkipSpace leaves is a suffix that does not start with white space, and only white space precedes it. */
  lemma {:induction false} SkipSpaceSuffix(s: string)
    ensures var r := SkipSpace(s);
      && |r| <= |s| && r == s[|s| - |r|..]
      && (r == [] || !IsSpace(r[0]))
      && (forall i :: 0 <= i < |s| - |r| ==> IsSpace(s[i]))
  {
    if s != [] && IsSpace(s[0]) {
      SkipSpaceSuffix(s[1..]);
      var r := SkipSpace(s[1..]);
      assert forall i :: 1 <= i < |s| - |r| ==> s[i] == s[1..][i - 1];
    }
  }

  /** The length of the longest leading run of hex digits. */
  function HexRunLength(s: string): (k: nat)
    ensures k <= |s|
  {
    if s != [] && IsHexDigit(s[0]) then 1 + HexRunLength(s[1..]) else 0
  }

  /** The value of the longest leading run of hex digits; None when s does not start with a digit. */
  function HexPrefix(s: string): Option<nat> {
    var k := HexRunLength(s);
    if k == 0 then None else Some(Value(s[..k]))
  }

  /**
   * `strtoul(s, &end, 16)` followed by the checks of `std::stoul`: skip white
   * space, take an optional sign, then read the magnitude; trailing text is
   * ignored. A minus sign negates the value modulo 2^32 (0 stays 0, any
   * other v becomes 2^32 - v).
   */
  function ParseUnsignedLong(s: string): (r: Option<nat>)
    ensures r.Some? ==> r.value < ULONG_LIMIT
  {
    ParseSigned(SkipSpace(s))
  }

  function ParseSigned(t: string): (r: Option<nat>)
    ensures r.Some? ==> r.value < ULONG_LIMIT
  {
    if t != [] && t[0] == '-' then
      match ParseMagnitude(t[1..])
      case None => None
      case Some(v) => Some(if v == 0 then 0 else ULONG_LIMIT - v)
    else if t != [] && t[0] == '+' then ParseMagnitude(t[1..])
    else ParseMagnitude(t)
  }

  /** The "0x"/"0X" prefix is skipped only when a hex digit follows it. */
  function StripPrefix(u: string): string {
    if |u| >= 3 && u[0] == '0' && (u[1] == 'x' || u[1] == 'X') && IsHexDigit(u[2]) then u[2..] else u
  }

  /** The longest run of hex digits after the optional prefix; a value of 2^32 or more is out of range. */
  function ParseMagnitude(u: string): (r: Option<nat>)
    ensures r.Some? ==> r.value < ULONG_LIMIT
  {
    match HexPrefix(StripPrefix(u))
    case None => None
    case Some(v) => if v >= ULONG_LIMIT then None else Some(v)
  }

  /** The run length is the position of the first non-digit. */
  lemma {:induction false} HexRunLengthAt(s: string, j: nat)
    requires j <= |s| && AllHex(s[..j])
    requires j == |s| || !IsHexDigit(s[j])
    ensures HexRunLength(s) == j
  {
    if j > 0 {
      assert s[..j][0] == s[0];
      assert s[1..][..j - 1] == s[..j][1..];
      HexRunLengthAt(s[1..], j - 1);
    }
  }

  /** The leading run of digits is exactly the digits before the first non-digit. */
  lemma HexPrefixOfDigits(d: string, rest: string)
    requires d != [] && AllHex(d)
    requires rest == [] || !IsHexDigit(rest[0])
    ensures HexPrefix(d + rest) == Some(Value(d))
  {
    var s := d + rest;
    assert s[..|d|] == d;
    HexRunLengthAt(s, |d|);
  }

  /** A string without a leading hex digit yields None. */
  lemma HexPrefixNone(s: string)
    ensures HexPrefix(s).None? <==> (s == [] || !IsHexDigit(s[0]))
  {
    if s != [] && IsHexDigit(s[0]) {
      assert s[..HexRunLength(s)][0] == s[0];
    }
  }

  /** A string made only of hex digits parses to its value when that fits in 32 bits. */
  lemma ParseAllDigits(d: string)
    requires d != [] && AllHex(d)
    ensures ParseUnsignedLong(d) == if Value(d) < ULONG_LIMIT then Some(Value(d)) else None
  {
    ParseDigits(d, []);
    assert d + [] == d;
  }

  /**
   * A numeral of hex digits, followed by anything that neither continues it
   * nor turns a leading "0" into a "0x" prefix, parses to its value when
   * that value fits in 32 bits, and fails otherwise.
   */
  lemma ParseDigits(d: string, rest: string)
    requires d != [] && AllHex(d)
    requires rest == [] || (!IsHexDigit(rest[0]) && (d == "0" ==> rest[0] != 'x' && rest[0] != 'X'))
    ensures ParseUnsignedLong(d + rest) == if Value(d) < ULONG_LIMIT then Some(Value(d)) else None
  {
    var s := d + rest;
    assert s[0] == d[0];
    ParseUnsigned(s);
    MagnitudeOfDigits(d, rest);
  }

  /** Text that starts with neither white space nor a sign is read as a magnitude. */
  lemma ParseUnsigned(s: string)
    requires s == [] || (!IsSpace(s[0]) && s[0] != '-' && s[0] != '+')
    ensures ParseUnsignedLong(s) == ParseMagnitude(s)
  {
    SkipSpaceOf([], s);
    assert [] + s == s;
  }

  /** Digits not followed by a digit or an `x` are read as they stand. */
  lemma MagnitudeOfDigits(d: string, rest: string)
    requires d != [] && AllHex(d)
    requires rest == [] || (!IsHexDigit(rest[0]) && (d == "0" ==> rest[0] != 'x' && rest[0] != 'X'))
    ensures ParseMagnitude(d + rest) == if Value(d) < ULONG_LIMIT then Some(Value(d)) else None
  {
    var s := d + rest;
    assert s[0] == d[0];
    if |s| >= 3 && s[0] == '0' {
      assert s[1] == if |d| > 1 then d[1] else rest[0];
      assert |d| == 1 ==> d == "0";
    }
    assert StripPrefix(s) == s;
    HexPrefixOfDigits(d, rest);
  }

  /** A text without any hex digit (in particular the empty text) makes `stoul` throw. */
  lemma ParseNeedsDigit(s: string)
    requires forall i :: 0 <= i < |s| ==> !IsHexDigit(s[i])
    ensures ParseUnsignedLong(s).None?
  {
    var t := SkipSpace(s);
    SkipSpaceSuffix(s);
    assert forall i :: 0 <= i < |t| ==> t[i] == s[|s| - |t| + i];
    if t != [] && (t[0] == '-' || t[0] == '+') {
      assert forall i :: 0 <= i < |t| - 1 ==> t[1..][i] == t[i + 1];
      MagnitudeNeedsDigit(t[1..]);
    } else {
      MagnitudeNeedsDigit(t);
    }
  }

  /** A text that starts with neither white space, a sign nor a hex digit makes `stoul` fail, whatever follows. */
  lemma ParseNoLeadingDigit(s: string)
    requires s == [] || (!IsSpace(s[0]) && s[0] != '+' && s[0] != '-' && !IsHexDigit(s[0]))
    ensures ParseUnsignedLong(s).None?
  {
    ParseUnsigned(s);
    assert StripPrefix(s) == s;
    HexPrefixNone(s);
  }

  lemma MagnitudeNeedsDigit(u: string)
    requires forall i :: 0 <= i < |u| ==> !IsHexDigit(u[i])
    ensures ParseMagnitude(u).None?
  {
    assert StripPrefix(u) == u;
    HexPrefixNone(u);
  }

  /** Worked examples of the rules above. */
  lemma ParsePlainDigits()
    ensures ParseUnsignedLong("4B7") == Some(0x4B7)
  {
    assert Value("4B7") == 0x4B7 by {
      assert "4B7"[..2] == "4B" && "4B"[..1] == "4";
    }
    ParseDigits("4B7", "");
    assert "4B7" + "" == "4B7";
  }

  /** Leading white space is skipped whatever follows it. */
  lemma {:induction false} SkipSpaceOf(ws: string, t: string)
    requires forall i :: 0 <= i < |ws| ==> IsSpace(ws[i])
    requires t == [] || !IsSpace(t[0])
    ensures SkipSpace(ws + t) == t
  {
    if ws == [] {
      assert ws + t == t;
    } else {
      var s := ws + t;
      assert s[0] == ws[0];
      assert s[1..] == ws[1..] + t;
      SkipSpaceOf(ws[1..], t);
    }
  }

  /** White space and a plus sign in front of a numeral change nothing. */
  lemma ParseSpaceAndPlus(ws: string, d: string, rest: string)
    requires forall i :: 0 <= i < |ws| ==> IsSpace(ws[i])
    requires d != [] && AllHex(d)
    requires rest == [] || (!IsHexDigit(rest[0]) && (d == "0" ==> rest[0] != 'x' && rest[0] != 'X'))
    ensures ParseUnsignedLong(ws + ['+'] + d + rest) == ParseUnsignedLong(d + rest)
  {
    var u := d + rest;
    assert ws + ['+'] + d + rest == ws + (['+'] + u);
    SkipSpaceOf(ws, ['+'] + u);
    PlusSign(u);
    assert u[0] == d[0];
    ParseUnsigned(u);
  }

  lemma PlusSign(u: string)
    ensures ParseSigned(['+'] + u) == ParseMagnitude(u)
  {
    assert (['+'] + u)[1..] == u;
  }

  /** A minus sign negates the magnitude modulo 2^32, so "-1" reads as 0xFFFFFFFF. */
  lemma ParseNegated(d: string, rest: string)
    requires d != [] && AllHex(d)
    requires rest == [] || (!IsHexDigit(rest[0]) && (d == "0" ==> rest[0] != 'x' && rest[0] != 'X'))
    ensures ParseUnsignedLong(['-'] + d + rest)
      == if Value(d) >= ULONG_LIMIT then None
         else if Value(d) == 0 then Some(0)
         else Some(ULONG_LIMIT - Value(d))
  {
    var u := d + rest;
    assert ['-'] + d + rest == ['-'] + u;
    MinusSign(u);
    MagnitudeOfDigits(d, rest);
  }

  lemma MinusSign(u: string)
    ensures ParseUnsignedLong(['-'] + u)
      == match ParseMagnitude(u)
         case None => None
         case Some(v) => Some(if v == 0 then 0 else ULONG_LIMIT - v)
  {
    var t := ['-'] + u;
    assert t[1..] == u;
    SkipSpaceOf([], t);
    assert [] + t == t;
  }

  /** After "0x" or "0X" the digits that follow are the numeral. */
  lemma ParseHexPrefix(x: char, d: string, rest: string)
    requires x == 'x' || x == 'X'
    requires d != [] && AllHex(d)
    requires rest == [] || !IsHexDigit(rest[0])
    ensures ParseUnsignedLong(['0', x] + d + rest) == if Value(d) < ULONG_LIMIT then Some(Value(d)) else None
  {
    var u := d + rest;
    var s := ['0', x] + u;
    assert s[2..] == u;
    assert ['0', x] + d + rest == s;
    ParseUnsigned(s);
    assert s[2] == d[0];
    assert StripPrefix(s) == u;
    HexPrefixOfDigits(d, rest);
  }

  /** "0x" with no hex digit after it is the numeral 0 followed by junk. */
  lemma ParseBarePrefix(x: char, rest: string)
    requires x == 'x' || x == 'X'
    requires rest == [] || !IsHexDigit(rest[0])
    ensures ParseUnsignedLong(['0', x] + rest) == Some(0)
  {
    var s := ['0', x] + rest;
    ParseUnsigned(s);
    assert s == ['0'] + ([x] + rest);
    assert StripPrefix(s) == s;
    HexPrefixOfDigits(['0'], [x] + rest);
    assert Value(['0']) == 0 by {
      assert ['0'][..0] == [];
    }
  }

  lemma ParseOutOfRange()
    ensures ParseUnsignedLong("100000000") == None
  {
    var s := "100000000";
    assert Value(s) == 0x1_0000_0000 by {
      assert s == "1" + Zeros(8);
      ValueOneZeros(8);
    }
    ParseDigits(s, "");
    assert s + "" == s;
  }

  /** A one followed by k zeros denotes 16^k. */
  lemma {:induction false} ValueOneZeros(k: nat)
    ensures Value("1" + Zeros(k)) == Pow16(k)
  {
    if k > 0 {
      var z := "1" + Zeros(k);
      assert z[..|z| - 1] == "1" + Zeros(k - 1);
      assert z[|z| - 1] == '0';
      ValueOneZeros(k - 1);
    } else {
      assert "1" + Zeros(0) == "1";
      assert "1"[..0] == [];
    }
  }

  function Pow16(k: nat): nat {
    if k == 0 then 1 else 16 * Pow16(k - 1)
  }
}
