/** The CAN frame both programs exchange, and the hex text of its payload bytes. */
module Frames {
  import opened Hex

  /** `uint8_t` */
  newtype byte = x: int | 0 <= x < 0x100

  /** `uint32_t` */
  newtype u32 = x: int | 0 <= x < 0x1_0000_0000

  /** A classic CAN frame carries at most 8 payload bytes. */
  const MAX_DLC: nat := 8

  /** The two identifiers the deployment recognises. */
  const STEERING_ID: u32 := 0x4B7
  const PROPULSION_ID: u32 := 0x4B3

  /**
   * `struct can_frame`: the data length code is the length of `data`; only the
   * first `can_dlc` bytes of the C array are ever read, so the rest is not kept.
   */
  datatype Frame = Frame(id: u32, data: seq<byte>) {
    function Dlc(): nat { |data| }
    predicate Valid() { |data| <= MAX_DLC }
  }

  function Min(a: nat, b: nat): nat { if a < b then a else b }

  /** k zero bytes, as `uint8_t data[8] = { 0 }` holds before it is filled. */
  function NullBytes(k: nat): seq<byte> {
    seq(k, _ => 0)
  }

  /** One byte as `std::setw(2) << std::setfill('0') << (int)b` in uppercase hex. */
  function ByteHex(b: byte): (r: string)
    ensures |r| == 2 && AllUpperHex(r) && AllHex(r) && Value(r) == b as nat
  {
    PadZeroDigits(ToHex(b as nat), 2);
    PadZero(ToHex(b as nat), 2)
  }

  /** The two digits of a byte: its high nibble, then its low nibble. */
  lemma ByteHexDigits(b: byte)
    ensures ByteHex(b) == [DigitChar(b as nat / 16), DigitChar(b as nat % 16)]
  {
    var n := b as nat;
    if n < 16 {
      assert n / 16 == 0 && n % 16 == n;
      assert Zeros(1) == ['0'];
    } else {
      assert ToHex(n) == ToHex(n / 16) + [DigitChar(n % 16)];
    }
  }

  /** The bytes in order, two uppercase digits each. */
  function HexBytes(data: seq<byte>): (r: string)
    ensures |r| == 2 * |data| && AllUpperHex(r)
  {
    if data == [] then [] else ByteHex(data[0]) + HexBytes(data[1..])
  }

  /** Pair i of the hex text denotes byte i. */
  lemma {:induction false} HexBytesPairs(data: seq<byte>)
    ensures forall i :: 0 <= i < |data| ==> Value(PairAt(HexBytes(data), i)) == data[i] as nat
  {
    if data != [] {
      HexBytesPairs(data[1..]);
      PairsAfterHead(ByteHex(data[0]), HexBytes(data[1..]));
      forall i | 1 <= i < |data|
        ensures Value(PairAt(HexBytes(data), i)) == data[i] as nat
      {
        assert data[i] == data[1..][i - 1];
      }
    }
  }

  /** Printing a concatenation prints the parts one after the other. */
  lemma {:induction false} HexBytesAppend(a: seq<byte>, b: seq<byte>)
    ensures HexBytes(a + b) == HexBytes(a) + HexBytes(b)
  {
    if a == [] {
      assert a + b == b;
    } else {
      var ab := a + b;
      assert ab[0] == a[0];
      assert ab[1..] == a[1..] + b;
      var head, front, back := ByteHex(a[0]), HexBytes(a[1..]), HexBytes(b);
      calc {
        HexBytes(ab);
        head + HexBytes(a[1..] + b);
        { HexBytesAppend(a[1..], b); }
        head + (front + back);
        (head + front) + back;
        HexBytes(a) + back;
      }
    }
  }

  /** One more byte appends its two digits: the step of every loop that prints bytes. */
  lemma HexBytesSnoc(data: seq<byte>, i: nat)
    requires i < |data|
    ensures HexBytes(data[..i + 1]) == HexBytes(data[..i]) + ByteHex(data[i])
  {
    assert data[..i + 1] == data[..i] + [data[i]];
    HexBytesAppend(data[..i], [data[i]]);
    assert HexBytes([data[i]]) == ByteHex(data[i]) + HexBytes([]);
  }

  /** The printing loop both programs share: append each byte's two digits to the text built so far. */
  method AppendHexBytes(prefix: string, data: seq<byte>) returns (s: string)
    ensures s == prefix + HexBytes(data)
  {
    s := prefix;
    var i := 0;
    while i < |data|
      invariant 0 <= i <= |data|
      invariant s == prefix + HexBytes(data[..i])
    {
      HexBytesSnoc(data, i);
      s := s + ByteHex(data[i]);
      i := i + 1;
    }
    assert data[..i] == data;
  }

  /** An id numeral, the separator, then the payload bytes: the text shape both programs write. */
  function FrameText(idText: string, data: seq<byte>): string {
    idText + "#" + HexBytes(data)
  }

  /** The separator stands right after the id numeral, and is the only one. */
  lemma FrameTextShape(idText: string, data: seq<byte>)
    requires AllUpperHex(idText)
    ensures var t := FrameText(idText, data);
      && |t| == |idText| + 1 + 2 * |data|
      && t[..|idText|] == idText
      && t[|idText|] == '#'
      && t[|idText| + 1..] == HexBytes(data)
      && forall j :: 0 <= j < |t| ==> (t[j] == '#' <==> j == |idText|)
  {
    SeparatorShape(idText, HexBytes(data));
  }

  /** The same shape, with the payload digits read back pair by pair. */
  lemma FrameTextFormat(idText: string, data: seq<byte>)
    requires AllUpperHex(idText)
    ensures var t := FrameText(idText, data);
      var k := |idText|;
      && |t| == k + 1 + 2 * |data|
      && t[..k] == idText
      && t[k] == '#'
      && (forall j :: 0 <= j < |t| ==> (t[j] == '#' <==> j == k))
      && |t[k + 1..]| == 2 * |data| && AllUpperHex(t[k + 1..])
      && forall i :: 0 <= i < |data| ==> Value(PairAt(t[k + 1..], i)) == data[i] as nat
  {
    FrameTextShape(idText, data);
    HexBytesPairs(data);
  }

  lemma SeparatorShape(a: string, b: string)
    requires AllUpperHex(a) && AllUpperHex(b)
    ensures var t := a + "#" + b;
      && t[..|a|] == a
      && t[|a|] == '#'
      && t[|a| + 1..] == b
      && forall j :: 0 <= j < |t| ==> (t[j] == '#' <==> j == |a|)
  {
    var t := a + "#" + b;
    assert t[|a| + 1..] == b;
    forall j | 0 <= j < |t| ensures t[j] == '#' <==> j == |a| {
      if j < |a| {
        assert t[j] == a[j];
      } else if j > |a| {
        assert t[j] == b[j - |a| - 1];
      }
    }
  }
}
