/**
 * The control client: the text encoding of a CAN frame, the two fixed
 * payload layouts, and the main loop that sends only when a sampled value
 * changes.
 */
module Client {
  import opened Hex
  import opened Frames

  /**
   * `createCANFrameString(can_id, data, dlc)`: the id in uppercase hex,
   * zero-padded to at least three digits, a `#`, then the first `dlc` bytes
   * of `data` as two uppercase digits each (none when dlc is not positive).
   * The caller must supply at least `dlc` bytes.
   */
  function Encode(id: u32, data: seq<byte>, dlc: int): string
    requires dlc <= |data|
  {
    FrameText(PadZero(ToHex(id as nat), 3), data[..if dlc < 0 then 0 else dlc])
  }

  /**
   * The layout of an encoded frame: at least three id digits denoting the id
   * (with no extra leading zero beyond the padding), exactly one `#`, and
   * after it exactly 2*dlc uppercase digits, pair i denoting byte i.
   */
  lemma EncodeFormat(id: u32, data: seq<byte>, dlc: int)
    requires dlc <= |data|
    ensures var r := Encode(id, data, dlc);
      var n := if dlc < 0 then 0 else dlc;
      var k := |r| - 1 - 2 * n;
      && 3 <= k < |r|
      && AllUpperHex(r[..k]) && Value(r[..k]) == id as nat
      && (k == 3 || r[0] != '0')
      && r[k] == '#'
      && (forall j :: 0 <= j < |r| ==> (r[j] == '#' <==> j == k))
      && |r[k + 1..]| == 2 * n && AllUpperHex(r[k + 1..])
      && forall i :: 0 <= i < n ==> Value(PairAt(r[k + 1..], i)) == data[i] as nat
  {
    var n := if dlc < 0 then 0 else dlc;
    var idText := PadZero(ToHex(id as nat), 3);
    PadZeroDigits(ToHex(id as nat), 3);
    var bytes := data[..n];
    FrameTextFormat(idText, bytes);
    assert forall i :: 0 <= i < n ==> bytes[i] == data[i];
  }

  /**
   * `createCANFrameString` as the source writes it: the padded id and `#`,
   * then the printing loop over the first dlc bytes of the caller's buffer.
   */
  method CreateCANFrameString(id: u32, data: array<byte>, dlc: int) returns (s: string)
    requires dlc <= data.Length
    ensures s == Encode(id, data[..], dlc)
  {
    var n := if dlc < 0 then 0 else dlc;
    s := AppendHexBytes(PadZero(ToHex(id as nat), 3) + "#", data[..n]);
    assert data[..][..n] == data[..n];
  }

  /** Every encoding contains the separator, so in particular it is never the empty message. */
  lemma EncodeHasSeparator(id: u32, data: seq<byte>, dlc: int)
    requires dlc <= |data|
    ensures '#' in Encode(id, data, dlc)
  {
    var idText := PadZero(ToHex(id as nat), 3);
    var r := Encode(id, data, dlc);
    assert r[|idText|] == '#';
  }

  /** Propulsion payload: byte 0 is the constant tag 0x01, byte 1 the power value, the rest zero. */
  function PropulsionPayload(power: byte): seq<byte> {
    [0x01, power, 0, 0, 0, 0, 0, 0]
  }

  /** Steering payload: byte 0 is the steering value, the rest zero. */
  function SteeringPayload(steering: byte): seq<byte> {
    [steering, 0, 0, 0, 0, 0, 0, 0]
  }

  /** `uint8_t propulsionData[8] = { 0 }` filled in place with the tag and the power byte. */
  method PropulsionData(power: byte) returns (a: array<byte>)
    ensures fresh(a) && a[..] == PropulsionPayload(power)
  {
    a := new byte[8](_ => 0);
    a[0] := 0x01;
    a[1] := power;
  }

  /** `uint8_t steeringData[8] = { 0 }` filled in place with the steering byte. */
  method SteeringData(steering: byte) returns (a: array<byte>)
    ensures fresh(a) && a[..] == SteeringPayload(steering)
  {
    a := new byte[8](_ => 0);
    a[0] := steering;
  }

  /** The two messages one update sends, propulsion first. */
  function UpdateMessages(steering: byte, power: byte): seq<string> {
    [Encode(PROPULSION_ID, PropulsionPayload(power), 8), Encode(STEERING_ID, SteeringPayload(steering), 8)]
  }

  /** The propulsion message is the fixed text around the power byte's two digits. */
  lemma PropulsionMessageText(power: byte)
    ensures Encode(PROPULSION_ID, PropulsionPayload(power), 8) == "4B3#01" + ByteHex(power) + "000000000000"
  {
    var p := PropulsionPayload(power);
    assert p[..8] == p;
    ToHexPropulsionId();
    PropulsionPayloadHex(power);
    var h, tail := ByteHex(power), "000000000000";
    assert "4B3" + "#" + ("01" + h + tail) == ("4B3" + "#" + "01") + h + tail;
    assert "4B3" + "#" + "01" == "4B3#01" by {
      var t := "4B3" + "#" + "01";
      assert |t| == 6 && t[0] == '4' && t[1] == 'B' && t[2] == '3' && t[3] == '#' && t[4] == '0' && t[5] == '1';
    }
  }

  /** The steering message is the steering byte's two digits followed by fourteen zeros. */
  lemma SteeringMessageText(steering: byte)
    ensures Encode(STEERING_ID, SteeringPayload(steering), 8) == "4B7#" + ByteHex(steering) + "00000000000000"
  {
    var p := SteeringPayload(steering);
    assert p[..8] == p;
    ToHexSteeringId();
    SteeringPayloadHex(steering);
    var h, tail := ByteHex(steering), "00000000000000";
    assert "4B7" + "#" + ([] + h + tail) == ("4B7" + "#" + []) + h + tail;
    assert "4B7" + "#" + [] == "4B7#";
  }

  lemma PropulsionPayloadHex(power: byte)
    ensures HexBytes(PropulsionPayload(power)) == "01" + ByteHex(power) + "000000000000"
  {
    var p := PropulsionPayload(power);
    assert p == [0x01, power] + NullBytes(6);
    HexBytesAppend([0x01, power], NullBytes(6));
    HexBytesNull(6);
    TagAndPowerHex(power);
    assert Zeros(12) == "000000000000";
  }

  lemma TagAndPowerHex(power: byte)
    ensures HexBytes([0x01, power]) == "01" + ByteHex(power)
  {
    assert [0x01, power][1..] == [power];
    assert HexBytes([power]) == ByteHex(power) + HexBytes([]);
    assert ByteHex(0x01) == "01";
  }

  lemma SteeringPayloadHex(steering: byte)
    ensures HexBytes(SteeringPayload(steering)) == [] + ByteHex(steering) + "00000000000000"
  {
    var p := SteeringPayload(steering);
    assert p == [steering] + NullBytes(7);
    HexBytesAppend([steering], NullBytes(7));
    HexBytesNull(7);
    assert HexBytes([steering]) == ByteHex(steering) + HexBytes([]);
    assert Zeros(14) == "00000000000000";
  }

  /** The concrete propulsion frame for power 0x32. */
  lemma PropulsionExample(power: byte)
    requires power == 0x32
    ensures Encode(PROPULSION_ID, PropulsionPayload(power), 8) == "4B3#0132000000000000"
  {
    PropulsionMessageText(power);
    ByteHexExample(power);
    PropulsionExampleText();
  }

  lemma ByteHexExample(b: byte)
    requires b == 0x32
    ensures ByteHex(b) == "32"
  {
    ByteHexDigits(b);
  }

  lemma PropulsionExampleText()
    ensures "4B3#01" + "32" + "000000000000" == "4B3#0132000000000000"
  {
  }

  /** The concrete steering frame for steering byte 0xFF. */
  lemma SteeringExample(steering: byte)
    requires steering == 0xFF
    ensures Encode(STEERING_ID, SteeringPayload(steering), 8) == "4B7#FF00000000000000"
  {
    SteeringMessageText(steering);
    ByteHexFull(steering);
    SteeringExampleText();
  }

  lemma ByteHexFull(b: byte)
    requires b == 0xFF
    ensures ByteHex(b) == "FF"
  {
    ByteHexDigits(b);
  }

  lemma SteeringExampleText()
    ensures "4B7#" + "FF" + "00000000000000" == "4B7#FF00000000000000"
  {
  }

  lemma ToHexPropulsionId()
    ensures PadZero(ToHex(PROPULSION_ID as nat), 3) == "4B3"
  {
    assert ToHex(0x4B) == ToHex(4) + [DigitChar(0xB)];
  }

  lemma ToHexSteeringId()
    ensures PadZero(ToHex(STEERING_ID as nat), 3) == "4B7"
  {
    assert ToHex(0x4B) == ToHex(4) + [DigitChar(0xB)];
  }

  lemma {:induction false} HexBytesNull(k: nat)
    ensures HexBytes(NullBytes(k)) == Zeros(2 * k)
  {
    if k > 0 {
      assert NullBytes(k)[1..] == NullBytes(k - 1);
      HexBytesNull(k - 1);
      assert ByteHex(0) == "00";
      assert Zeros(2 * k) == "00" + Zeros(2 * (k - 1));
    }
  }

  /** One joystick sample: the steering and power readings, compared only for equality. */
  datatype Sample<T> = Sample(steering: T, power: T)

  /**
   * One pass of the edge trigger: a send is attempted exactly when the sample
   * differs from the staged pair, and the sample is staged before the send.
   */
  function Step<T(==)>(staged: Sample<T>, sample: Sample<T>): (r: (Sample<T>, bool))
    ensures r.0 == sample
    ensures r.1 <==> sample != staged
  {
    if sample.steering != staged.steering || sample.power != staged.power then (sample, true)
    else (staged, false)
  }

  /**
   * The main loop over a run of joystick samples: the final staged pair and
   * every message attempted, in order. The float-to-byte conversions are the
   * parameters `steeringByte` and `powerByte`.
   */
  function Run<T(==)>(initial: Sample<T>, samples: seq<Sample<T>>,
                      steeringByte: T -> byte, powerByte: T -> byte): (r: (Sample<T>, seq<string>))
    ensures r.0 == if samples == [] then initial else samples[|samples| - 1]
  {
    if samples == [] then (initial, [])
    else
      var before := Run(initial, samples[..|samples| - 1], steeringByte, powerByte);
      var sample := samples[|samples| - 1];
      var (next, send) := Step(before.0, sample);
      (next, if send then before.1 + UpdateMessages(steeringByte(sample.steering), powerByte(sample.power))
             else before.1)
  }

  /** The sample a position is compared with: the one before it, or the initial staged pair. */
  function Previous<T>(initial: Sample<T>, samples: seq<Sample<T>>, i: nat): Sample<T>
    requires i < |samples|
  {
    if i == 0 then initial else samples[i - 1]
  }

  /** How many samples differ from the sample before them. */
  function Changes<T(==)>(initial: Sample<T>, samples: seq<Sample<T>>): nat {
    if samples == [] then 0
    else
      var n := |samples| - 1;
      Changes(initial, samples[..n]) + if samples[n] != Previous(initial, samples, n) then 1 else 0
  }

  /** Each change of the sampled values sends two messages, and nothing else sends any. */
  lemma {:induction false} RunSendsPerChange<T>(initial: Sample<T>, samples: seq<Sample<T>>,
                                                  steeringByte: T -> byte, powerByte: T -> byte)
    ensures |Run(initial, samples, steeringByte, powerByte).1| == 2 * Changes(initial, samples)
  {
    if samples != [] {
      var n := |samples| - 1;
      var front := samples[..n];
      RunSendsPerChange(initial, front, steeringByte, powerByte);
      var before := Run(initial, front, steeringByte, powerByte);
      var last := samples[n];
      assert Previous(initial, samples, n) == before.0;
      var update := UpdateMessages(steeringByte(last.steering), powerByte(last.power));
      assert |update| == 2;
      assert Run(initial, samples, steeringByte, powerByte).1 == if last != before.0 then before.1 + update else before.1;
    }
  }

  /** Every message the loop sends is an encoded frame, so none is empty. */
  lemma {:induction false} RunMessagesHaveSeparator<T>(initial: Sample<T>, samples: seq<Sample<T>>,
                                                         steeringByte: T -> byte, powerByte: T -> byte)
    ensures forall m :: m in Run(initial, samples, steeringByte, powerByte).1 ==> '#' in m
  {
    if samples != [] {
      var n := |samples| - 1;
      RunMessagesHaveSeparator(initial, samples[..n], steeringByte, powerByte);
      var last := samples[n];
      EncodeHasSeparator(PROPULSION_ID, PropulsionPayload(powerByte(last.power)), 8);
      EncodeHasSeparator(STEERING_ID, SteeringPayload(steeringByte(last.steering)), 8);
    }
  }

  /** A run of samples all equal to the staged pair sends nothing and changes nothing. */
  lemma {:induction false} UnchangedSendsNothing<T>(initial: Sample<T>, samples: seq<Sample<T>>,
                                                      steeringByte: T -> byte, powerByte: T -> byte)
    requires forall i :: 0 <= i < |samples| ==> samples[i] == initial
    ensures Run(initial, samples, steeringByte, powerByte) == (initial, [])
  {
    if samples != [] {
      UnchangedSendsNothing(initial, samples[..|samples| - 1], steeringByte, powerByte);
    }
  }

  /** One more sample extends the run by one edge-trigger step. */
  lemma RunExtend<T>(initial: Sample<T>, samples: seq<Sample<T>>, i: nat,
                         steeringByte: T -> byte, powerByte: T -> byte)
    requires i < |samples|
    ensures var before := Run(initial, samples[..i], steeringByte, powerByte);
      var sample := samples[i];
      Run(initial, samples[..i + 1], steeringByte, powerByte)
        == if sample != before.0
           then (sample, before.1 + UpdateMessages(steeringByte(sample.steering), powerByte(sample.power)))
           else before
  {
    assert samples[..i + 1][..i] == samples[..i];
  }

  /**
   * `main`'s polling loop, one iteration per sample taken while a joystick is
   * open: stage the sample and build both messages when either value changed.
   * Whether the send then succeeds does not affect the staged pair.
   */
  method ControlLoop<T(==)>(initial: Sample<T>, samples: seq<Sample<T>>,
                            steeringByte: T -> byte, powerByte: T -> byte)
    returns (staged: Sample<T>, sent: seq<string>)
    ensures (staged, sent) == Run(initial, samples, steeringByte, powerByte)
  {
    staged, sent := initial, [];
    var i := 0;
    while i < |samples|
      invariant 0 <= i <= |samples|
      invariant (staged, sent) == Run(initial, samples[..i], steeringByte, powerByte)
    {
      var sample := samples[i];
      RunExtend(initial, samples, i, steeringByte, powerByte);
      if sample.steering != staged.steering || sample.power != staged.power {
        staged := sample;
        var propulsionData := PropulsionData(powerByte(sample.power));
        var propulsionMsg := CreateCANFrameString(PROPULSION_ID, propulsionData, 8);
        var steeringData := SteeringData(steeringByte(sample.steering));
        var steeringMsg := CreateCANFrameString(STEERING_ID, steeringData, 8);
        sent := sent + [propulsionMsg, steeringMsg];
      }
      i := i + 1;
    }
    assert samples[..|samples|] == samples;
  }
}
