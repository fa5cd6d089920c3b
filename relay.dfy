/**
 * The two programs together: what the server's decoder makes of the
 * client's and its own text, and what the cache and the forwarder hold
 * after the client's messages arrive.
 */
module Relay {
  import opened Options
  import opened Hex
  import opened CLib
  import opened Frames
  import opened Client
  import opened Server

  /** Two hex digits are read back by the byte parser as the byte they denote. */
  lemma ParseBytePair(pair: string)
    requires |pair| == 2 && AllHex(pair)
    ensures Value(pair) < 0x100
    ensures ParseByte(pair) == Some(Value(pair) as byte)
  {
    TwoDigitValue(pair);
    ParseAllDigits(pair);
    ParseByteOfSmall(pair, Value(pair));
  }

  /**
   * An uppercase id numeral that fits in 32 bits, `#`, the hex bytes, and at
   * most one stray character (or anything at all after eight or more bytes)
   * decodes to that id and the first min(|data|, 8) bytes.
   */
  lemma DecodeFrameText(idText: string, data: seq<byte>, tail: string)
    requires idText != [] && AllUpperHex(idText) && Value(idText) < ULONG_LIMIT
    requires |tail| < 2 || |data| >= MAX_DLC
    ensures Decode(FrameText(idText, data) + tail) == Some(Frame(Value(idText) as u32, data[..Min(|data|, MAX_DLC)]))
  {
    var h := HexBytes(data);
    assert FrameText(idText, data) + tail == idText + "#" + (h + tail);
    UpperIsHex(idText);
    ParseAllDigits(idText);
    var bytes := data[..Min(|data|, MAX_DLC)];
    PayloadPairs(data, tail, bytes);
    DecodeParsed(idText, h + tail, Value(idText), bytes);
  }

  /** The hex bytes followed by a short tail (or any tail after eight bytes) yield the first dlc bytes back. */
  lemma PayloadPairs(data: seq<byte>, tail: string, bytes: seq<byte>)
    requires |tail| < 2 || |data| >= MAX_DLC
    requires bytes == data[..Min(|data|, MAX_DLC)]
    ensures |bytes| == Min(|HexBytes(data) + tail| / 2, MAX_DLC)
    ensures forall i :: 0 <= i < |bytes| ==> ParseByte(PairAt(HexBytes(data) + tail, i)) == Some(bytes[i])
  {
    var h := HexBytes(data);
    UpperIsHex(h);
    HexBytesPairs(data);
    forall i | 0 <= i < |bytes|
      ensures ParseByte(PairAt(h + tail, i)) == Some(bytes[i])
    {
      PairAtPrefix(h, tail, i);
      ParseBytePair(PairAt(h, i));
    }
  }

  /** Decoding the client's text gives the id and the first min(|data|, 8) bytes. */
  lemma DecodeEncode(id: u32, data: seq<byte>)
    ensures Decode(Encode(id, data, |data|)) == Some(Frame(id, data[..Min(|data|, MAX_DLC)]))
  {
    var idText := PadZero(ToHex(id as nat), 3);
    PadZeroDigits(ToHex(id as nat), 3);
    assert data[..|data|] == data;
    assert Encode(id, data, |data|) == FrameText(idText, data) + [];
    DecodeFrameText(idText, data, []);
  }

  /** Round trip: for at most 8 bytes the server decodes exactly the frame the client encoded. */
  lemma RoundTrip(id: u32, data: seq<byte>)
    requires |data| <= MAX_DLC
    ensures Decode(Encode(id, data, |data|)) == Some(Frame(id, data))
  {
    DecodeEncode(id, data);
    assert data[..|data|] == data;
  }

  /** More than 8 encoded bytes decode to the first 8. */
  lemma RoundTripTruncates(id: u32, data: seq<byte>)
    requires |data| > MAX_DLC
    ensures Decode(Encode(id, data, |data|)) == Some(Frame(id, data[..MAX_DLC]))
  {
    DecodeEncode(id, data);
  }

  /** The server's own serial line decodes back to the frame it was made from (the newline is a dropped odd nibble). */
  lemma SerialLineDecodes(frame: Frame)
    requires frame.Valid()
    ensures Decode(SerialLine(frame)) == Some(frame)
  {
    DecodeFrameText(ToHex(frame.id as nat), frame.data, "\n");
    assert frame.data[..|frame.data|] == frame.data;
  }

  /** For ids of three or more digits, such as both deployment ids, the serial line is the client's text plus a newline. */
  lemma SerialLineIsEncodingWithNewline(frame: Frame)
    requires frame.id >= 0x100
    ensures SerialLine(frame) == Encode(frame.id, frame.data, |frame.data|) + "\n"
  {
    assert frame.data[..|frame.data|] == frame.data;
  }

  /** "4B7#FF00000000000000" decodes to the steering frame for steering byte 0xFF. */
  lemma DecodeSteeringExample(msg: string, steering: byte)
    requires steering == 0xFF && msg == "4B7#FF00000000000000"
    ensures Decode(msg) == Some(Frame(STEERING_ID, [steering, 0, 0, 0, 0, 0, 0, 0]))
  {
    SteeringExample(steering);
    RoundTrip(STEERING_ID, SteeringPayload(steering));
  }

  /** The cache once both messages of one update for (steering, power) have arrived. */
  function Delivered(steering: byte, power: byte): CacheState {
    CacheState(Frame(STEERING_ID, SteeringPayload(steering)), Frame(PROPULSION_ID, PropulsionPayload(power)), true, true)
  }

  /** Whatever the cache held, one update's two messages leave exactly that update in it. */
  lemma DeliverUpdate(s: CacheState, steering: byte, power: byte)
    ensures ReceiveAll(s, UpdateMessages(steering, power)) == Delivered(steering, power)
  {
    var propulsionMsg := Encode(PROPULSION_ID, PropulsionPayload(power), 8);
    var steeringMsg := Encode(STEERING_ID, SteeringPayload(steering), 8);
    EncodeHasSeparator(PROPULSION_ID, PropulsionPayload(power), 8);
    ReceiveAllTwo(s, propulsionMsg, steeringMsg);
    RoundTrip(PROPULSION_ID, PropulsionPayload(power));
    RoundTrip(STEERING_ID, SteeringPayload(steering));
    assert IsPropulsionMessage(propulsionMsg);
    assert IsSteeringMessage(steeringMsg);
    ReceiveReplacesSlot(s, propulsionMsg);
    var s1 := Receive(s, propulsionMsg);
    ReceiveReplacesSlot(s1, steeringMsg);
  }

  /** The forwarder then writes the steering line and the propulsion line, each the client's text plus a newline. */
  lemma ForwardAfterUpdate(steering: byte, power: byte)
    ensures ForwardLines(Delivered(steering, power))
      == ["4B7#" + ByteHex(steering) + "00000000000000" + "\n", "4B3#01" + ByteHex(power) + "000000000000" + "\n"]
  {
    var st := Delivered(steering, power);
    SerialLineIsEncodingWithNewline(st.steeringFrame);
    SerialLineIsEncodingWithNewline(st.propulsionFrame);
    SteeringMessageText(steering);
    PropulsionMessageText(power);
  }

  /**
   * End to end: once the client has sent anything, the server's cache holds
   * the frames of the latest joystick sample, whatever it held before.
   */
  lemma {:induction false} CacheHoldsLatestSample<T>(s: CacheState, initial: Sample<T>, samples: seq<Sample<T>>,
                                                     steeringByte: T -> byte, powerByte: T -> byte)
    requires Run(initial, samples, steeringByte, powerByte).1 != []
    ensures var last := samples[|samples| - 1];
      ReceiveAll(s, Run(initial, samples, steeringByte, powerByte).1)
        == Delivered(steeringByte(last.steering), powerByte(last.power))
  {
    var n := |samples| - 1;
    var front := samples[..n];
    var before := Run(initial, front, steeringByte, powerByte);
    var last := samples[n];
    if last != before.0 {
      RunMessagesHaveSeparator(initial, front, steeringByte, powerByte);
      assert "" !in before.1;
      DeliverUpdate(ReceiveAll(s, before.1), steeringByte(last.steering), powerByte(last.power));
      ReceiveAllAppend(s, before.1, UpdateMessages(steeringByte(last.steering), powerByte(last.power)));
    } else {
      CacheHoldsLatestSample(s, initial, front, steeringByte, powerByte);
    }
  }
}
