/**
 * The relay server: decoding a received text frame, the line it writes to
 * the serial port, the two-slot cache of the latest steering and propulsion
 * frames, the per-message handler that fills it and the forwarder tick that
 * reads it.
 */
module Server {
  import opened Options
  import opened Hex
  import opened CLib
  import opened Frames

  /** `msg.find(c)`: the position of the first occurrence, None for `npos`. */
  function FirstIndex(s: string, c: char): (r: Option<nat>)
    ensures r.None? <==> c !in s
    ensures r.Some? ==> r.value < |s| && s[r.value] == c && c !in s[..r.value]
  {
    if s == [] then None
    else if s[0] == c then Some(0)
    else match FirstIndex(s[1..], c)
      case None => None
      case Some(k) =>
        assert s[..k + 1] == [s[0]] + s[1..][..k];
        Some(k + 1)
  }

  /** `static_cast<uint8_t>(std::stoul(pair, nullptr, 16))`: the low 8 bits of what `stoul` returns. */
  function ParseByte(pair: string): Option<byte> {
    match ParseUnsignedLong(pair)
    case None => None
    case Some(v) => Some(LowByte(v))
  }

  /** The conversion to `uint8_t`: v reduced modulo 0x100, written as repeated subtraction. */
  function LowByte(v: nat): byte {
    if v < 0x100 then v as byte else LowByte(v - 0x100)
  }

  lemma {:induction false} LowByteIsModulo(v: nat)
    ensures LowByte(v) as nat == v % 0x100
  {
    if v >= 0x100 {
      LowByteIsModulo(v - 0x100);
    }
  }

  /** A value below 0x100 survives the cast unchanged. */
  lemma ParseByteOfSmall(pair: string, v: nat)
    requires ParseUnsignedLong(pair) == Some(v) && v < 0x100
    ensures ParseByte(pair) == Some(v as byte)
  {
  }

  /**
   * The loop filling `frame.data[0..n)`: every pair must parse, otherwise the
   * exception abandons the whole frame.
   */
  function ParseBytes(payload: string, n: nat): (r: Option<seq<byte>>)
    requires 2 * n <= |payload|
    ensures r.Some? ==> |r.value| == n
  {
    if n == 0 then Some([])
    else
      match ParseBytes(payload, n - 1)
      case None => None
      case Some(front) =>
        match ParseByte(PairAt(payload, n - 1))
        case None => None
        case Some(b) => Some(front + [b])
  }

  /** The bytes are read exactly when every one of the n pairs parses, and then byte i is pair i. */
  lemma {:induction false} ParseBytesMeaning(payload: string, n: nat)
    requires 2 * n <= |payload|
    ensures var r := ParseBytes(payload, n);
      && (r.Some? <==> forall i :: 0 <= i < n ==> ParseByte(PairAt(payload, i)).Some?)
      && (r.Some? ==> forall i :: 0 <= i < n ==> ParseByte(PairAt(payload, i)) == Some(r.value[i]))
  {
    if n > 0 {
      ParseBytesMeaning(payload, n - 1);
      var front := ParseBytes(payload, n - 1);
      var last := ParseByte(PairAt(payload, n - 1));
      if front.None? {
        var j :| 0 <= j < n - 1 && ParseByte(PairAt(payload, j)).None?;
        assert ParseBytes(payload, n).None?;
      } else if last.None? {
        assert ParseBytes(payload, n).None?;
      } else {
        var bytes := front.value + [last.value];
        assert ParseBytes(payload, n) == Some(bytes);
        forall i | 0 <= i < n
          ensures ParseByte(PairAt(payload, i)) == Some(bytes[i])
        {
          if i < n - 1 {
            assert bytes[i] == front.value[i];
          }
        }
      }
    }
  }

  /**
   * `parseCANFrameString`: split at the first `#`; no `#` yields None.
   */
  function Decode(msg: string): (r: Option<Frame>)
    ensures '#' !in msg ==> r.None?
    ensures r.Some? ==> r.value.Valid()
  {
    match FirstIndex(msg, '#')
    case None => None
    case Some(sep) => DecodeParts(msg[..sep], msg[sep + 1..])
  }

  /**
   * The rest of `parseCANFrameString` on the text before and after the
   * separator: read the id with `stoul`, take dlc = min(len(payload) / 2, 8)
   * and read that many byte pairs. Any `stoul` failure yields None.
   */
  function DecodeParts(idText: string, payload: string): (r: Option<Frame>)
    ensures r.Some? ==> r.value.Valid()
  {
    var dlc := Min(|payload| / 2, MAX_DLC);
    match ParseUnsignedLong(idText)
    case None => None
    case Some(id) =>
      match ParseBytes(payload, dlc)
      case None => None
      case Some(data) => Some(Frame(id as u32, data))
  }

  /**
   * `parseCANFrameString` as the source writes it: find the separator, read
   * the id, then read the byte pairs one per loop iteration, giving up at the
   * first pair `stoul` rejects.
   */
  method ParseCANFrame(msg: string) returns (r: Option<Frame>)
    ensures r == Decode(msg)
  {
    var sep := FirstIndex(msg, '#');
    if sep.None? {
      return None;
    }
    var idText, payload := msg[..sep.value], msg[sep.value + 1..];
    var id := ParseUnsignedLong(idText);
    if id.None? {
      return None;
    }
    var dlc := Min(|payload| / 2, MAX_DLC);
    var data: seq<byte> := [];
    var i := 0;
    while i < dlc
      invariant 0 <= i <= dlc
      invariant ParseBytes(payload, i) == Some(data)
    {
      var b := ParseByte(PairAt(payload, i));
      if b.None? {
        ParseBytesMeaning(payload, dlc);
        return None;
      }
      data := data + [b.value];
      i := i + 1;
    }
    r := Some(Frame(id.value as u32, data));
  }

  /** The split happens at the separator that follows an id text without one. */
  lemma DecodeSplit(idText: string, payload: string)
    requires '#' !in idText
    ensures Decode(idText + "#" + payload) == DecodeParts(idText, payload)
  {
    var msg := idText + "#" + payload;
    FirstIndexAfter(idText, '#', payload);
    assert msg[..|idText|] == idText;
    assert msg[|idText| + 1..] == payload;
  }

  /**
   * What decoding the two parts means: the id as `stoul` reads it, and
   * dlc = min(|payload| / 2, 8) pairs of the payload are the bytes; decoding
   * succeeds exactly when all of these parse.
   */
  lemma DecodePartsMeaning(idText: string, payload: string)
    ensures var r := DecodeParts(idText, payload);
      var dlc := Min(|payload| / 2, MAX_DLC);
      && (r.Some? <==> ParseUnsignedLong(idText).Some?
                       && forall i :: 0 <= i < dlc ==> ParseByte(PairAt(payload, i)).Some?)
      && (r.Some? ==> && r.value.id as nat == ParseUnsignedLong(idText).value
                      && |r.value.data| == dlc
                      && forall i :: 0 <= i < dlc ==> ParseByte(PairAt(payload, i)) == Some(r.value.data[i]))
  {
    ParseBytesMeaning(payload, Min(|payload| / 2, MAX_DLC));
  }

  /** When the id and every needed pair parse, the decoded frame is made of exactly those values. */
  lemma DecodeParsed(idText: string, payload: string, id: nat, bytes: seq<byte>)
    requires '#' !in idText
    requires ParseUnsignedLong(idText) == Some(id)
    requires |bytes| == Min(|payload| / 2, MAX_DLC)
    requires forall i :: 0 <= i < |bytes| ==> ParseByte(PairAt(payload, i)) == Some(bytes[i])
    ensures id < ULONG_LIMIT
    ensures Decode(idText + "#" + payload) == Some(Frame(id as u32, bytes))
  {
    DecodeSplit(idText, payload);
    DecodePartsMeaning(idText, payload);
    var r := DecodeParts(idText, payload);
    assert r.value.data == bytes;
  }

  lemma {:induction false} FirstIndexAfter(a: string, c: char, b: string)
    requires c !in a
    ensures FirstIndex(a + [c] + b, c) == Some(|a|)
  {
    if a != [] {
      assert (a + [c] + b)[1..] == a[1..] + [c] + b;
      FirstIndexAfter(a[1..], c, b);
    }
  }

  /**
   * Only the first dlc byte pairs matter: payload text that leaves dlc
   * unchanged can be appended without changing the outcome.
   */
  lemma DecodeOnlyPairsMatter(idText: string, payload: string, tail: string)
    requires '#' !in idText
    requires Min(|payload + tail| / 2, MAX_DLC) == Min(|payload| / 2, MAX_DLC)
    ensures Decode(idText + "#" + (payload + tail)) == Decode(idText + "#" + payload)
  {
    var dlc := Min(|payload| / 2, MAX_DLC);
    forall i | 0 <= i < dlc
      ensures ParseByte(PairAt(payload + tail, i)) == ParseByte(PairAt(payload, i))
    {
      assert PairAt(payload + tail, i) == PairAt(payload, i);
    }
    DecodeSameParts(idText, payload + tail, idText, payload);
  }

  /** Ids `stoul` reads alike and payloads with the same dlc and the same first dlc byte pairs decode alike. */
  lemma DecodeSameParts(id1: string, p: string, id2: string, q: string)
    requires '#' !in id1 && '#' !in id2
    requires ParseUnsignedLong(id1) == ParseUnsignedLong(id2)
    requires Min(|p| / 2, MAX_DLC) == Min(|q| / 2, MAX_DLC)
    requires forall i :: 0 <= i < Min(|q| / 2, MAX_DLC) ==> ParseByte(PairAt(p, i)) == ParseByte(PairAt(q, i))
    ensures Decode(id1 + "#" + p) == Decode(id2 + "#" + q)
  {
    DecodeSplit(id1, p);
    DecodeSplit(id2, q);
    DecodePartsMeaning(id1, p);
    DecodePartsMeaning(id2, q);
    var r1 := DecodeParts(id1, p);
    var r2 := DecodeParts(id2, q);
    if r1.Some? && r2.Some? {
      assert r1.value.data == r2.value.data;
    }
  }

  /** An odd trailing nibble is dropped. */
  lemma DecodeDropsOddNibble(idText: string, payload: string, nibble: char)
    requires '#' !in idText && |payload| % 2 == 0
    ensures Decode(idText + "#" + (payload + [nibble])) == Decode(idText + "#" + payload)
  {
    DecodeOnlyPairsMatter(idText, payload, [nibble]);
  }

  /** Nothing after the sixteenth payload character is read. */
  lemma DecodeIgnoresBeyondEightBytes(idText: string, payload: string, tail: string)
    requires '#' !in idText && |payload| == 2 * MAX_DLC
    ensures Decode(idText + "#" + (payload + tail)) == Decode(idText + "#" + payload)
  {
    DecodeOnlyPairsMatter(idText, payload, tail);
  }

  /** An empty id makes `stoul` throw, so the message is dropped. */
  lemma DecodeEmptyId(payload: string)
    ensures Decode("#" + payload).None?
  {
    assert "#" + payload == "" + "#" + payload;
    ParseNeedsDigit("");
    DecodeSplit("", payload);
    DecodePartsMeaning("", payload);
  }

  /** Concrete cases: no separator, and the messages the handler skips before decoding. */
  lemma DecodeExamples()
    ensures Decode("nohash").None?
    ensures Decode("").None? && Decode("ping").None?
  {
  }

  /**
   * The two-character texts `stoul` reads a number from: a leading hex digit,
   * or white space or a sign followed by one.
   */
  predicate PairReadable(pair: string)
    requires |pair| == 2
  {
    IsHexDigit(pair[0]) || ((IsSpace(pair[0]) || pair[0] == '+' || pair[0] == '-') && IsHexDigit(pair[1]))
  }

  /** A byte pair parses exactly when `stoul` finds a number in it. */
  lemma PairParses(pair: string)
    requires |pair| == 2
    ensures ParseByte(pair).Some? <==> PairReadable(pair)
  {
    var c, d := pair[0], pair[1];
    assert pair == [c] + [d];
    if IsHexDigit(c) && IsHexDigit(d) {
      assert AllHex(pair) by {
        assert forall j :: 0 <= j < 2 ==> pair[j] == c || pair[j] == d;
      }
      TwoDigitValue(pair);
      ParseAllDigits(pair);
    } else if IsHexDigit(c) && c == '0' && (d == 'x' || d == 'X') {
      assert ['0', d] + [] == pair;
      ParseBarePrefix(d, []);
    } else if IsHexDigit(c) {
      ParseDigits([c], [d]);
    } else if IsHexDigit(d) && IsSpace(c) {
      SkipSpaceOf([c], [d]);
      SkipSpaceOf([], [d]);
      assert [] + [d] == [d];
      ParseAllDigits([d]);
    } else if IsHexDigit(d) && c == '+' {
      SkipSpaceOf([], pair);
      assert [] + pair == pair;
      PlusSign([d]);
      MagnitudeOfDigits([d], []);
      assert [d] + [] == [d];
    } else if IsHexDigit(d) && c == '-' {
      MinusSign([d]);
      MagnitudeOfDigits([d], []);
      assert [d] + [] == [d];
    } else if IsSpace(c) || c == '+' || c == '-' {
      assert forall j :: 0 <= j < 2 ==> pair[j] == c || pair[j] == d;
      ParseNeedsDigit(pair);
    } else {
      ParseNoLeadingDigit(pair);
    }
  }

  /** A needed byte pair `stoul` cannot read makes the whole decode fail, as in "4B3#GZ" or "4B3#G1". */
  lemma DecodeBadPair(idText: string, payload: string, i: nat)
    requires '#' !in idText
    requires i < Min(|payload| / 2, MAX_DLC)
    requires !PairReadable(PairAt(payload, i))
    ensures Decode(idText + "#" + payload).None?
  {
    DecodeSplit(idText, payload);
    DecodePartsMeaning(idText, payload);
    PairParses(PairAt(payload, i));
  }

  /** "4B3#GZ" does not decode. */
  lemma DecodeBadPairExample()
    ensures Decode("4B3#GZ").None?
  {
    var idText, payload := "4B3", "GZ";
    assert idText + "#" + payload == "4B3#GZ";
    assert PairAt(payload, 0) == payload;
    DecodeBadPair(idText, payload, 0);
  }

  /** An id that starts with neither white space, a sign nor a hex digit makes the decode fail, as in "G4B7#01". */
  lemma DecodeIdNoLeadingDigit(idText: string, payload: string)
    requires '#' !in idText
    requires idText == [] || (!IsSpace(idText[0]) && idText[0] != '+' && idText[0] != '-' && !IsHexDigit(idText[0]))
    ensures Decode(idText + "#" + payload).None?
  {
    ParseNoLeadingDigit(idText);
    DecodeSplit(idText, payload);
    DecodePartsMeaning(idText, payload);
  }

  /**
   * Text after the id's leading run of digits is ignored ("4B7zz#01" and
   * "4B7x#01" are read as id 0x4B7), as long as it does not turn a lone "0"
   * into a "0x" prefix.
   */
  lemma DecodeIdTrailingJunk(digits: string, junk: string, payload: string)
    requires digits != [] && AllHex(digits)
    requires '#' !in junk
    requires junk == [] || (!IsHexDigit(junk[0]) && (digits == "0" ==> junk[0] != 'x' && junk[0] != 'X'))
    ensures Decode(digits + junk + "#" + payload) == Decode(digits + "#" + payload)
  {
    ParseDigits(digits, junk);
    ParseDigits(digits, []);
    assert digits + [] == digits;
    DecodeSameParts(digits + junk, payload, digits, payload);
  }

  /**
   * The line `sendFrameOverSerial` writes: the id in uppercase hex with no
   * padding, `#`, two uppercase digits per byte, then a newline.
   */
  function SerialLine(frame: Frame): string {
    FrameText(ToHex(frame.id as nat), frame.data) + "\n"
  }

  /**
   * The string `sendFrameOverSerial` builds: the id, `#`, the printing loop
   * over the frame's bytes, then the newline.
   */
  method FormatSerialLine(frame: Frame) returns (line: string)
    ensures line == SerialLine(frame)
  {
    line := AppendHexBytes(ToHex(frame.id as nat) + "#", frame.data);
    line := line + "\n";
  }

  /**
   * The layout of a serial line: the shortest numeral of the id, the only
   * `#`, exactly 2*dlc digits with pair i denoting byte i, and a final newline.
   */
  lemma SerialLineFormat(frame: Frame)
    ensures var r := SerialLine(frame);
      var k := |r| - 2 - 2 * |frame.data|;
      && 1 <= k && k + 1 < |r|
      && AllUpperHex(r[..k]) && Value(r[..k]) == frame.id as nat
      && (k == 1 || r[0] != '0')
      && r[k] == '#'
      && (forall j :: 0 <= j < |r| ==> (r[j] == '#' <==> j == k))
      && |r[k + 1..|r| - 1]| == 2 * |frame.data| && AllUpperHex(r[k + 1..|r| - 1])
      && (forall i :: 0 <= i < |frame.data| ==> Value(PairAt(r[k + 1..|r| - 1], i)) == frame.data[i] as nat)
      && r[|r| - 1] == '\n'
  {
    var idText := ToHex(frame.id as nat);
    var t := FrameText(idText, frame.data);
    FrameTextFormat(idText, frame.data);
    NewlineSlices(t, |idText|);
  }

  lemma NewlineSlices(t: string, k: nat)
    requires k < |t|
    ensures var r := t + "\n";
      && r[..k] == t[..k] && r[k + 1..|r| - 1] == t[k + 1..] && r[|r| - 1] == '\n'
      && forall j :: 0 <= j < |t| ==> r[j] == t[j]
  {
    var r := t + "\n";
    assert r[..|r| - 1] == t;
  }

  /** The deployment's two cache slots and their presence flags (the server's globals). */
  datatype CacheState = CacheState(steeringFrame: Frame, propulsionFrame: Frame,
                                   hasSteering: bool, hasPropulsion: bool)

  /** The globals as the server starts: both slots hold an all-zero 8-byte frame, neither present. */
  const INITIAL_CACHE := CacheState(Frame(STEERING_ID, NullBytes(8)), Frame(PROPULSION_ID, NullBytes(8)), false, false)

  /** Each slot only ever holds a frame of its own id with at most 8 bytes. */
  predicate CacheInvariant(s: CacheState) {
    && s.steeringFrame.id == STEERING_ID && s.steeringFrame.Valid()
    && s.propulsionFrame.id == PROPULSION_ID && s.propulsionFrame.Valid()
  }

  /** The locked section of the handler: route a decoded frame to its slot, ignore other ids. */
  function Route(s: CacheState, frame: Frame): (r: CacheState)
    ensures s.hasSteering ==> r.hasSteering
    ensures s.hasPropulsion ==> r.hasPropulsion
    ensures CacheInvariant(s) && frame.Valid() ==> CacheInvariant(r)
  {
    if frame.id == STEERING_ID then s.(steeringFrame := frame, hasSteering := true)
    else if frame.id == PROPULSION_ID then s.(propulsionFrame := frame, hasPropulsion := true)
    else s
  }

  /**
   * One received WebSocket message: empty messages and keep-alives are
   * skipped, undecodable ones dropped, decoded ones routed.
   */
  function Receive(s: CacheState, message: string): (r: CacheState)
    ensures s.hasSteering ==> r.hasSteering
    ensures s.hasPropulsion ==> r.hasPropulsion
    ensures CacheInvariant(s) ==> CacheInvariant(r)
  {
    if message == "" || message == "ping" then s
    else match Decode(message)
      case None => s
      case Some(frame) => Route(s, frame)
  }

  /**
   * The read loop of one connection over the frames it receives, in arrival
   * order: an empty frame (`n <= 0`) ends the loop, and nothing after it is
   * handled.
   */
  function ReceiveAll(s: CacheState, messages: seq<string>): CacheState
    decreases messages
  {
    if messages == [] || messages[0] == "" then s
    else ReceiveAll(Receive(s, messages[0]), messages[1..])
  }

  /** A message whose decoding lands in the steering slot. */
  predicate IsSteeringMessage(message: string) {
    Decode(message).Some? && Decode(message).value.id == STEERING_ID
  }

  /** A message whose decoding lands in the propulsion slot. */
  predicate IsPropulsionMessage(message: string) {
    Decode(message).Some? && Decode(message).value.id == PROPULSION_ID
  }

  /**
   * The keep-alive filter only saves work: the empty message and "ping"
   * do not decode, so routing every message directly gives the same state.
   */
  lemma KeepAliveFilterIsRedundant(s: CacheState, message: string)
    ensures Receive(s, message) == match Decode(message) case None => s case Some(frame) => Route(s, frame)
  {
    DecodeExamples();
  }

  /** Which messages leave the cache alone: the ignored, the undecodable, and unknown ids. */
  lemma ReceiveIgnores(s: CacheState, message: string)
    requires !IsSteeringMessage(message) && !IsPropulsionMessage(message)
    ensures Receive(s, message) == s
  {
    KeepAliveFilterIsRedundant(s, message);
  }

  /** A decoded steering or propulsion frame wholly replaces its slot and marks it present; the other slot is untouched. */
  lemma ReceiveReplacesSlot(s: CacheState, message: string)
    ensures IsSteeringMessage(message) ==>
      Receive(s, message) == s.(steeringFrame := Decode(message).value, hasSteering := true)
    ensures IsPropulsionMessage(message) ==>
      Receive(s, message) == s.(propulsionFrame := Decode(message).value, hasPropulsion := true)
  {
    KeepAliveFilterIsRedundant(s, message);
  }

  /** Latest wins: of two frames for the same slot, only the second is left. */
  lemma LatestWins(s: CacheState, first: string, second: string)
    requires (IsSteeringMessage(first) && IsSteeringMessage(second))
          || (IsPropulsionMessage(first) && IsPropulsionMessage(second))
    ensures Receive(Receive(s, first), second) == Receive(s, second)
  {
    ReceiveReplacesSlot(s, first);
    ReceiveReplacesSlot(s, second);
    ReceiveReplacesSlot(Receive(s, first), second);
  }

  /** No presence flag goes from true back to false, whatever arrives. */
  lemma {:induction false} PresenceNeverReverts(s: CacheState, messages: seq<string>)
    ensures s.hasSteering ==> ReceiveAll(s, messages).hasSteering
    ensures s.hasPropulsion ==> ReceiveAll(s, messages).hasPropulsion
    ensures CacheInvariant(s) ==> CacheInvariant(ReceiveAll(s, messages))
    decreases messages
  {
    if messages != [] && messages[0] != "" {
      PresenceNeverReverts(Receive(s, messages[0]), messages[1..]);
    }
  }

  /** A steering frame stays cached until another steering frame arrives. */
  lemma {:induction false} SteeringKept(s: CacheState, messages: seq<string>)
    requires forall i :: 0 <= i < |messages| ==> !IsSteeringMessage(messages[i])
    ensures ReceiveAll(s, messages).steeringFrame == s.steeringFrame
    ensures ReceiveAll(s, messages).hasSteering == s.hasSteering
    decreases messages
  {
    if messages != [] && messages[0] != "" {
      KeepAliveFilterIsRedundant(s, messages[0]);
      SteeringKept(Receive(s, messages[0]), messages[1..]);
    }
  }

  /** A propulsion frame stays cached until another propulsion frame arrives. */
  lemma {:induction false} PropulsionKept(s: CacheState, messages: seq<string>)
    requires forall i :: 0 <= i < |messages| ==> !IsPropulsionMessage(messages[i])
    ensures ReceiveAll(s, messages).propulsionFrame == s.propulsionFrame
    ensures ReceiveAll(s, messages).hasPropulsion == s.hasPropulsion
    decreases messages
  {
    if messages != [] && messages[0] != "" {
      KeepAliveFilterIsRedundant(s, messages[0]);
      PropulsionKept(Receive(s, messages[0]), messages[1..]);
    }
  }

  /** Two frames are handled one after the other, unless the first is empty and ends the connection. */
  lemma ReceiveAllTwo(s: CacheState, first: string, second: string)
    ensures ReceiveAll(s, [first, second]) == if first == "" then s else Receive(Receive(s, first), second)
  {
    var m := [first, second];
    if first != "" {
      var s1 := Receive(s, first);
      assert m[1..] == [second];
      assert ReceiveAll(s, m) == ReceiveAll(s1, [second]);
      if second != "" {
        assert [second][1..] == [];
        assert ReceiveAll(s1, [second]) == ReceiveAll(Receive(s1, second), []);
      }
    }
  }

  /**
   * Frames received after a sequence are handled after it, unless that
   * sequence held an empty frame, which ended the connection.
   */
  lemma {:induction false} ReceiveAllAppend(s: CacheState, a: seq<string>, b: seq<string>)
    ensures ReceiveAll(s, a + b) == if "" in a then ReceiveAll(s, a) else ReceiveAll(ReceiveAll(s, a), b)
    decreases a
  {
    if a != [] {
      assert (a + b)[0] == a[0] && (a + b)[1..] == a[1..] + b;
      if a[0] != "" {
        ReceiveAllAppend(Receive(s, a[0]), a[1..], b);
        assert "" in a <==> "" in a[1..];
      }
    } else {
      assert a + b == b;
    }
  }

  /**
   * One forwarder tick: the steering line when present, then the propulsion
   * line when present.
   */
  function ForwardLines(s: CacheState): (lines: seq<string>)
    ensures |lines| == (if s.hasSteering then 1 else 0) + (if s.hasPropulsion then 1 else 0)
    ensures s.hasSteering ==> lines[0] == SerialLine(s.steeringFrame)
    ensures s.hasPropulsion ==> lines[|lines| - 1] == SerialLine(s.propulsionFrame)
  {
    (if s.hasSteering then [SerialLine(s.steeringFrame)] else [])
      + (if s.hasPropulsion then [SerialLine(s.propulsionFrame)] else [])
  }

  /**
   * The server's cache globals together with the code that touches them:
   * the frame-routing part of `WebSocketRequestHandler::handleRequest` and
   * one pass of `periodicSender`.
   */
  class FrameCache {
    var steeringFrame: Frame
    var propulsionFrame: Frame
    var hasSteering: bool
    var hasPropulsion: bool

    function State(): CacheState
      reads this
    {
      CacheState(steeringFrame, propulsionFrame, hasSteering, hasPropulsion)
    }

    predicate Valid()
      reads this
    {
      CacheInvariant(State())
    }

    constructor ()
      ensures State() == INITIAL_CACHE && Valid()
    {
      steeringFrame := Frame(STEERING_ID, NullBytes(8));
      propulsionFrame := Frame(PROPULSION_ID, NullBytes(8));
      hasSteering := false;
      hasPropulsion := false;
    }

    /** Handle one received message. */
    method HandleMessage(message: string)
      requires Valid()
      modifies this
      ensures Valid()
      ensures State() == Receive(old(State()), message)
    {
      if message == "" || message == "ping" {
        return;
      }
      var parsed := ParseCANFrame(message);
      if parsed.Some? {
        Store(parsed.value);
      }
    }

    /**
     * The read loop of `handleRequest` for one connection: handle each
     * received frame in turn until an empty one ends the connection.
     */
    method HandleConnection(messages: seq<string>)
      requires Valid()
      modifies this
      ensures Valid()
      ensures State() == ReceiveAll(old(State()), messages)
    {
      var i := 0;
      while i < |messages|
        invariant 0 <= i <= |messages| && Valid()
        invariant ReceiveAll(State(), messages[i..]) == ReceiveAll(old(State()), messages)
      {
        if messages[i] == "" {
          return;
        }
        assert messages[i..][1..] == messages[i + 1..];
        HandleMessage(messages[i]);
        i := i + 1;
      }
    }

    /** The section under the cache lock: store a decoded frame in the slot of its id, if it has one. */
    method Store(frame: Frame)
      requires Valid() && frame.Valid()
      modifies this
      ensures Valid()
      ensures State() == Route(old(State()), frame)
    {
      if frame.id == STEERING_ID {
        steeringFrame := frame;
        hasSteering := true;
      } else if frame.id == PROPULSION_ID {
        propulsionFrame := frame;
        hasPropulsion := true;
      }
    }

    /** One forwarder tick: the lines written to the serial port; the cache is only read. */
    method Tick() returns (lines: seq<string>)
      ensures lines == ForwardLines(State())
    {
      lines := [];
      if hasSteering {
        var line := FormatSerialLine(steeringFrame);
        lines := lines + [line];
      }
      if hasPropulsion {
        var line := FormatSerialLine(propulsionFrame);
        lines := lines + [line];
      }
    }
  }
}
