/** The ventilation client of the telemetry service: request frames built from hex command strings,
    and typed replies (`OnOffReply`, `TemperatureReply`) recognised by their two command bytes. */
module VentsTelemetry {
  import opened Bytes
  import opened Wrappers
  import opened VentsWire
  import opened Hex
  import opened Utf8

  /** Read request for the temperature block, and the two write requests for item 1 (on/off). */
  const Temperatures: string := "01b91f20212233bbba326a"
  const SwitchOn: string := "030101"
  const SwitchOff: string := "030100"
  const Prefix: string := "fdfd02"

  /** A string decodes to `b` when its pairs are hex and carry `b`'s values. */
  lemma DecodesTo(s: string, b: seq<Byte>)
    requires |s| == 2 * |b|
    requires forall i: nat :: i < |b| ==> IsHexPair(s, i) && PairValue(s, i) == b[i]
    ensures HexBytes(s) == Some(b)
  {
    assert AllHexPairs(s);
    var r := HexBytes(s).value;
    forall i | 0 <= i < |r| ensures r[i] == b[i] {
      var k: nat := i;
      assert IsHexPair(s, k) && PairValue(s, k) == b[k];
    }
    assert r == b;
  }

  lemma PrefixBytes()
    ensures HexBytes(Prefix) == Some([0xFD, 0xFD, Version])
  {
    DecodesTo(Prefix, [0xFD, 0xFD, Version]);
  }

  lemma SwitchBytes()
    ensures HexBytes(SwitchOn) == Some([0x03, 0x01, 0x01])
    ensures HexBytes(SwitchOff) == Some([0x03, 0x01, 0x00])
  {
    DecodesTo(SwitchOn, [0x03, 0x01, 0x01]);
    DecodesTo(SwitchOff, [0x03, 0x01, 0x00]);
  }

  lemma TemperaturesBytes()
    ensures HexBytes(Temperatures) == Some([0x01, 0xB9, 0x1F, 0x20, 0x21, 0x22, 0x33, 0xBB, 0xBA, 0x32, 0x6A])
  {
    DecodesTo(Temperatures, [0x01, 0xB9, 0x1F, 0x20, 0x21, 0x22, 0x33, 0xBB, 0xBA, 0x32, 0x6A]);
  }

  /** `Communication.ComposeCommand`: decode the prefix, add the auth fields, decode the hex payload,
      and append the checksum of every byte after the magic. A non-hex payload throws. */
  method ComposeCommand(serial: string, password: string, hexpostfix: string) returns (r: Result<seq<Byte>, Error>)
    ensures HexBytes(hexpostfix).None? ==> r == Err(FormatError)
    ensures HexBytes(hexpostfix).Some? ==> r == Ok(TextFrame(serial, password, HexBytes(hexpostfix).value))
    ensures HexBytes(hexpostfix).Some? && IsAscii(password) ==>
      r == Ok(Frame(Encode(serial), Encode(password), HexBytes(hexpostfix).value))
  {
    PrefixBytes();
    var serialBytes := Encode(serial);
    var passwordBytes := Encode(password);
    var prefix := GetBytes(Prefix);
    var postfix := GetBytes(hexpostfix);
    if postfix.None? {
      return Err(FormatError);
    }
    var payload := postfix.value;
    assert prefix.value == LittleEndian16(PacketHeader) + [Version];
    var auth := [|serialBytes| % 256] + serialBytes + [Utf16Length(password) % 256] + passwordBytes;
    assert auth == AuthText(serial, password);
    var command := prefix.value + auth + payload;
    var calculatedSum := Sum16(command[2..]);
    var frame := command + LittleEndian16(calculatedSum);
    assert frame == TextFrame(serial, password, payload);
    if IsAscii(password) {
      TextFrameAscii(serial, password, payload);
    }
    r := Ok(frame);
  }

  datatype ReplyKind = OnOffReply | TemperatureReply

  /** The first two payload bytes, read little-endian, that each reply subtype expects. */
  function CommandBytes(kind: ReplyKind): nat
  {
    match kind
    case OnOffReply => 0x0106
    case TemperatureReply => 0xFE06
  }

  datatype Reply = Reply(kind: ReplyKind, header: seq<Byte>, serial: seq<Byte>, password: seq<Byte>, payload: seq<Byte>)

  /** What `Reply.ReadFrom<T>` returns or throws: header and checksum verified, the first three bytes
      kept as `Header` (the version is not checked), serial and password split off, everything after
      them (checksum included) kept as `Payload`, whose first two bytes must be the subtype's command. */
  function ParseReply(kind: ReplyKind, buffer: seq<Byte>): Result<Reply, Error>
  {
    var check := CheckFrame(buffer);
    if check.Fail? then Err(check.error)
    else
      var fields :- SplitAuth(buffer[3..]);
      var payload := fields.rest;
      if |payload| < 2 then Err(OutOfRange)
      else if ReadU16(payload[0], payload[1]) != CommandBytes(kind) then Err(CommandMismatch)
      else Ok(Reply(kind, buffer[..3], fields.serial, fields.password, payload))
  }

  /** `Reply.ReadFrom<T>`, advancing one span. */
  method ReadFrom(kind: ReplyKind, buffer: seq<Byte>) returns (r: Result<Reply, Error>)
    ensures r == ParseReply(kind, buffer)
  {
    var check := VerifyChecksum(buffer);
    if check.Fail? {
      return Err(check.error);
    }
    var header := buffer[..3];
    var buf := buffer[3..];
    var serialLength := buf[0];
    buf := buf[1..];
    var serialBytes := Eat(buf, serialLength);
    if serialBytes.Err? {
      return Err(serialBytes.error);
    }
    buf := serialBytes.value.1;
    var passwordLength := EatByte(buf);
    if passwordLength.Err? {
      return Err(passwordLength.error);
    }
    buf := passwordLength.value.1;
    var passwordBytes := Eat(buf, passwordLength.value.0);
    if passwordBytes.Err? {
      return Err(passwordBytes.error);
    }
    buf := passwordBytes.value.1;
    var result := Reply(kind, header, serialBytes.value.0, passwordBytes.value.0, buf);
    if |buf| < 2 {
      return Err(OutOfRange);
    }
    if ReadU16(buf[0], buf[1]) != CommandBytes(kind) {
      return Err(CommandMismatch);
    }
    return Ok(result);
  }

  /** A composed frame whose payload starts with the subtype's command bytes reads back as that
      subtype with the same serial and password; the payload comes back with the checksum attached. */
  lemma ParseComposedReply(kind: ReplyKind, serial: seq<Byte>, password: seq<Byte>, payload: seq<Byte>)
    requires |serial| < 256 && |password| < 256
    requires |payload| >= 2 && ReadU16(payload[0], payload[1]) == CommandBytes(kind)
    ensures var f := Frame(serial, password, payload);
      ParseReply(kind, f) == Ok(Reply(kind, [0xFD, 0xFD, Version], serial, password, payload + f[|f| - 2..]))
  {
    var f := Frame(serial, password, payload);
    var checksum := f[|f| - 2..];
    assert f == CommandBody(serial, password, payload) + checksum;
    assert f[3..] == AuthFields(serial, password) + (payload + checksum);
    SplitAuthFields(serial, password, payload + checksum);
  }

  /** A composed frame whose payload does not start with the expected command bytes is refused. */
  lemma ParseRejectsOtherCommand(kind: ReplyKind, serial: seq<Byte>, password: seq<Byte>, payload: seq<Byte>)
    requires |serial| < 256 && |password| < 256
    requires |payload| >= 2 && ReadU16(payload[0], payload[1]) != CommandBytes(kind)
    ensures ParseReply(kind, Frame(serial, password, payload)) == Err(CommandMismatch)
  {
    var f := Frame(serial, password, payload);
    var checksum := f[|f| - 2..];
    assert f == CommandBody(serial, password, payload) + checksum;
    assert f[3..] == AuthFields(serial, password) + (payload + checksum);
    SplitAuthFields(serial, password, payload + checksum);
  }

  /** `BitConverter.ToInt16(Payload, offset)` in tenths of a degree; it throws unless two bytes are
      available at the offset. */
  function Int16At(payload: seq<Byte>, offset: nat): (r: Result<int, Error>)
    ensures r.Ok? <==> offset + 2 <= |payload|
    ensures r.Ok? ==> -32768 <= r.value <= 32767
    ensures r.Ok? ==> (r.value - ReadU16(payload[offset], payload[offset + 1])) % U16 == 0
    ensures r.Err? ==> r.error == OutOfRange
  {
    if offset + 2 <= |payload| then Ok(ReadI16(payload[offset], payload[offset + 1])) else Err(OutOfRange)
  }

  /** `TemperatureReply.OutsideTemperature`, in tenths: the signed value at payload offset 9. */
  function OutsideTemperature(reply: Reply): Result<int, Error>
    requires reply.kind == TemperatureReply
  {
    Int16At(reply.payload, 9)
  }

  /** `TemperatureReply.ExhaustTemperature`, in tenths: the signed value at payload offset 24. */
  function ExhaustTemperature(reply: Reply): Result<int, Error>
    requires reply.kind == TemperatureReply
  {
    Int16At(reply.payload, 24)
  }

  /** The two readings come back from the bytes the unit stores at payload offsets 9 and 24. */
  lemma TemperatureReadings(reply: Reply, outside: int, exhaust: int)
    requires reply.kind == TemperatureReply
    requires -32768 <= outside <= 32767 && -32768 <= exhaust <= 32767
    requires |reply.payload| >= 26
    requires reply.payload[9..11] == EncodeI16(outside) && reply.payload[24..26] == EncodeI16(exhaust)
    ensures OutsideTemperature(reply) == Ok(outside)
    ensures ExhaustTemperature(reply) == Ok(exhaust)
  {
    var p := reply.payload;
    assert p[9] == p[9..11][0] && p[10] == p[9..11][1];
    assert p[24] == p[24..26][0] && p[25] == p[24..26][1];
    ReadEncodedI16(outside);
    ReadEncodedI16(exhaust);
  }
}
