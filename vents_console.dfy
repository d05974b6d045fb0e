/** The stand-alone console client: it sends one hand-assembled temperature read whose checksum is a
    literal, and splits the reply into command, serial, password and payload without verifying it. */
module VentsConsole {
  import opened Bytes
  import opened Wrappers
  import opened VentsWire
  import opened Hex
  import opened Utf8
  import VentsTelemetry

  /** The password `Main` uses when none is given on the command line. */
  const DefaultPassword: string := "1111"
  const RequestPrefix: string := "fdfd02"
  /** The temperature read of the telemetry client followed by a fixed checksum `9A 07`. */
  const RequestPostfix: string := "01b91f20212233bbba326a9a07"

  /** The console `ComposeCommand`: prefix, auth fields and postfix, each hex string decoded with
      `GetBytes`; no checksum is computed. */
  method ComposeCommand(hexprefix: string, serial: string, password: string, hexpostfix: string)
    returns (r: Result<seq<Byte>, Error>)
    ensures r.Ok? <==> HexBytes(hexprefix).Some? && HexBytes(hexpostfix).Some?
    ensures r.Err? ==> r.error == FormatError
    ensures r.Ok? ==> r.value == HexBytes(hexprefix).value + AuthText(serial, password) + HexBytes(hexpostfix).value
  {
    var serialBytes := Encode(serial);
    var passwordBytes := Encode(password);
    var prefix := GetBytes(hexprefix);
    if prefix.None? {
      return Err(FormatError);
    }
    var postfix := GetBytes(hexpostfix);
    if postfix.None? {
      return Err(FormatError);
    }
    var auth := [|serialBytes| % 256] + serialBytes + [Utf16Length(password) % 256] + passwordBytes;
    r := Ok(prefix.value + auth + postfix.value);
  }

  lemma RequestPostfixBytes()
    ensures HexBytes(RequestPostfix) == Some([0x01, 0xB9, 0x1F, 0x20, 0x21, 0x22, 0x33, 0xBB, 0xBA, 0x32, 0x6A, 0x9A, 0x07])
  {
    VentsTelemetry.DecodesTo(RequestPostfix, [0x01, 0xB9, 0x1F, 0x20, 0x21, 0x22, 0x33, 0xBB, 0xBA, 0x32, 0x6A, 0x9A, 0x07]);
  }

  /** The body of the temperature read the console sends, before its literal checksum. */
  function ConsoleBody(serial: string, password: string): seq<Byte>
  {
    [0xFD, 0xFD, Version] + AuthText(serial, password) + [0x01, 0xB9, 0x1F, 0x20, 0x21, 0x22, 0x33, 0xBB, 0xBA, 0x32, 0x6A]
  }

  lemma RequestPrefixBytes()
    ensures HexBytes(RequestPrefix) == Some([0xFD, 0xFD, Version])
  {
    VentsTelemetry.DecodesTo(RequestPrefix, [0xFD, 0xFD, Version]);
  }

  lemma RequestParts(serial: string, password: string)
    ensures HexBytes(RequestPrefix).Some? && HexBytes(RequestPostfix).Some?
    ensures HexBytes(RequestPrefix).value + AuthText(serial, password) + HexBytes(RequestPostfix).value
      == ConsoleBody(serial, password) + [0x9A, 0x07]
  {
    RequestPrefixBytes();
    RequestPostfixBytes();
  }

  /** `Main` up to the datagram it sends: a missing host or serial throws, otherwise the fixed
      temperature read is composed, with the default password when none is given. */
  method Request(host: Option<string>, serial: Option<string>, password: Option<string>) returns (r: Result<seq<Byte>, Error>)
    ensures host.None? || serial.None? ==> r == Err(ArgumentNull)
    ensures host.Some? && serial.Some? && password.Some? ==> r == Ok(ConsoleBody(serial.value, password.value) + [0x9A, 0x07])
    ensures host.Some? && serial.Some? && password.None? ==> r == Ok(ConsoleBody(serial.value, "1111") + [0x9A, 0x07])
  {
    if host.None? || serial.None? {
      return Err(ArgumentNull);
    }
    var pw := if password.Some? then password.value else DefaultPassword;
    RequestParts(serial.value, pw);
    r := ComposeCommand(RequestPrefix, serial.value, pw, RequestPostfix);
  }

  /** The literal checksum makes the console request a well-formed frame exactly for the serial and
      password whose checksum happens to be 0x079A; any other device rejects it. */
  lemma RequestIsFrameOnlyForOneChecksum(serial: string, password: string)
    ensures var body := ConsoleBody(serial, password);
      body + [0x9A, 0x07] == TextFrame(serial, password, body[|body| - 11..])
      <==> Sum(body[2..]) % U16 == 0x079A
  {
    var body := ConsoleBody(serial, password);
    var payload := body[|body| - 11..];
    assert body == LittleEndian16(PacketHeader) + [Version] + AuthText(serial, password) + payload;
    var x := Sum(body[2..]) % U16;
    assert TextFrame(serial, password, payload) == body + LittleEndian16(x);
    LittleEndian16Inverse([0x9A, 0x07]);
    if body + [0x9A, 0x07] == body + LittleEndian16(x) {
      assert LittleEndian16(x) == (body + LittleEndian16(x))[|body|..];
      assert [0x9A, 0x07] == (body + [0x9A, 0x07])[|body|..];
      assert ReadU16(0x9A, 0x07) == 0x079A;
    }
  }

  datatype ReplyKind = Generic | TemperatureKind

  datatype Reply = Reply(kind: ReplyKind, command: seq<Byte>, serial: seq<Byte>, password: seq<Byte>, payload: seq<Byte>)

  /** The console `Reply.ReadFrom`: three command bytes, then the serial and password behind their
      length bytes; the rest is the payload. Nothing is verified; a reply whose command bytes are
      `FD-FD-02` becomes a `TemperatureReply`. */
  function ReadFrom(buffer: seq<Byte>): (r: Result<Reply, Error>)
    ensures r.Ok? ==> (r.value.kind == TemperatureKind <==> r.value.command == [0xFD, 0xFD, Version])
    ensures r.Ok? ==>
      && |r.value.serial| < 256 && |r.value.password| < 256
      && r.value.command + AuthFields(r.value.serial, r.value.password) + r.value.payload == buffer
    ensures r.Err? ==> r.error == OutOfRange
  {
    var (command, rest) :- Eat(buffer, 3);
    var fields :- SplitAuth(rest);
    var kind := if command == [0xFD, 0xFD, Version] then TemperatureKind else Generic;
    Ok(Reply(kind, command, fields.serial, fields.password, fields.rest))
  }

  /** Whatever three command bytes lead a message, its auth fields and payload come back apart. */
  lemma ReadFromComposed(command: seq<Byte>, serial: seq<Byte>, password: seq<Byte>, payload: seq<Byte>)
    requires |command| == 3 && |serial| < 256 && |password| < 256
    ensures ReadFrom(command + AuthFields(serial, password) + payload).Ok?
    ensures ReadFrom(command + AuthFields(serial, password) + payload).value
      == Reply(if command == [0xFD, 0xFD, Version] then TemperatureKind else Generic, command, serial, password, payload)
  {
    var buffer := command + AuthFields(serial, password) + payload;
    assert buffer[..3] == command;
    assert buffer[3..] == AuthFields(serial, password) + payload;
    SplitAuthFields(serial, password, payload);
  }

  /** `TemperatureReply.OutsideTemperature`, in tenths: the signed value at payload offset 9. */
  function OutsideTemperature(reply: Reply): Result<int, Error>
    requires reply.kind == TemperatureKind
  {
    VentsTelemetry.Int16At(reply.payload, 9)
  }

  /** `TemperatureReply.FanOutTemperature`, in tenths: the signed value at payload offset 24. */
  function FanOutTemperature(reply: Reply): Result<int, Error>
    requires reply.kind == TemperatureKind
  {
    VentsTelemetry.Int16At(reply.payload, 24)
  }

  /** The console's two readings are the int16 values the unit stores at payload offsets 9 and 24. */
  lemma TemperatureReadings(reply: Reply, outside: int, fanOut: int)
    requires reply.kind == TemperatureKind
    requires -32768 <= outside <= 32767 && -32768 <= fanOut <= 32767
    requires |reply.payload| >= 26
    requires reply.payload[9..11] == EncodeI16(outside) && reply.payload[24..26] == EncodeI16(fanOut)
    ensures OutsideTemperature(reply) == Ok(outside)
    ensures FanOutTemperature(reply) == Ok(fanOut)
  {
    var p := reply.payload;
    assert p[9] == p[9..11][0] && p[10] == p[9..11][1];
    assert p[24] == p[24..26][0] && p[25] == p[24..26][1];
    ReadEncodedI16(outside);
    ReadEncodedI16(fanOut);
  }
}
