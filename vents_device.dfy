/** The `Device` client of the console tool: compose an authenticated request frame, and validate and
    decode a reply frame into its item dictionary. The socket exchange is not modelled; only the
    bytes sent and the bytes parsed are. */
module VentsDevice {
  import opened Bytes
  import opened Wrappers
  import opened VentsWire
  import opened Utf8
  import opened ItemStream

  const FunctionReply: Byte := 0x06

  /** `ComposeCommand`: header, version, auth fields and payload concatenated, then the `ushort`
      checksum loop over every byte after the magic, appended low byte first. The password's length
      byte is `password.Length`, not the length of its UTF-8 bytes. */
  method ComposeCommand(serial: string, password: string, payload: seq<Byte>) returns (frame: seq<Byte>)
    ensures frame == TextFrame(serial, password, payload)
    ensures IsAscii(password) ==> frame == Frame(Encode(serial), Encode(password), payload)
  {
    var serialBytes := Encode(serial);
    var passwordBytes := Encode(password);
    var command := LittleEndian16(PacketHeader) + [Version]
      + [|serialBytes| % 256] + serialBytes
      + [Utf16Length(password) % 256] + passwordBytes
      + payload;
    assert command == LittleEndian16(PacketHeader) + [Version] + AuthText(serial, password) + payload;
    var calculatedSum := Sum16(command[2..]);
    frame := command + LittleEndian16(calculatedSum);
    if IsAscii(password) {
      TextFrameAscii(serial, password, payload);
    }
  }

  /** The request `ReadAddresses` sends: the read payload for the addresses, framed. */
  method ReadAddressesRequest(serial: string, password: string, addresses: seq<nat>) returns (request: seq<Byte>)
    ensures request == TextFrame(serial, password, ReadRequest(addresses))
  {
    var command := ReadAddressesPayload(addresses);
    request := ComposeCommand(serial, password, command);
  }

  /** What `ReadReply` returns or throws for a received datagram: checksum and header first, then the
      version byte, the serial and password (read and dropped), the function byte, and the item
      stream with the checksum still attached. */
  function DecodeReply(buffer: seq<Byte>): Result<Items, Error>
  {
    var check := CheckFrame(buffer);
    if check.Fail? then Err(check.error)
    else
      var afterMagic := buffer[2..];
      var version := afterMagic[0];
      if version != Version then Err(VersionMismatch(version))
      else
        var fields :- SplitAuth(afterMagic[1..]);
        var (functionByte, stream) :- EatByte(fields.rest);
        if functionByte != FunctionReply then Err(FunctionMismatch(functionByte))
        else ParseFrom(stream, 0, 1, map[])
  }

  /** `ReadReply`, advancing one span through the frame. */
  method ReadReply(buffer: seq<Byte>) returns (r: Result<Items, Error>)
    ensures r == DecodeReply(buffer)
  {
    var check := VerifyChecksum(buffer);
    if check.Fail? {
      return Err(check.error);
    }
    var buf := buffer[2..];
    var version := buf[0];
    buf := buf[1..];
    if version != Version {
      return Err(VersionMismatch(version));
    }
    var serialLength := buf[0];
    buf := buf[1..];
    var serialBytes := Eat(buf, serialLength);
    if serialBytes.Err? {
      return Err(serialBytes.error);
    }
    buf := serialBytes.value.1;
    var passwordLength := EatByte(buf);
    if passwordLength.Err? {
      return Err(passwordLength.error);
    }
    buf := passwordLength.value.1;
    var passwordBytes := Eat(buf, passwordLength.value.0);
    if passwordBytes.Err? {
      return Err(passwordBytes.error);
    }
    buf := passwordBytes.value.1;
    var functionByte := EatByte(buf);
    if functionByte.Err? {
      return Err(functionByte.error);
    }
    buf := functionByte.value.1;
    if functionByte.value.0 != FunctionReply {
      return Err(FunctionMismatch(functionByte.value.0));
    }
    r := ParseItems(buf);
  }

  /** How `ReadReply` sees a composed frame: it passes the checksum and version checks, the auth fields
      come back, and the function byte and item stream are the payload with the checksum behind it. */
  lemma DecodeFrame(serial: seq<Byte>, password: seq<Byte>, payload: seq<Byte>)
    requires |serial| < 256 && |payload| > 0 && |password| < 256
    ensures var f := Frame(serial, password, payload);
      DecodeReply(f) == if payload[0] != FunctionReply then Err(FunctionMismatch(payload[0]))
                        else ParseFrom(payload[1..] + f[|f| - 2..], 0, 1, map[])
  {
    var f := Frame(serial, password, payload);
    var checksum := f[|f| - 2..];
    var rest := payload + checksum;
    assert f[2..][0] == Version && f[2..][1..] == AuthFields(serial, password) + rest by {
      FrameAfterMagic(serial, password, payload);
    }
    assert SplitAuth(f[2..][1..]) == Ok(Fields(serial, password, rest)) by {
      SplitAuthFields(serial, password, rest);
    }
    assert EatByte(rest) == Ok((payload[0], payload[1..] + checksum)) by {
      EatLeading(payload, checksum);
    }
    DecodeValidated(f, Fields(serial, password, rest), payload[0], payload[1..] + checksum);
  }

  /** Once the checksum, the version and the auth fields pass, the function byte decides the outcome. */
  lemma DecodeValidated(buffer: seq<Byte>, fields: Fields, functionByte: Byte, stream: seq<Byte>)
    requires CheckFrame(buffer) == Pass && |buffer| > 2 && buffer[2..][0] == Version
    requires SplitAuth(buffer[2..][1..]) == Ok(fields)
    requires EatByte(fields.rest) == Ok((functionByte, stream))
    ensures DecodeReply(buffer) == if functionByte != FunctionReply then Err(FunctionMismatch(functionByte))
                                   else ParseFrom(stream, 0, 1, map[])
  {
  }

  lemma EatLeading(payload: seq<Byte>, tail: seq<Byte>)
    requires |payload| > 0
    ensures EatByte(payload + tail) == Ok((payload[0], payload[1..] + tail))
  {
    assert (payload + tail)[1..] == payload[1..] + tail;
  }

  /** Behind the magic a frame holds the version, the auth fields, the payload and the checksum. */
  lemma FrameAfterMagic(serial: seq<Byte>, password: seq<Byte>, payload: seq<Byte>)
    ensures var f := Frame(serial, password, payload);
      f[2..] == [Version] + (AuthFields(serial, password) + (payload + f[|f| - 2..]))
  {
    var f := Frame(serial, password, payload);
    assert f == CommandBody(serial, password, payload) + f[|f| - 2..];
  }

  /** A reply built by the same framing, carrying function byte 06 and an encoded item list, decodes
      to exactly the dictionary that list denotes (for a serial and password under 256 bytes). */
  lemma DecodeComposedReply(serial: seq<Byte>, password: seq<Byte>, es: seq<Entry>)
    requires |serial| < 256 && |password| < 256
    requires forall i :: 0 <= i < |es| ==> Encodable(es[i])
    ensures DecodeReply(Frame(serial, password, [FunctionReply] + EncodeFrom(es, 0))) == Ok(Collect(es, map[]))
  {
    var payload := [FunctionReply] + EncodeFrom(es, 0);
    var f := Frame(serial, password, payload);
    DecodeFrame(serial, password, payload);
    assert payload[1..] == EncodeFrom(es, 0);
    ParseEncoded(es, 0, map[], f[|f| - 2..]);
  }
}
