/** Wire format shared by every revision of the ventilation-unit UDP client: the `FD FD 02` header,
    the length-prefixed serial and password, and the 16-bit additive checksum that closes a frame. */
module VentsWire {
  import opened Bytes
  import opened Wrappers
  import opened Utf8

  /** The exceptions the protocol code can raise, by kind. */
  datatype Error =
    | OutOfRange               // a span slice or index past the end of the buffer
    | HeaderMismatch           // first two bytes are not FD FD
    | ChecksumMismatch         // trailing checksum differs from the recomputed sum
    | VersionMismatch(version: Byte)
    | FunctionMismatch(code: Byte)
    | CommandMismatch          // reply command bytes differ from the expected reply subtype
    | FormatError              // `byte.Parse` met a non-hex character
    | KeyNotFound              // dictionary lookup of an absent item address
    | WrongWidth               // accessor applied to an item of the wrong byte width
    | ArgumentNull             // a required command-line argument is missing

  const PacketHeader: nat := 0xFDFD
  const Version: Byte := 0x02

  /** `Eat(ref buffer, length)`: split off the first `length` bytes; the slice throws when fewer remain. */
  function Eat(buffer: seq<Byte>, length: nat): (r: Result<(seq<Byte>, seq<Byte>), Error>)
    ensures r.Ok? <==> length <= |buffer|
    ensures r.Ok? ==> |r.value.0| == length && r.value.0 + r.value.1 == buffer
    ensures r.Err? ==> r.error == OutOfRange
  {
    if length <= |buffer| then Ok((buffer[..length], buffer[length..])) else Err(OutOfRange)
  }

  /** `Eat(ref buffer)`: take one byte; indexing an empty span throws. */
  function EatByte(buffer: seq<Byte>): (r: Result<(Byte, seq<Byte>), Error>)
    ensures r.Ok? <==> |buffer| > 0
    ensures r.Ok? ==> [r.value.0] + r.value.1 == buffer
  {
    if |buffer| > 0 then Ok((buffer[0], buffer[1..])) else Err(OutOfRange)
  }

  /** Serial and password, each behind a one-byte length: the `(byte)` cast keeps the low 8 bits. */
  function AuthFields(serial: seq<Byte>, password: seq<Byte>): seq<Byte>
  {
    [|serial| % 256] + serial + [|password| % 256] + password
  }

  datatype Fields = Fields(serial: seq<Byte>, password: seq<Byte>, rest: seq<Byte>)

  /** The reading side of `AuthFields`: eat a length byte and that many serial bytes, then the same
      for the password; whatever follows is left in `rest`. */
  function SplitAuth(buffer: seq<Byte>): (r: Result<Fields, Error>)
    ensures r.Ok? ==>
      && |r.value.serial| < 256 && |r.value.password| < 256
      && AuthFields(r.value.serial, r.value.password) + r.value.rest == buffer
    ensures r.Err? ==> r.error == OutOfRange
  {
    var (serialLength, b1) :- EatByte(buffer);
    var (serial, b2) :- Eat(b1, serialLength);
    var (passwordLength, b3) :- EatByte(b2);
    var (password, b4) :- Eat(b3, passwordLength);
    assert |serial| % 256 == serialLength && |password| % 256 == passwordLength;
    assert buffer == [serialLength] + (serial + ([passwordLength] + (password + b4)));
    assert AuthFields(serial, password) + b4 == [serialLength] + (serial + ([passwordLength] + (password + b4)));
    Ok(Fields(serial, password, b4))
  }

  /** A serial and password shorter than 256 bytes are recovered exactly, whatever follows them. */
  lemma SplitAuthFields(serial: seq<Byte>, password: seq<Byte>, rest: seq<Byte>)
    requires |serial| < 256 && |password| < 256
    ensures SplitAuth(AuthFields(serial, password) + rest) == Ok(Fields(serial, password, rest))
  {
    var buffer := AuthFields(serial, password) + rest;
    assert buffer == [|serial|] + (serial + ([|password|] + (password + rest)));
    assert buffer[1..] == serial + ([|password|] + (password + rest));
    assert buffer[1..][|serial|..] == [|password|] + (password + rest);
    assert buffer[1..][|serial|..][1..] == password + rest;
  }

  /** Everything a frame holds before its checksum: magic, version, auth fields, payload. */
  function CommandBody(serial: seq<Byte>, password: seq<Byte>, payload: seq<Byte>): seq<Byte>
  {
    LittleEndian16(PacketHeader) + [Version] + AuthFields(serial, password) + payload
  }

  /** A body followed by the little-endian sum of every byte after the two-byte magic. */
  function Seal(body: seq<Byte>): (f: seq<Byte>)
    requires |body| >= 2
    ensures |f| == |body| + 2 && f[..|body|] == body
    ensures body[..2] == LittleEndian16(PacketHeader) ==> CheckFrame(f) == Pass
  {
    var f := body + LittleEndian16(Sum(body[2..]) % U16);
    assert f[2..|f| - 2] == body[2..];
    assert f[..2] == body[..2];
    f
  }

  /** A complete frame: magic, version, auth fields, payload and checksum. */
  function Frame(serial: seq<Byte>, password: seq<Byte>, payload: seq<Byte>): (f: seq<Byte>)
    ensures |f| == 7 + |serial| + |password| + |payload|
    ensures f[..3] == [0xFD, 0xFD, Version]
    ensures CheckFrame(f) == Pass
  {
    var body := CommandBody(serial, password, payload);
    assert body[..2] == LittleEndian16(PacketHeader);
    Seal(body)
  }

  /** The auth fields as the clients write them from text: the serial's length byte counts its UTF-8
      bytes, but the password's counts UTF-16 code units (`password.Length`), and each is followed by
      its UTF-8 bytes. */
  function AuthText(serial: string, password: string): seq<Byte>
  {
    [|Encode(serial)| % 256] + Encode(serial) + [Utf16Length(password) % 256] + Encode(password)
  }

  /** For an ASCII password the two counts agree and the text fields are the byte fields. */
  lemma AuthTextAscii(serial: string, password: string)
    requires IsAscii(password)
    ensures AuthText(serial, password) == AuthFields(Encode(serial), Encode(password))
  {
    EncodedLengths(password);
  }

  /** A non-ASCII password is misframed: U+00E9 is announced as one byte, so the reader takes only
      its first UTF-8 byte as the password and leaves the second in front of the payload. */
  lemma AuthTextMisframesPassword(rest: seq<Byte>)
    ensures SplitAuth(AuthText([], [0xE9 as char]) + rest) == Ok(Fields([], [0xC3], [0xA9] + rest))
  {
    EAcute();
    var buffer := AuthText([], [0xE9 as char]) + rest;
    assert buffer == [0, 1, 0xC3] + ([0xA9] + rest);
    assert buffer[1..][0..] == [1, 0xC3] + ([0xA9] + rest);
    assert buffer[1..][0..][1..] == [0xC3] + ([0xA9] + rest);
  }

  /** The frame the clients send for text serial and password. */
  function TextFrame(serial: string, password: string, payload: seq<Byte>): (f: seq<Byte>)
    ensures CheckFrame(f) == Pass
  {
    var body := LittleEndian16(PacketHeader) + [Version] + AuthText(serial, password) + payload;
    assert body[..2] == LittleEndian16(PacketHeader);
    Seal(body)
  }

  lemma TextFrameAscii(serial: string, password: string, payload: seq<Byte>)
    requires IsAscii(password)
    ensures TextFrame(serial, password, payload) == Frame(Encode(serial), Encode(password), payload)
  {
    AuthTextAscii(serial, password);
  }

  /** `VerifyChecksum`: the header is read first (a buffer under 2 bytes throws), then the sum of
      `buffer[2..^2]` is compared with the last two bytes (a buffer under 4 bytes throws). */
  function CheckFrame(buffer: seq<Byte>): Outcome<Error>
  {
    if |buffer| < 2 then Fail(OutOfRange)
    else if ReadU16(buffer[0], buffer[1]) != PacketHeader then Fail(HeaderMismatch)
    else if |buffer| < 4 then Fail(OutOfRange)
    else if ReadU16(buffer[|buffer| - 2], buffer[|buffer| - 1]) != Sum(buffer[2..|buffer| - 2]) % U16
    then Fail(ChecksumMismatch)
    else Pass
  }

  method VerifyChecksum(buffer: seq<Byte>) returns (r: Outcome<Error>)
    ensures r == CheckFrame(buffer)
  {
    if |buffer| < 2 {
      return Fail(OutOfRange);
    }
    var received := ReadU16(buffer[0], buffer[1]);
    if received != PacketHeader {
      return Fail(HeaderMismatch);
    }
    if |buffer| < 4 {
      return Fail(OutOfRange);
    }
    var calculatedSum := Sum16(buffer[2..|buffer| - 2]);
    var checksumFromReply := ReadU16(buffer[|buffer| - 2], buffer[|buffer| - 1]);
    if checksumFromReply != calculatedSum {
      return Fail(ChecksumMismatch);
    }
    return Pass;
  }

  lemma {:induction false} SumUpdate(s: seq<Byte>, j: nat, b: Byte)
    requires j < |s|
    ensures Sum(s[j := b]) == Sum(s) - s[j] + b
  {
    var t := s[j := b];
    if j == |s| - 1 {
      assert t[..|t| - 1] == s[..|s| - 1];
    } else {
      assert t[..|t| - 1] == s[..|s| - 1][j := b];
      SumUpdate(s[..|s| - 1], j, b);
    }
  }

  /** A checksum-valid frame in which any one byte is changed is rejected: a changed header byte is a
      header mismatch, any other changed byte a checksum mismatch. */
  lemma SingleByteCorruptionRejected(f: seq<Byte>, i: nat, b: Byte)
    requires CheckFrame(f) == Pass
    requires i < |f| && b != f[i]
    ensures CheckFrame(f[i := b]) == (if i < 2 then Fail(HeaderMismatch) else Fail(ChecksumMismatch))
  {
    var g := f[i := b];
    var n := |f|;
    if i < 2 {
      assert ReadU16(g[0], g[1]) != ReadU16(f[0], f[1]);
    } else if i < n - 2 {
      BodyCorruptionChangesSum(f, i, b);
    } else {
      assert g[2..n - 2] == f[2..n - 2];
      assert ReadU16(g[n - 2], g[n - 1]) != ReadU16(f[n - 2], f[n - 1]);
    }
  }

  /** Changing one byte between the magic and the checksum changes the 16-bit sum. */
  lemma BodyCorruptionChangesSum(f: seq<Byte>, i: nat, b: Byte)
    requires 2 <= i < |f| - 2 && b != f[i]
    ensures Sum(f[i := b][2..|f| - 2]) % U16 != Sum(f[2..|f| - 2]) % U16
  {
    var n := |f|;
    assert f[i := b][2..n - 2] == f[2..n - 2][i - 2 := b];
    SumUpdate(f[2..n - 2], i - 2, b);
    SmallShiftChangesResidue(Sum(f[2..n - 2]), b - f[i]);
  }

  lemma SmallShiftChangesResidue(x: int, d: int)
    requires -256 < d < 256 && d != 0
    ensures (x + d) % U16 != x % U16
  {
  }

}
