/** The smart-plug transport: an autokey XOR cipher seeded with 171 over the UTF-8 JSON text, and a
    four-byte big-endian length in front of each message. */
module Kasa {
  import opened Bytes
  import opened Wrappers
  import Utf8

  const InitialKey: Byte := 171

  /** The cipher text of `plain` under a running key: each output byte is the previous output byte
      (the seed for the first) XORed with the plaintext byte. */
  function Cipher(plain: seq<Byte>, key: Byte): (c: seq<Byte>)
    ensures |c| == |plain|
  {
    if plain == [] then [] else [Xor(key, plain[0])] + Cipher(plain[1..], Xor(key, plain[0]))
  }

  /** The plaintext of `cipher`: each byte is XORed with the previous cipher byte (the seed for the first). */
  function Decipher(cipher: seq<Byte>, key: Byte): (p: seq<Byte>)
    ensures |p| == |cipher|
  {
    if cipher == [] then [] else [Xor(cipher[0], key)] + Decipher(cipher[1..], cipher[0])
  }

  /** The running key at position `i` of a cipher text: the seed, then the previous cipher byte. */
  function KeyAt(cipher: seq<Byte>, key: Byte, i: nat): Byte
    requires i <= |cipher|
  {
    if i == 0 then key else cipher[i - 1]
  }

  lemma {:induction false} CipherAt(plain: seq<Byte>, key: Byte, i: nat)
    requires i < |plain|
    ensures Cipher(plain, key)[i] == Xor(KeyAt(Cipher(plain, key), key, i), plain[i])
    decreases i
  {
    var c := Cipher(plain, key);
    if i > 0 {
      var k := Xor(key, plain[0]);
      var rest := Cipher(plain[1..], k);
      assert c[i] == rest[i - 1];
      CipherAt(plain[1..], k, i - 1);
      assert plain[1..][i - 1] == plain[i];
      if i == 1 {
        assert KeyAt(c, key, i) == k;
      } else {
        assert KeyAt(c, key, i) == rest[i - 2];
      }
    }
  }

  lemma {:induction false} DecipherAt(cipher: seq<Byte>, key: Byte, i: nat)
    requires i < |cipher|
    ensures Decipher(cipher, key)[i] == Xor(cipher[i], KeyAt(cipher, key, i))
    decreases i
  {
    if i > 0 {
      var rest := Decipher(cipher[1..], cipher[0]);
      assert Decipher(cipher, key)[i] == rest[i - 1];
      DecipherAt(cipher[1..], cipher[0], i - 1);
      assert cipher[1..][i - 1] == cipher[i];
      if i > 1 {
        assert cipher[1..][i - 2] == cipher[i - 1];
      }
    }
  }

  /** Deciphering undoes ciphering under the same seed. */
  lemma DecipherCipher(plain: seq<Byte>, key: Byte)
    ensures Decipher(Cipher(plain, key), key) == plain
  {
    var c := Cipher(plain, key);
    var p := Decipher(c, key);
    forall i | 0 <= i < |plain| ensures p[i] == plain[i] {
      CipherAt(plain, key, i);
      DecipherAt(c, key, i);
      XorCancel(plain[i], KeyAt(c, key, i));
    }
  }

  /** Ciphering undoes deciphering: every byte sequence is the cipher text of exactly one plaintext. */
  lemma CipherDecipher(cipher: seq<Byte>, key: Byte)
    ensures Cipher(Decipher(cipher, key), key) == cipher
  {
    var p := Decipher(cipher, key);
    forall i | 0 <= i < |cipher| ensures Cipher(p, key)[i] == cipher[i] {
      CipherPrefix(p, key, cipher, i);
    }
  }

  lemma {:induction false} CipherPrefix(p: seq<Byte>, key: Byte, cipher: seq<Byte>, i: nat)
    requires p == Decipher(cipher, key) && i < |cipher|
    ensures Cipher(p, key)[i] == cipher[i]
    decreases i
  {
    var c := Cipher(p, key);
    if i > 0 {
      CipherPrefix(p, key, cipher, i - 1);
    }
    assert KeyAt(c, key, i) == KeyAt(cipher, key, i);
    CipherAt(p, key, i);
    DecipherAt(cipher, key, i);
    XorCancel(cipher[i], KeyAt(cipher, key, i));
  }

  /** `Encrypt`: the UTF-8 bytes of the JSON text, enciphered in place in the array that
      `GetBytes` returned. */
  method Encrypt(input: string) returns (bytes: array<Byte>)
    ensures fresh(bytes)
    ensures bytes[..] == Cipher(Utf8.Encode(input), InitialKey)
  {
    var plain := Utf8.Encode(input);
    bytes := new Byte[|plain|](i requires 0 <= i < |plain| => plain[i]);
    assert bytes[..] == plain;
    CipherInPlace(bytes);
  }

  /** The loop of `Encrypt`: each byte is XORed with the key, and the result becomes the next key. */
  method CipherInPlace(bytes: array<Byte>)
    modifies bytes
    ensures bytes[..] == Cipher(old(bytes[..]), InitialKey)
  {
    ghost var plain := bytes[..];
    ghost var c := Cipher(plain, InitialKey);
    var key := InitialKey;
    for i := 0 to bytes.Length
      invariant forall k :: 0 <= k < i ==> bytes[k] == c[k]
      invariant forall k :: i <= k < bytes.Length ==> bytes[k] == plain[k]
      invariant key == KeyAt(c, InitialKey, i)
    {
      CipherAt(plain, InitialKey, i);
      var b := bytes[i];
      key := Xor(key, b);
      bytes[i] := key;
    }
    assert bytes[..] == c;
  }

  /** `Decrypt`, up to the UTF-8 decoding of the result: the received array is deciphered in place. */
  method Decrypt(input: array<Byte>)
    modifies input
    ensures input[..] == Decipher(old(input[..]), InitialKey)
  {
    ghost var c := input[..];
    var key := InitialKey;
    for i := 0 to input.Length
      invariant forall k :: 0 <= k < i ==> input[k] == Decipher(c, InitialKey)[k]
      invariant forall k :: i <= k < input.Length ==> input[k] == c[k]
      invariant key == KeyAt(c, InitialKey, i)
    {
      DecipherAt(c, InitialKey, i);
      var b := input[i];
      input[i] := Xor(input[i], key);
      key := b;
    }
  }

  /** `GetBytes(HostToNetworkOrder(n))` on a little-endian host: a non-negative `int`, most
      significant byte first. */
  function LengthPrefix(n: nat): (r: seq<Byte>)
    requires n < 0x8000_0000
    ensures |r| == 4 && ReadLength(r) == n
  {
    [n / 256 / 256 / 256, n / 256 / 256 % 256, n / 256 % 256, n % 256]
  }

  /** `NetworkToHostOrder(ToInt32(result, 0))`: the first four bytes read big-endian and signed. */
  function ReadLength(b: seq<Byte>): (n: int)
    requires |b| >= 4
    ensures -0x8000_0000 <= n < 0x8000_0000
    ensures n < 0 <==> b[0] >= 0x80
  {
    var u: int := ((b[0] as int * 256 + b[1]) * 256 + b[2]) * 256 + b[3];
    if u >= 0x8000_0000 then u - 0x1_0000_0000 else u
  }

  /** `WriteRequestAsync`: what reaches the stream for one request. */
  function RequestBytes(message: seq<Byte>): (r: seq<Byte>)
    requires |message| < 0x8000_0000
    ensures |r| == 4 + |message| && r[..4] == LengthPrefix(|message|) && r[4..] == message
  {
    LengthPrefix(|message|) + message
  }

  datatype ReadError = TooShort | Overflow

  /** `ReadResult` when every read returns all the bytes available up to its buffer's size: fewer than
      four bytes throw, a negative length makes `new byte[length]` throw, and a body cut short is left
      zero-filled because the second read's count is ignored. */
  function ReadResult(received: seq<Byte>): (r: Result<seq<Byte>, ReadError>)
    ensures |received| < 4 ==> r == Err(TooShort)
    ensures |received| >= 4 ==> (r.Ok? <==> ReadLength(received) >= 0)
    ensures r.Ok? ==> |r.value| == ReadLength(received)
    ensures r.Ok? ==> forall i :: 0 <= i < |r.value| ==>
      r.value[i] == if 4 + i < |received| then received[4 + i] else 0
  {
    if |received| < 4 then Err(TooShort)
    else
      var length := ReadLength(received);
      if length < 0 then Err(Overflow)
      else
        var body := received[4..];
        Ok(seq(length, i requires 0 <= i < length => if i < |body| then body[i] else 0))
  }

  /** A message read from a stream that holds its request bytes, and perhaps more, comes back whole. */
  lemma ReadWrittenMessage(message: seq<Byte>, more: seq<Byte>)
    requires |message| < 0x8000_0000
    ensures ReadResult(RequestBytes(message) + more) == Ok(message)
  {
    var received := RequestBytes(message) + more;
    assert received[..4] == LengthPrefix(|message|);
    assert ReadLength(received) == ReadLength(received[..4]);
    var r := ReadResult(received).value;
    forall i | 0 <= i < |message| ensures r[i] == message[i] {
      assert received[4 + i] == message[i];
    }
    assert r == message;
  }

  /** A stream that ends before the announced length yields the bytes it had, then zeros. */
  lemma ShortBodyIsZeroFilled()
    ensures ReadResult([0, 0, 0, 3, 0xD0]) == Ok([0xD0, 0, 0])
  {
    var r := ReadResult([0, 0, 0, 3, 0xD0]).value;
    assert |r| == 3 && r[0] == 0xD0 && r[1] == 0 && r[2] == 0;
    assert r == [0xD0, 0, 0];
  }

  /** The JSON text of a request survives the whole path: enciphered, length-prefixed, read back and
      deciphered, it yields the same UTF-8 bytes. */
  lemma RequestRoundTrip(json: string, more: seq<Byte>)
    requires |Utf8.Encode(json)| < 0x8000_0000
    ensures var message := Cipher(Utf8.Encode(json), InitialKey);
      ReadResult(RequestBytes(message) + more) == Ok(message)
      && Decipher(message, InitialKey) == Utf8.Encode(json)
  {
    var plain := Utf8.Encode(json);
    var message := Cipher(plain, InitialKey);
    ReadWrittenMessage(message, more);
    DecipherCipher(plain, InitialKey);
  }
}
