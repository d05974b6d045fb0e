/** The CO2 monitor's HID reports: the eight-byte Holtek/ZyTemp decryption (byte shuffle with key
    XOR, a three-bit rotation across the eight bytes, subtraction of a nibble-swapped salt) and the
    opcode that says which quantity a decrypted report carries. */
module Holtek {
  import opened Bytes

  /** `shuffle`: the source index of each decrypted byte; it is its own inverse. */
  const Shuffle: seq<nat> := [2, 4, 0, 7, 1, 6, 5, 3]
  const Key: seq<Byte> := [0xC4, 0xC6, 0xC0, 0x92, 0x40, 0x23, 0xDC, 0x96]
  /** `cstate`: the ASCII salt "Htemp99e". */
  const Salt: seq<Byte> := [0x48, 0x74, 0x65, 0x6D, 0x70, 0x39, 0x39, 0x65]

  predicate IsReport(d: seq<Byte>) { |d| == 8 }

  lemma ShuffleInvolution()
    ensures forall i :: 0 <= i < 8 ==> Shuffle[i] < 8 && Shuffle[Shuffle[i]] == i
  {
  }

  /** First loop: byte `i` goes to position `Shuffle[i]` and is XORed with that position's key byte. */
  function Unshuffled(d: seq<Byte>): (t: seq<Byte>)
    requires IsReport(d)
    ensures IsReport(t)
  {
    ShuffleInvolution();
    seq(8, j requires 0 <= j < 8 => Xor(d[Shuffle[j]], Key[j]))
  }

  /** Second loop: the eight bytes, read as one 64-bit big-endian word, rotated right by three bits. */
  function RotatedRight(t: seq<Byte>): (r: seq<Byte>)
    requires IsReport(t)
    ensures IsReport(r)
  {
    seq(8, i requires 0 <= i < 8 => t[i] / 8 + t[(i + 7) % 8] % 8 * 32)
  }

  /** Third loop: each salt byte with its nibbles swapped. */
  function SwappedSalt(): (c: seq<Byte>)
    ensures IsReport(c)
  {
    seq(8, i requires 0 <= i < 8 => Salt[i] / 16 + Salt[i] % 16 * 16)
  }

  /** Fourth loop: the swapped salt subtracted modulo 256. */
  function Unsalted(t1: seq<Byte>): (p: seq<Byte>)
    requires IsReport(t1)
    ensures IsReport(p)
  {
    var c := SwappedSalt();
    seq(8, i requires 0 <= i < 8 => (0x100 + t1[i] as int - c[i]) % 256)
  }

  /** The decrypted report: the four steps in order. */
  function Decrypted(d: seq<Byte>): (p: seq<Byte>)
    requires IsReport(d)
    ensures IsReport(p)
  {
    Unsalted(RotatedRight(Unshuffled(d)))
  }

  /** `DecryptHoltekZytempReport`: decrypts the first eight bytes in place through three scratch arrays
      (one loop each, below) and a last loop that writes back; any later byte is left alone. */
  method DecryptReport(data: array<Byte>)
    requires data.Length >= 8
    modifies data
    ensures data[..8] == Decrypted(old(data[..8]))
    ensures data[8..] == old(data[8..])
  {
    var temp := UnshuffleLoop(data);
    var temp1 := RotateLoop(temp);
    var ctemp := SaltLoop();
    SubtractLoop(data, temp1, ctemp);
  }

  /** Last loop: the salt subtracted modulo 256, written back over the first eight bytes. */
  method SubtractLoop(data: array<Byte>, temp1: array<Byte>, ctemp: array<Byte>)
    requires data.Length >= 8 && temp1.Length == 8 && ctemp[..] == SwappedSalt()
    requires data != temp1 && data != ctemp
    modifies data
    ensures data[..8] == Unsalted(temp1[..])
    ensures data[8..] == old(data[8..])
  {
    for i := 0 to 8
      modifies data
      invariant forall k :: 0 <= k < i ==> data[k] == (0x100 + temp1[k] as int - ctemp[k]) % 256
      invariant forall k :: 8 <= k < data.Length ==> data[k] == old(data[k])
    {
      data[i] := (0x100 + temp1[i] as int - ctemp[i]) % 256;
    }
    UnsaltedAt(temp1[..], ctemp[..], data[..8]);
  }

  /** Bytes equal to the salt subtraction, position by position, are the unsalted report. */
  lemma UnsaltedAt(t1: seq<Byte>, c: seq<Byte>, p: seq<Byte>)
    requires IsReport(t1) && IsReport(p) && c == SwappedSalt()
    requires forall k :: 0 <= k < 8 ==> p[k] == (0x100 + t1[k] as int - c[k]) % 256
    ensures p == Unsalted(t1)
  {
  }

  /** First loop of the decryption: scatter through the shuffle and XOR with the key. */
  method UnshuffleLoop(data: array<Byte>) returns (temp: array<Byte>)
    requires data.Length >= 8
    ensures fresh(temp) && temp[..] == Unshuffled(data[..8])
  {
    ghost var d := data[..8];
    ghost var u := Unshuffled(d);
    ShuffleInvolution();
    temp := new Byte[8];
    for i := 0 to 8
      modifies temp
      invariant forall k :: 0 <= k < i ==> temp[Shuffle[k]] == Xor(d[k], Key[Shuffle[k]])
    {
      var di := Shuffle[i];
      temp[di] := data[i];
      temp[di] := Xor(temp[di], Key[di]);
    }
    forall j | 0 <= j < 8 ensures temp[j] == u[j] {
      assert temp[Shuffle[Shuffle[j]]] == Xor(d[Shuffle[j]], Key[Shuffle[Shuffle[j]]]);
    }
  }

  /** Second loop: each byte's top three bits come from the low three bits of the byte before it. */
  method RotateLoop(temp: array<Byte>) returns (temp1: array<Byte>)
    requires temp.Length == 8
    ensures fresh(temp1) && temp1[..] == RotatedRight(temp[..])
  {
    ghost var r := RotatedRight(temp[..]);
    temp1 := new Byte[8];
    for i := 0 to 8
      modifies temp1
      invariant forall k :: 0 <= k < i ==> temp1[k] == r[k]
    {
      var oi := (i - 1 + 8) % 8;
      temp1[i] := temp[i] / 8 + temp[oi] % 8 * 32;
    }
  }

  /** Third loop: the salt with each byte's nibbles swapped. */
  method SaltLoop() returns (ctemp: array<Byte>)
    ensures fresh(ctemp) && ctemp[..] == SwappedSalt()
  {
    ghost var c := SwappedSalt();
    var cstate := Salt;
    ctemp := new Byte[8];
    for i := 0 to 8
      modifies ctemp
      invariant forall k :: 0 <= k < i ==> ctemp[k] == c[k]
    {
      ctemp[i] := cstate[i] / 16 + cstate[i] % 16 * 16;
    }
  }

  /** The sensor's side, the inverse of each step in reverse order: add the swapped salt, rotate
      left by three bits, then XOR with the key and scatter back through the shuffle. */
  function Salted(p: seq<Byte>): (t1: seq<Byte>)
    requires IsReport(p)
    ensures IsReport(t1)
  {
    var c := SwappedSalt();
    seq(8, i requires 0 <= i < 8 => (p[i] as int + c[i]) % 256)
  }

  function RotatedLeft(t1: seq<Byte>): (t: seq<Byte>)
    requires IsReport(t1)
    ensures IsReport(t)
  {
    seq(8, i requires 0 <= i < 8 => t1[i] % 32 * 8 + t1[(i + 1) % 8] / 32)
  }

  function Scattered(t: seq<Byte>): (d: seq<Byte>)
    requires IsReport(t)
    ensures IsReport(d)
  {
    ShuffleInvolution();
    seq(8, i requires 0 <= i < 8 => Xor(t[Shuffle[i]], Key[Shuffle[i]]))
  }

  function Encrypted(p: seq<Byte>): (d: seq<Byte>)
    requires IsReport(p)
    ensures IsReport(d)
  {
    Scattered(RotatedLeft(Salted(p)))
  }

  lemma UnshuffleScattered(t: seq<Byte>)
    requires IsReport(t)
    ensures Unshuffled(Scattered(t)) == t
  {
    ShuffleInvolution();
    forall j | 0 <= j < 8 ensures Unshuffled(Scattered(t))[j] == t[j] {
      XorCancel(t[j], Key[j]);
    }
  }

  lemma RotateRightLeft(t1: seq<Byte>)
    requires IsReport(t1)
    ensures RotatedRight(RotatedLeft(t1)) == t1
  {
    var t := RotatedLeft(t1);
    forall i | 0 <= i < 8 ensures RotatedRight(t)[i] == t1[i] {
      var j := (i + 7) % 8;
      assert (j + 1) % 8 == i;
      RotateBits(t1[j], t1[i], t1[(i + 1) % 8]);
    }
  }

  /** Byte `x` between its neighbours `w` and `y`: rotating left moves its low five bits up and its top
      three bits into `w`; rotating right brings both parts back. */
  lemma RotateBits(w: Byte, x: Byte, y: Byte)
    ensures (x % 32 * 8 + y / 32) / 8 + (w % 32 * 8 + x / 32) % 8 * 32 == x
  {
    assert (x % 32 * 8 + y / 32) / 8 == x % 32;
    assert (w % 32 * 8 + x / 32) % 8 == x / 32;
  }

  lemma UnsaltSalted(p: seq<Byte>)
    requires IsReport(p)
    ensures Unsalted(Salted(p)) == p
  {
    var c := SwappedSalt();
    forall i | 0 <= i < 8 ensures Unsalted(Salted(p))[i] == p[i] {
      AddSubtractMod(p[i], c[i]);
    }
  }

  lemma AddSubtractMod(x: Byte, c: Byte)
    ensures (0x100 + (x as int + c) % 256 - c) % 256 == x
  {
  }

  /** Every encrypted report decrypts to what was encrypted. */
  lemma DecryptEncrypted(p: seq<Byte>)
    requires IsReport(p)
    ensures Decrypted(Encrypted(p)) == p
  {
    var t1 := Salted(p);
    UnshuffleScattered(RotatedLeft(t1));
    assert Unshuffled(Encrypted(p)) == RotatedLeft(t1);
    RotateRightLeft(t1);
    UnsaltSalted(p);
  }

  /** What a decrypted report says, by its opcode byte: `P` a CO2 concentration in ppm, `B` a
      temperature in sixteenths of a kelvin; any other opcode names no time series. */
  datatype Reading = Co2(ppm: nat) | Temperature(sixteenthsKelvin: nat) | Unnamed(opcode: Byte)

  const OpcodeCo2: Byte := 0x50          // 'P'
  const OpcodeTemperature: Byte := 0x42  // 'B'

  /** `rawValue`: bytes 1 and 2, big-endian. */
  function RawValue(p: seq<Byte>): (v: nat)
    requires |p| >= 3
    ensures v < 65536 && v / 256 == p[1] && v % 256 == p[2]
  {
    p[1] as int * 256 + p[2]
  }

  function Classify(p: seq<Byte>): (r: Reading)
    requires |p| >= 3
    ensures r.Co2? <==> p[0] == OpcodeCo2
    ensures r.Temperature? <==> p[0] == OpcodeTemperature
    ensures r.Co2? ==> r.ppm == RawValue(p)
    ensures r.Temperature? ==> r.sixteenthsKelvin == RawValue(p)
    ensures r.Unnamed? ==> r.opcode == p[0]
  {
    if p[0] == OpcodeCo2 then Co2(RawValue(p))
    else if p[0] == OpcodeTemperature then Temperature(RawValue(p))
    else Unnamed(p[0])
  }

  /** `ParseAndPublishReading` up to the store: decrypt in place, then classify. */
  method ParseReading(data: array<Byte>) returns (reading: Reading)
    requires data.Length >= 8
    modifies data
    ensures reading == Classify(Decrypted(old(data[..8])))
  {
    DecryptReport(data);
    assert data[..8][..3] == data[..3];
    var rawValue := data[1] as int * 256 + data[2];
    if data[0] == OpcodeCo2 {
      reading := Co2(rawValue);
    } else if data[0] == OpcodeTemperature {
      reading := Temperature(rawValue);
    } else {
      reading := Unnamed(data[0]);
    }
  }

  /** `PublishNextReading`: a nine-byte HID read whose leading report-id zero, if any, is dropped. */
  function Stripped(report: seq<Byte>): (d: seq<Byte>)
    requires |report| == 9
    ensures |d| >= 8
    ensures report[0] == 0 ==> d == report[1..]
    ensures report[0] != 0 ==> d == report
  {
    if report[0] == 0 then report[1..] else report
  }

  method PublishNextReading(report: seq<Byte>) returns (reading: Reading)
    requires |report| == 9
    ensures reading == Classify(Decrypted(Stripped(report)[..8]))
  {
    var d := Stripped(report);
    var data := new Byte[|d|](i requires 0 <= i < |d| => d[i]);
    assert data[..8] == d[..8];
    reading := ParseReading(data);
  }

  /** A report the sensor encrypted, read behind a zero report-id byte, is classified as its plaintext. */
  lemma ReportReadsBack(p: seq<Byte>)
    requires IsReport(p)
    ensures Classify(Decrypted(Stripped([0] + Encrypted(p))[..8])) == Classify(p)
  {
    StrippedZeroLead(Encrypted(p));
    DecryptEncrypted(p);
  }

  lemma StrippedZeroLead(e: seq<Byte>)
    requires IsReport(e)
    ensures Stripped([0] + e)[..8] == e
  {
    assert ([0] + e)[1..] == e;
  }

  /** An encrypted `P` report carrying a big-endian concentration is published as that concentration. */
  lemma Co2ReportReadsBack(ppm: nat, rest: seq<Byte>)
    requires ppm < 65536 && |rest| == 5
    ensures Classify(Decrypted(Stripped([0] + Encrypted([OpcodeCo2, ppm / 256, ppm % 256] + rest))[..8])) == Co2(ppm)
  {
    ReportReadsBack([OpcodeCo2, ppm / 256, ppm % 256] + rest);
  }
}
