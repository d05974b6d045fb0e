/** `Encoding.UTF8.GetBytes` and `string.Length` (UTF-16 code units) on Unicode scalar values:
    the two measures the clients mix when they write the auth fields. */
module Utf8 {
  import opened Bytes

  /** The UTF-8 encoding of one scalar value, one to four bytes. */
  function EncodeChar(c: char): (r: seq<Byte>)
    ensures 1 <= |r| <= 4
    ensures |r| == 1 <==> c as int < 0x80
    ensures |r| == 4 <==> c as int >= 0x10000
  {
    var n := c as int;
    if n < 0x80 then [n]
    else if n < 0x800 then [0xC0 + n / 64, 0x80 + n % 64]
    else if n < 0x10000 then [0xE0 + n / 4096, 0x80 + n / 64 % 64, 0x80 + n % 64]
    else [0xF0 + n / 262144, 0x80 + n / 4096 % 64, 0x80 + n / 64 % 64, 0x80 + n % 64]
  }

  function Encode(s: string): seq<Byte>
  {
    if s == [] then [] else EncodeChar(s[0]) + Encode(s[1..])
  }

  /** `string.Length`: characters outside the Basic Multilingual Plane take a surrogate pair. */
  function Utf16Length(s: string): nat
  {
    if s == [] then 0 else (if s[0] as int >= 0x10000 then 2 else 1) + Utf16Length(s[1..])
  }

  predicate IsAscii(s: string) {
    forall i :: 0 <= i < |s| ==> s[i] as int < 0x80
  }

  /** Every character takes at least as many UTF-8 bytes as UTF-16 code units, and the two counts
      agree exactly when the text is ASCII. */
  lemma {:induction false} EncodedLengths(s: string)
    ensures |Encode(s)| >= Utf16Length(s)
    ensures |Encode(s)| == Utf16Length(s) <==> IsAscii(s)
    decreases |s|
  {
    if s != [] {
      EncodedLengths(s[1..]);
      if IsAscii(s) {
        assert IsAscii(s[1..]) by {
          forall i | 0 <= i < |s[1..]| ensures s[1..][i] as int < 0x80 { assert s[1..][i] == s[i + 1]; }
        }
      }
    }
  }

  /** An ASCII string encodes to its own code points, one byte each. */
  lemma {:induction false} EncodeAscii(s: string)
    requires IsAscii(s)
    ensures |Encode(s)| == |s|
    ensures forall i :: 0 <= i < |s| ==> Encode(s)[i] == s[i] as int
    decreases |s|
  {
    if s != [] {
      assert IsAscii(s[1..]) by {
        forall i | 0 <= i < |s[1..]| ensures s[1..][i] as int < 0x80 { assert s[1..][i] == s[i + 1]; }
      }
      EncodeAscii(s[1..]);
      forall i | 1 <= i < |s| ensures Encode(s)[i] == s[i] as int {
        assert Encode(s)[i] == Encode(s[1..])[i - 1];
        assert s[1..][i - 1] == s[i];
      }
    }
  }

  /** U+00E9 (e with acute accent) is one UTF-16 code unit but two UTF-8 bytes. */
  lemma EAcute()
    ensures Encode([0xE9 as char]) == [0xC3, 0xA9]
    ensures Utf16Length([0xE9 as char]) == 1
  {
    assert [0xE9 as char][1..] == [];
  }
}
