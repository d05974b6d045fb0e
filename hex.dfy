/** `GetBytes`: pairwise hex-string decoding with `byte.Parse(…, AllowHexSpecifier)`.
    The same helper appears in the ventilation client of the service and in the console tool. */
module Hex {
  import opened Bytes
  import opened Wrappers

  predicate IsHexDigit(c: char) {
    '0' <= c <= '9' || 'a' <= c <= 'f' || 'A' <= c <= 'F'
  }

  function DigitValue(c: char): (v: nat)
    requires IsHexDigit(c)
    ensures v < 16
  {
    if '0' <= c <= '9' then c as int - '0' as int
    else if 'a' <= c <= 'f' then c as int - 'a' as int + 10
    else c as int - 'A' as int + 10
  }

  /** Characters `2i` and `2i+1` are both hex digits (what `byte.Parse` accepts for a two-char slice). */
  predicate IsHexPair(s: string, i: nat)
    requires 2 * i + 1 < |s|
  {
    IsHexDigit(s[2 * i]) && IsHexDigit(s[2 * i + 1])
  }

  function PairValue(s: string, i: nat): Byte
    requires 2 * i + 1 < |s| && IsHexPair(s, i)
  {
    16 * DigitValue(s[2 * i]) + DigitValue(s[2 * i + 1])
  }

  predicate AllHexPairs(s: string) {
    forall i: nat :: i < |s| / 2 ==> IsHexPair(s, i)
  }

  /** The decoded bytes; `None` is the `FormatException` of a non-hex pair.
      An odd trailing character is never looked at. */
  function HexBytes(s: string): (r: Option<seq<Byte>>)
    ensures r.Some? <==> AllHexPairs(s)
    ensures r.Some? ==> |r.value| == |s| / 2
    ensures r.Some? ==> forall i :: 0 <= i < |r.value| ==> r.value[i] == PairValue(s, i)
    decreases |s|
  {
    if |s| < 2 then Some([])
    else if !IsHexPair(s, 0) then None
    else
      PairsShift(s);
      match HexBytes(s[2..])
      case None => None
      case Some(rest) =>
        var r := [PairValue(s, 0)] + rest;
        assert forall i :: 1 <= i < |r| ==> r[i] == PairValue(s, i) by {
          forall i | 1 <= i < |r| ensures r[i] == PairValue(s, i) {
            PairShift(s, i);
          }
        }
        Some(r)
  }

  /** Dropping the first pair shifts every later pair down by one. */
  lemma PairShift(s: string, i: nat)
    requires 1 <= i < |s| / 2
    ensures IsHexPair(s[2..], i - 1) == IsHexPair(s, i)
    ensures IsHexPair(s, i) ==> PairValue(s[2..], i - 1) == PairValue(s, i)
  {
    assert s[2..][2 * (i - 1)] == s[2 * i] && s[2..][2 * (i - 1) + 1] == s[2 * i + 1];
  }

  lemma PairsShift(s: string)
    requires |s| >= 2 && IsHexPair(s, 0)
    ensures AllHexPairs(s) <==> AllHexPairs(s[2..])
  {
    if AllHexPairs(s) {
      forall j: nat | j < |s[2..]| / 2 ensures IsHexPair(s[2..], j) {
        PairShift(s, j + 1);
      }
    }
    if AllHexPairs(s[2..]) {
      forall i: nat | i < |s| / 2 ensures IsHexPair(s, i) {
        if i > 0 { PairShift(s, i); }
      }
    }
  }

  /** The loop of `GetBytes`: fills `new byte[s.Length / 2]` pair by pair and throws at the first bad pair. */
  method GetBytes(s: string) returns (r: Option<seq<Byte>>)
    ensures r == HexBytes(s)
  {
    var result := new Byte[|s| / 2];
    for i := 0 to result.Length
      invariant forall k :: 0 <= k < i ==> IsHexPair(s, k) && result[k] == PairValue(s, k)
    {
      if !IsHexPair(s, i) {
        return None;
      }
      result[i] := PairValue(s, i);
    }
    r := Some(result[..]);
    assert r.value == HexBytes(s).value;
  }

  function HexDigit(v: nat): (c: char)
    requires v < 16
    ensures IsHexDigit(c) && DigitValue(c) == v
  {
    if v < 10 then ('0' as int + v) as char else ('a' as int + v - 10) as char
  }

  /** Lower-case hex rendering, the inverse partner of `HexBytes` (the source writes its command
      constants in this form). */
  function ToHex(b: seq<Byte>): (s: string)
    ensures |s| == 2 * |b|
  {
    if b == [] then "" else [HexDigit(b[0] / 16), HexDigit(b[0] % 16)] + ToHex(b[1..])
  }

  lemma {:induction false} HexBytesOfToHex(b: seq<Byte>)
    ensures HexBytes(ToHex(b)) == Some(b)
  {
    if b != [] {
      var s := ToHex(b);
      HexBytesOfToHex(b[1..]);
      assert s[2..] == ToHex(b[1..]);
      assert IsHexPair(s, 0);
      assert PairValue(s, 0) == b[0];
      assert HexBytes(s) == Some([b[0]] + b[1..]);
      assert [b[0]] + b[1..] == b;
    }
  }
}
