/** The console helper that breaks a simple substitution cipher by hand: a list of ciphertext
    characters ordered by frequency, a parallel list of plaintext guesses seeded with English letter
    frequencies, edit commands that rearrange the guesses in place, and the decryption they give. */
module Substitution {
  import opened Wrappers

  /** `ArgumentOutOfRangeException` / `IndexOutOfRangeException` from a list or string index. */
  datatype Error = IndexOutOfRange

  /** A `List<char>` the helpers change in place. */
  class CharList {
    var items: seq<char>

    constructor(s: seq<char>)
      ensures items == s
    {
      items := s;
    }
  }

  predicate Distinct(s: seq<char>) {
    forall i, j :: 0 <= i < j < |s| ==> s[i] != s[j]
  }

  /** `List.IndexOf`: the first position holding `c`, or -1. */
  function IndexOf(s: seq<char>, c: char): (r: int)
    ensures -1 <= r < |s|
    ensures r == -1 <==> c !in s
    ensures r >= 0 ==> s[r] == c && c !in s[..r]
  {
    if s == [] then -1
    else if s[0] == c then 0
    else
      var k := IndexOf(s[1..], c);
      assert s[1..][..if k < 0 then 0 else k] == s[1..if k < 0 then 1 else k + 1];
      if k < 0 then -1 else k + 1
  }

  /** In a list without repeats, `IndexOf` finds the one position holding the character. */
  lemma IndexOfDistinct(s: seq<char>, i: nat)
    requires Distinct(s) && i < |s|
    ensures IndexOf(s, s[i]) == i
  {
  }

  /** `IndexOf` is the one position that holds the character with no earlier copy. */
  lemma IndexOfUnique(s: seq<char>, c: char, k: nat)
    requires k < |s| && s[k] == c && c !in s[..k]
    ensures IndexOf(s, c) == k
  {
    var r := IndexOf(s, c);
    forall i | 0 <= i < k ensures s[i] != c {
      assert s[..k][i] == s[i];
    }
    forall i | 0 <= i < r ensures s[i] != c {
      assert s[..r][i] == s[i];
    }
  }

  lemma IndexOfInPrefix(p: seq<char>, q: seq<char>, c: char)
    requires c in p
    ensures IndexOf(p + q, c) == IndexOf(p, c)
  {
    var k := IndexOf(p, c);
    assert (p + q)[..k] == p[..k];
    IndexOfUnique(p + q, c, k);
  }

  lemma IndexOfAppended(p: seq<char>, c: char)
    requires c !in p
    ensures IndexOf(p + [c], c) == |p|
  {
    assert (p + [c])[..|p|] == p;
    IndexOfUnique(p + [c], c, |p|);
  }

  // ---------------------------------------------------------------------------------------------
  // Swap

  /** The guesses after `Swap(v1, v2)`: nothing when either letter is absent, otherwise the first
      `v1` becomes `v2` and then the first `v2` becomes `v1`. */
  function Swapped(s: seq<char>, v1: char, v2: char): seq<char>
  {
    var k1 := IndexOf(s, v1);
    var k2 := IndexOf(s, v2);
    if k1 < 0 || k2 < 0 then s else s[k1 := v2][k2 := v1]
  }

  method Swap(substitutions: CharList, v1: char, v2: char)
    modifies substitutions
    ensures substitutions.items == Swapped(old(substitutions.items), v1, v2)
  {
    var keyV1 := IndexOf(substitutions.items, v1);
    var keyV2 := IndexOf(substitutions.items, v2);
    if keyV1 < 0 || keyV2 < 0 {
      return;
    }
    substitutions.items := substitutions.items[keyV1 := v2];
    substitutions.items := substitutions.items[keyV2 := v1];
  }

  /** `Swap` exchanges the first occurrences of the two letters and touches no other slot; the
      list keeps its length and its letters. */
  lemma SwappedExchanges(s: seq<char>, v1: char, v2: char)
    ensures |Swapped(s, v1, v2)| == |s| && multiset(Swapped(s, v1, v2)) == multiset(s)
    ensures v1 !in s || v2 !in s ==> Swapped(s, v1, v2) == s
    ensures v1 in s && v2 in s ==>
      var r := Swapped(s, v1, v2);
      && r[IndexOf(s, v1)] == v2 && r[IndexOf(s, v2)] == v1
      && forall i :: 0 <= i < |s| && i != IndexOf(s, v1) && i != IndexOf(s, v2) ==> r[i] == s[i]
  {
    var k1 := IndexOf(s, v1);
    var k2 := IndexOf(s, v2);
    if k1 >= 0 && k2 >= 0 {
      ExchangeSlots(s, k1, k2, v1, v2);
    }
  }

  /** Writing `v2` at `k1` and then `v1` at `k2`, where those letters stood, exchanges the two slots. */
  lemma ExchangeSlots(s: seq<char>, k1: nat, k2: nat, v1: char, v2: char)
    requires k1 < |s| && k2 < |s| && s[k1] == v1 && s[k2] == v2
    ensures var r := s[k1 := v2][k2 := v1];
      && |r| == |s| && multiset(r) == multiset(s)
      && r[k1] == v2 && r[k2] == v1
      && forall i :: 0 <= i < |s| && i != k1 && i != k2 ==> r[i] == s[i]
  {
    var t := s[k1 := v2];
    assert t[k2] == v2;
    UpdateMultiset(s, k1, v2);
    UpdateMultiset(t, k2, v1);
  }

  lemma UpdateMultiset(s: seq<char>, k: nat, c: char)
    requires k < |s|
    ensures multiset(s[k := c]) == multiset(s) - multiset{s[k]} + multiset{c}
  {
  }

  /** On a list without repeats `Swap` keeps it without repeats and undoes itself. */
  lemma SwapInvolution(s: seq<char>, v1: char, v2: char)
    requires Distinct(s)
    ensures Distinct(Swapped(s, v1, v2))
    ensures Swapped(Swapped(s, v1, v2), v1, v2) == s
  {
    var k1 := IndexOf(s, v1);
    var k2 := IndexOf(s, v2);
    if k1 >= 0 && k2 >= 0 && k1 != k2 {
      var r := s[k1 := v2][k2 := v1];
      assert Swapped(s, v1, v2) == r;
      SwapBack(s, k1, k2);
      assert Swapped(r, v1, v2) == r[k2 := v2][k1 := v1];
    }
  }

  /** After exchanging two slots of a list without repeats, each letter is found at the other slot,
      and exchanging back restores the list. */
  lemma SwapBack(s: seq<char>, k1: nat, k2: nat)
    requires Distinct(s) && k1 < |s| && k2 < |s| && k1 != k2
    ensures var r := s[k1 := s[k2]][k2 := s[k1]];
      && Distinct(r) && IndexOf(r, s[k1]) == k2 && IndexOf(r, s[k2]) == k1
      && r[k2 := s[k2]][k1 := s[k1]] == s
  {
    var r := s[k1 := s[k2]][k2 := s[k1]];
    ExchangeDistinct(s, k1, k2);
    IndexOfDistinct(r, k1);
    IndexOfDistinct(r, k2);
  }

  /** Exchanging two slots of a list without repeats keeps it without repeats. */
  lemma ExchangeDistinct(s: seq<char>, k1: nat, k2: nat)
    requires Distinct(s) && k1 < |s| && k2 < |s|
    ensures Distinct(s[k1 := s[k2]][k2 := s[k1]])
  {
    var r := s[k1 := s[k2]][k2 := s[k1]];
    forall i, j | 0 <= i < j < |r| ensures r[i] != r[j] {
      if i != k1 && i != k2 && j != k1 && j != k2 {
      } else if (i == k1 && j == k2) || (i == k2 && j == k1) {
      } else if i == k1 || i == k2 {
        assert r[i] == s[k2] || r[i] == s[k1];
      } else {
        assert r[j] == s[k2] || r[j] == s[k1];
      }
    }
  }

  // ---------------------------------------------------------------------------------------------
  // AddSubstitution

  /** The guesses after `AddSubstitution(v1, v2)`: unchanged when `v2` is already a guess; otherwise
      the guess at `ciphers.IndexOf(v1)` becomes `v2`, and an index outside the guesses throws. */
  function WithSubstitution(ciphers: seq<char>, s: seq<char>, v1: char, v2: char): Result<seq<char>, Error>
  {
    if v2 in s then Ok(s)
    else
      var k := IndexOf(ciphers, v1);
      if 0 <= k < |s| then Ok(s[k := v2]) else Err(IndexOutOfRange)
  }

  method AddSubstitution(ciphers: seq<char>, substitutions: CharList, v1: char, v2: char)
    returns (r: Outcome<Error>)
    modifies substitutions
    ensures var w := WithSubstitution(ciphers, old(substitutions.items), v1, v2);
      && (r.Pass? <==> w.Ok?)
      && (w.Ok? ==> substitutions.items == w.value)
      && (w.Err? ==> r.error == w.error && substitutions.items == old(substitutions.items))
  {
    if v2 in substitutions.items {
      return Pass;
    }
    var k := IndexOf(ciphers, v1);
    if k < 0 || k >= |substitutions.items| {
      return Fail(IndexOutOfRange);
    }
    substitutions.items := substitutions.items[k := v2];
    return Pass;
  }

  /** A new guess replaces exactly the guess of cipher `v1`, and the guesses stay free of repeats;
      the caller's check `ciphers.Contains(v1)` with tables of equal length rules out the exception. */
  lemma WithSubstitutionReplacesOne(ciphers: seq<char>, s: seq<char>, v1: char, v2: char)
    requires Distinct(s)
    ensures var w := WithSubstitution(ciphers, s, v1, v2);
      && (w.Err? <==> v2 !in s && (v1 !in ciphers || IndexOf(ciphers, v1) >= |s|))
      && (w.Ok? ==> Distinct(w.value) && |w.value| == |s|)
      && (w.Ok? && v2 !in s ==>
            w.value[IndexOf(ciphers, v1)] == v2
            && forall i :: 0 <= i < |s| && i != IndexOf(ciphers, v1) ==> w.value[i] == s[i])
  {
    var w := WithSubstitution(ciphers, s, v1, v2);
    if w.Ok? && v2 !in s {
      var k := IndexOf(ciphers, v1);
      forall i, j | 0 <= i < j < |w.value| ensures w.value[i] != w.value[j] {
        if i == k {
          assert s[j] in s;
        } else if j == k {
          assert s[i] in s;
        }
      }
    }
  }

  // ---------------------------------------------------------------------------------------------
  // ReorderSubstitutions

  /** `List.Remove`: drop the first occurrence of `c`, if any. */
  function Removed(s: seq<char>, c: char): (r: seq<char>)
    ensures c !in s ==> r == s
    ensures c in s ==> r == s[..IndexOf(s, c)] + s[IndexOf(s, c) + 1..]
  {
    var k := IndexOf(s, c);
    if k < 0 then s else s[..k] + s[k + 1..]
  }

  /** `List.Insert(index, c)`. */
  function Inserted(s: seq<char>, index: nat, c: char): (r: seq<char>)
    requires index <= |s|
    ensures |r| == |s| + 1 && r[index] == c
  {
    s[..index] + [c] + s[index..]
  }

  /** The guesses after `ReorderSubstitutions(v1, v2)` as written: `v2` is removed, and put back in
      front of `v1` only when `v1` is still found. */
  function Reordered(s: seq<char>, v1: char, v2: char): seq<char>
  {
    if v2 !in s then s
    else
      var t := Removed(s, v2);
      var index := IndexOf(t, v1);
      if index >= 0 then Inserted(t, index, v2) else t
  }

  method ReorderSubstitutions(substitutions: CharList, v1: char, v2: char)
    modifies substitutions
    ensures substitutions.items == Reordered(old(substitutions.items), v1, v2)
  {
    if v2 !in substitutions.items {
      return;
    }
    substitutions.items := Removed(substitutions.items, v2);
    var index := IndexOf(substitutions.items, v1);
    if index >= 0 {
      substitutions.items := Inserted(substitutions.items, index, v2);
    }
  }

  lemma RemovedMultiset(s: seq<char>, c: char)
    requires c in s
    ensures |Removed(s, c)| == |s| - 1
    ensures multiset(Removed(s, c)) == multiset(s) - multiset{c}
  {
    var k := IndexOf(s, c);
    assert s == s[..k] + [c] + s[k + 1..];
  }

  /** When both letters are there (and differ), `v2` ends up directly in front of `v1`, and the list
      keeps its length and its letters. */
  lemma ReorderedMovesBefore(s: seq<char>, v1: char, v2: char)
    requires v1 != v2 && v1 in s && v2 in s
    ensures var r := Reordered(s, v1, v2);
      && |r| == |s| && multiset(r) == multiset(s)
      && var k := IndexOf(Removed(s, v2), v1);
         0 <= k && k + 1 < |r| && r[k] == v2 && r[k + 1] == v1
  {
    var t := Removed(s, v2);
    assert multiset(t) == multiset(s) - multiset{v2} by {
      RemovedMultiset(s, v2);
    }
    assert v1 in t by {
      assert v1 in multiset(t);
    }
    var k := IndexOf(t, v1);
    var r := Inserted(t, k, v2);
    assert Reordered(s, v1, v2) == r;
    assert multiset(r) == multiset(t) + multiset{v2} && r[k + 1..] == t[k..] by {
      InsertedMultiset(t, k, v2);
    }
    assert r[k + 1] == r[k + 1..][0];
  }

  lemma InsertedMultiset(t: seq<char>, k: nat, c: char)
    requires k <= |t|
    ensures multiset(Inserted(t, k, c)) == multiset(t) + multiset{c}
    ensures Inserted(t, k, c)[..k] == t[..k] && Inserted(t, k, c)[k + 1..] == t[k..]
  {
    assert t == t[..k] + t[k..];
  }

  /** The defect: when `v1` is not found once `v2` is gone (a letter that is no guess, or `v1 == v2`
      in a list without repeats), `v2` is dropped and the guesses become one shorter than the
      ciphers. */
  lemma ReorderedDropsLetter(s: seq<char>, v1: char, v2: char)
    requires v2 in s && v1 !in Removed(s, v2)
    ensures |Reordered(s, v1, v2)| == |s| - 1
    ensures Reordered(s, v1, v2) == Removed(s, v2)
  {
    RemovedMultiset(s, v2);
  }

  /** The command `@ee` on guesses without repeats: `e` is removed, not found again, and lost, so the
      guesses fall one short of the ciphers and the next `Substitute` throws. */
  lemma ReorderSameLetterShrinks(s: seq<char>, v: char)
    requires Distinct(s) && v in s
    ensures |Reordered(s, v, v)| == |s| - 1
  {
    ReorderedDropsLetter(s, v, v);
  }

  /** The corrected edit: `v2` moves in front of `v1` when both are there, and nothing changes
      otherwise. */
  function ReorderedKeepingLetters(s: seq<char>, v1: char, v2: char): seq<char>
  {
    if v2 !in s then s
    else
      var t := Removed(s, v2);
      var index := IndexOf(t, v1);
      if index >= 0 then Inserted(t, index, v2) else s
  }

  method ReorderSubstitutionsKeepingLetters(substitutions: CharList, v1: char, v2: char)
    modifies substitutions
    ensures substitutions.items == ReorderedKeepingLetters(old(substitutions.items), v1, v2)
  {
    if v2 !in substitutions.items {
      return;
    }
    var t := Removed(substitutions.items, v2);
    var index := IndexOf(t, v1);
    if index >= 0 {
      substitutions.items := Inserted(t, index, v2);
    }
  }

  /** The corrected edit never changes the length or the letters, agrees with the source whenever
      the source keeps them, and moves `v2` in front of `v1` when both are there. */
  lemma ReorderedKeepingLettersPreserves(s: seq<char>, v1: char, v2: char)
    ensures |ReorderedKeepingLetters(s, v1, v2)| == |s|
    ensures multiset(ReorderedKeepingLetters(s, v1, v2)) == multiset(s)
    ensures v2 !in s || v1 in Removed(s, v2) ==> ReorderedKeepingLetters(s, v1, v2) == Reordered(s, v1, v2)
  {
    if v2 in s {
      var t := Removed(s, v2);
      RemovedMultiset(s, v2);
      var k := IndexOf(t, v1);
      if k >= 0 {
        InsertedMultiset(t, k, v2);
      }
    }
  }

  // ---------------------------------------------------------------------------------------------
  // Substitute

  /** `string.Replace(a, b)` on characters: every `a` becomes `b`. */
  function ReplaceChar(s: string, a: char, b: char): (r: string)
    ensures |r| == |s|
    ensures forall i :: 0 <= i < |s| ==> r[i] == if s[i] == a then b else s[i]
  {
    if s == [] then [] else [if s[0] == a then b else s[0]] + ReplaceChar(s[1..], a, b)
  }

  /** The replacements applied one after the other, in list order. */
  function Applied(text: string, ciphers: seq<char>, substitutions: seq<char>): (r: string)
    requires |substitutions| >= |ciphers|
    ensures |r| == |text|
    decreases |ciphers|
  {
    if ciphers == [] then text
    else Applied(ReplaceChar(text, ciphers[0], substitutions[0]), ciphers[1..], substitutions[1..])
  }

  /** `Substitute`: the loop over the cipher list; `substitutions[i]` throws once the guesses are
      shorter than the ciphers. */
  method Substitute(ciphertext: string, ciphers: seq<char>, substitutions: seq<char>)
    returns (r: Result<string, Error>)
    ensures r.Err? <==> |substitutions| < |ciphers|
    ensures r.Ok? ==> r.value == Applied(ciphertext, ciphers, substitutions)
  {
    var text := ciphertext;
    for i := 0 to |ciphers|
      invariant i <= |substitutions|
      invariant |substitutions| >= |ciphers| ==>
        Applied(text, ciphers[i..], substitutions[i..]) == Applied(ciphertext, ciphers, substitutions)
    {
      if i >= |substitutions| {
        return Err(IndexOutOfRange);
      }
      assert ciphers[i..][1..] == ciphers[i + 1..];
      assert substitutions[i..][1..] == substitutions[i + 1..];
      text := ReplaceChar(text, ciphers[i], substitutions[i]);
    }
    return Ok(text);
  }

  /** What one character becomes when the replacements are applied to it in order. */
  function Chain(c: char, ciphers: seq<char>, substitutions: seq<char>): char
    requires |substitutions| >= |ciphers|
    decreases |ciphers|
  {
    if ciphers == [] then c
    else Chain(if c == ciphers[0] then substitutions[0] else c, ciphers[1..], substitutions[1..])
  }

  /** Substitution works character by character and keeps the length. */
  lemma {:induction false} AppliedPointwise(text: string, ciphers: seq<char>, substitutions: seq<char>)
    requires |substitutions| >= |ciphers|
    ensures |Applied(text, ciphers, substitutions)| == |text|
    ensures forall j :: 0 <= j < |text| ==>
      Applied(text, ciphers, substitutions)[j] == Chain(text[j], ciphers, substitutions)
    decreases |ciphers|
  {
    if ciphers != [] {
      AppliedPointwise(ReplaceChar(text, ciphers[0], substitutions[0]), ciphers[1..], substitutions[1..]);
    }
  }

  /** A character can be rewritten more than once: with ciphers `ab` and guesses `bc`, `a` becomes
      `b` and then `c`. */
  lemma AppliedRewritesTwice()
    ensures Applied("a", "ab", "bc") == "c"
  {
    assert ReplaceChar("a", 'a', 'b') == "b";
    assert ReplaceChar("b", 'b', 'c') == "c";
  }

  /** When no guess is itself a cipher character, the chain is a plain table lookup: a cipher
      character becomes its guess (the first, for a repeated cipher), anything else stays. */
  lemma {:induction false} ChainIsLookup(c: char, ciphers: seq<char>, substitutions: seq<char>)
    requires |substitutions| >= |ciphers|
    requires forall k :: 0 <= k < |ciphers| ==> substitutions[k] !in ciphers
    ensures c !in ciphers ==> Chain(c, ciphers, substitutions) == c
    ensures c in ciphers ==> Chain(c, ciphers, substitutions) == substitutions[IndexOf(ciphers, c)]
    decreases |ciphers|
  {
    if ciphers != [] {
      var cs, ss := ciphers[1..], substitutions[1..];
      forall k | 0 <= k < |cs| ensures ss[k] !in cs {
        assert substitutions[k + 1] !in ciphers;
      }
      if c == ciphers[0] {
        assert substitutions[0] !in ciphers;
        ChainIsLookup(substitutions[0], cs, ss);
      } else {
        ChainIsLookup(c, cs, ss);
      }
    }
  }

  // ---------------------------------------------------------------------------------------------
  // The initial tables of `Main`

  const EnglishFrequency: string := "etaoinsrhldcumfpgwybvkxjqz"

  function Count(s: string, c: char): nat {
    multiset(s)[c]
  }

  /** The group keys of `GroupBy`: each character once, in order of first appearance. */
  function FirstAppearances(s: string): (r: seq<char>)
    ensures Distinct(r)
    ensures forall c :: c in r <==> c in s
  {
    if s == [] then []
    else
      var d := FirstAppearances(s[..|s| - 1]);
      var last := s[|s| - 1];
      assert forall c :: c in s <==> c in s[..|s| - 1] || c == last by {
        assert s == s[..|s| - 1] + [last];
      }
      if last in d then d else d + [last]
  }

  /** The listed characters occur in `s` with their first appearances in list order. */
  predicate InTextOrder(s: string, r: seq<char>) {
    forall i, j :: 0 <= i < j < |r| ==> IndexOf(s, r[i]) < IndexOf(s, r[j])
  }

  /** `GroupBy` keys its groups in order of first appearance in the text. */
  lemma {:induction false} FirstAppearancesInOrder(s: string)
    ensures InTextOrder(s, FirstAppearances(s))
  {
    if s != [] {
      var init := s[..|s| - 1];
      var last := s[|s| - 1];
      assert s == init + [last];
      var d := FirstAppearances(init);
      FirstAppearancesInOrder(init);
      OrderSurvivesAppend(init, last, d);
      if last !in d {
        assert FirstAppearances(s) == d + [last];
        IndexOfAppended(init, last);
        NewKeyInOrder(s, last, d, |init|);
      }
    }
  }

  /** Text appended behind every listed character leaves their first appearances where they were. */
  lemma OrderSurvivesAppend(init: string, last: char, d: seq<char>)
    requires InTextOrder(init, d) && forall k :: 0 <= k < |d| ==> d[k] in init
    ensures InTextOrder(init + [last], d)
    ensures forall k :: 0 <= k < |d| ==> IndexOf(init + [last], d[k]) < |init|
  {
    forall k | 0 <= k < |d| ensures IndexOf(init + [last], d[k]) == IndexOf(init, d[k]) {
      IndexOfInPrefix(init, [last], d[k]);
    }
  }

  /** A character first seen after every listed key comes after them in text order. */
  lemma NewKeyInOrder(t: string, last: char, d: seq<char>, n: int)
    requires InTextOrder(t, d) && IndexOf(t, last) == n
    requires forall k :: 0 <= k < |d| ==> IndexOf(t, d[k]) < n
    ensures InTextOrder(t, d + [last])
  {
    var r := d + [last];
    forall i, j | 0 <= i < j < |r| ensures IndexOf(t, r[i]) < IndexOf(t, r[j]) {
      assert r[i] == d[i];
      if j < |d| {
        assert r[j] == d[j];
      }
    }
  }

  predicate ByDescendingCount(text: string, s: seq<char>) {
    forall i, j :: 0 <= i < j < |s| ==> Count(text, s[i]) >= Count(text, s[j])
  }

  /** Put `c` after every entry counted at least as often (ties keep their order). */
  function InsertByCount(text: string, c: char, s: seq<char>): (r: seq<char>)
    ensures multiset(r) == multiset(s) + multiset{c}
    ensures |r| == |s| + 1
  {
    if s == [] || Count(text, s[0]) < Count(text, c) then [c] + s
    else
      assert s == [s[0]] + s[1..];
      [s[0]] + InsertByCount(text, c, s[1..])
  }

  lemma {:induction false} InsertByCountSorted(text: string, c: char, s: seq<char>)
    requires ByDescendingCount(text, s)
    ensures ByDescendingCount(text, InsertByCount(text, c, s))
  {
    if s == [] || Count(text, s[0]) < Count(text, c) {
      PrependSorted(text, c, s);
    } else {
      var s1 := s[1..];
      TailSorted(text, s);
      InsertByCountSorted(text, c, s1);
      var rest := InsertByCount(text, c, s1);
      if s1 == [] || Count(text, s1[0]) < Count(text, c) {
        assert rest[0] == c;
      } else {
        assert rest[0] == s1[0];
      }
      PrependSorted(text, s[0], rest);
      assert InsertByCount(text, c, s) == [s[0]] + rest;
    }
  }

  /** A key counted at least as often as the head of a sorted list can go in front of it. */
  lemma PrependSorted(text: string, x: char, s: seq<char>)
    requires ByDescendingCount(text, s)
    requires s != [] ==> Count(text, s[0]) <= Count(text, x)
    ensures ByDescendingCount(text, [x] + s)
  {
    var r := [x] + s;
    forall i, j | 0 <= i < j < |r| ensures Count(text, r[i]) >= Count(text, r[j]) {
      assert r[j] == s[j - 1];
      if i > 0 {
        assert r[i] == s[i - 1];
      } else if j > 1 {
        assert Count(text, s[0]) >= Count(text, s[j - 1]);
      }
    }
  }

  lemma TailSorted(text: string, s: seq<char>)
    requires ByDescendingCount(text, s) && s != []
    ensures ByDescendingCount(text, s[1..])
  {
    var s1 := s[1..];
    forall i, j | 0 <= i < j < |s1| ensures Count(text, s1[i]) >= Count(text, s1[j]) {
      assert s1[i] == s[i + 1] && s1[j] == s[j + 1];
    }
  }

  lemma {:induction false} InsertByCountDistinct(text: string, c: char, s: seq<char>)
    ensures Distinct(s) && c !in s ==> Distinct(InsertByCount(text, c, s))
  {
    if Distinct(s) && c !in s && !(s == [] || Count(text, s[0]) < Count(text, c)) {
      var rest := InsertByCount(text, c, s[1..]);
      assert s == [s[0]] + s[1..];
      InsertByCountDistinct(text, c, s[1..]);
      assert s[0] !in multiset(rest) by {
        assert s[0] !in multiset(s[1..]);
      }
    }
  }

  /** `OrderByDescending(g => g.Count())`: a stable insertion sort of the group keys. */
  function FrequencySorted(text: string, keys: seq<char>): (r: seq<char>)
    ensures ByDescendingCount(text, r)
    ensures multiset(r) == multiset(keys)
  {
    if keys == [] then []
    else
      var init := keys[..|keys| - 1];
      var last := keys[|keys| - 1];
      assert keys == init + [last];
      var sorted := FrequencySorted(text, init);
      InsertByCountSorted(text, last, sorted);
      InsertByCount(text, last, sorted)
  }

  lemma {:induction false} FrequencySortedDistinct(text: string, keys: seq<char>)
    requires Distinct(keys)
    ensures Distinct(FrequencySorted(text, keys))
  {
    if keys != [] {
      var init := keys[..|keys| - 1];
      var last := keys[|keys| - 1];
      assert keys == init + [last];
      FrequencySortedDistinct(text, init);
      var sorted := FrequencySorted(text, init);
      assert last !in multiset(init);
      InsertByCountDistinct(text, last, sorted);
    }
  }

  /** Equally frequent characters keep the order they have in `keys`. */
  predicate TiesInKeyOrder(text: string, keys: seq<char>, s: seq<char>) {
    forall i, j :: 0 <= i < j < |s| && Count(text, s[i]) == Count(text, s[j]) ==>
      IndexOf(keys, s[i]) < IndexOf(keys, s[j])
  }

  /** Every entry of the inserted list is the new key or came from the old list. */
  lemma InsertedFrom(text: string, c: char, s: seq<char>, k: nat)
    requires k <= |s|
    ensures var r := InsertByCount(text, c, s); r[k] == c || r[k] in s
  {
    var r := InsertByCount(text, c, s);
    assert r[k] in multiset(r);
  }

  /** Inserting a key that comes after every listed key in `keys` keeps ties in key order. */
  lemma {:induction false} InsertByCountStable(text: string, keys: seq<char>, c: char, s: seq<char>)
    requires ByDescendingCount(text, s) && TiesInKeyOrder(text, keys, s)
    requires forall k :: 0 <= k < |s| ==> IndexOf(keys, s[k]) < IndexOf(keys, c)
    ensures TiesInKeyOrder(text, keys, InsertByCount(text, c, s))
  {
    if s == [] || Count(text, s[0]) < Count(text, c) {
      InsertInFrontStable(text, keys, c, s);
    } else {
      var s1 := s[1..];
      TailSorted(text, s);
      assert TiesInKeyOrder(text, keys, s1) by {
        forall i, j | 0 <= i < j < |s1|
          ensures Count(text, s1[i]) == Count(text, s1[j]) ==> IndexOf(keys, s1[i]) < IndexOf(keys, s1[j])
        {
          assert s1[i] == s[i + 1] && s1[j] == s[j + 1];
        }
      }
      InsertByCountStable(text, keys, c, s1);
      InsertBehindHeadStable(text, keys, c, s);
    }
  }

  /** A key counted more often than the head goes in front, tied with nothing. */
  lemma InsertInFrontStable(text: string, keys: seq<char>, c: char, s: seq<char>)
    requires ByDescendingCount(text, s) && TiesInKeyOrder(text, keys, s)
    requires s == [] || Count(text, s[0]) < Count(text, c)
    ensures TiesInKeyOrder(text, keys, InsertByCount(text, c, s))
  {
    var r := InsertByCount(text, c, s);
    assert r == [c] + s;
    forall i, j | 0 <= i < j < |r|
      ensures Count(text, r[i]) == Count(text, r[j]) ==> IndexOf(keys, r[i]) < IndexOf(keys, r[j])
    {
      assert r[j] == s[j - 1];
      if i == 0 {
        assert Count(text, s[0]) >= Count(text, s[j - 1]);
        assert Count(text, r[i]) != Count(text, r[j]);
      } else {
        assert r[i] == s[i - 1];
      }
    }
  }

  /** A key not counted more often than the head goes behind it; the head precedes in `keys` both
      the new key and every later entry it ties with. */
  lemma InsertBehindHeadStable(text: string, keys: seq<char>, c: char, s: seq<char>)
    requires s != [] && Count(text, s[0]) >= Count(text, c) && TiesInKeyOrder(text, keys, s)
    requires IndexOf(keys, s[0]) < IndexOf(keys, c)
    requires TiesInKeyOrder(text, keys, InsertByCount(text, c, s[1..]))
    ensures TiesInKeyOrder(text, keys, InsertByCount(text, c, s))
  {
    var s1 := s[1..];
    var rest := InsertByCount(text, c, s1);
    var r := InsertByCount(text, c, s);
    assert r == [s[0]] + rest;
    forall i, j | 0 <= i < j < |r|
      ensures Count(text, r[i]) == Count(text, r[j]) ==> IndexOf(keys, r[i]) < IndexOf(keys, r[j])
    {
      assert r[j] == rest[j - 1];
      if i > 0 {
        assert r[i] == rest[i - 1];
      } else {
        InsertedFrom(text, c, s1, j - 1);
        if rest[j - 1] != c {
          var m :| 0 <= m < |s1| && s1[m] == rest[j - 1];
          assert s[m + 1] == r[j];
        }
      }
    }
  }

  /** `OrderByDescending` is stable: equally frequent keys stay in the order they were grouped. */
  lemma {:induction false} FrequencySortedStable(text: string, keys: seq<char>)
    requires Distinct(keys)
    ensures TiesInKeyOrder(text, keys, FrequencySorted(text, keys))
  {
    if keys != [] {
      var init := keys[..|keys| - 1];
      var last := keys[|keys| - 1];
      assert keys == init + [last];
      assert Distinct(init) by {
        forall i, j | 0 <= i < j < |init| ensures init[i] != init[j] {
          assert init[i] == keys[i] && init[j] == keys[j];
        }
      }
      FrequencySortedStable(text, init);
      var sorted := FrequencySorted(text, init);
      assert last !in init by {
        forall k | 0 <= k < |init| ensures init[k] != last {
          assert init[k] == keys[k];
        }
      }
      IndexOfAppended(init, last);
      forall k | 0 <= k < |sorted|
        ensures IndexOf(keys, sorted[k]) == IndexOf(init, sorted[k]) < IndexOf(keys, last)
      {
        assert sorted[k] in multiset(init);
        IndexOfInPrefix(init, [last], sorted[k]);
      }
      InsertByCountSorted(text, last, sorted);
      InsertByCountStable(text, keys, last, sorted);
    }
  }

  /** The cipher characters in the order `Main` lists them. */
  function FrequencyOrder(ciphertext: string): (r: seq<char>)
    ensures Distinct(r) && ByDescendingCount(ciphertext, r)
    ensures forall c :: c in r <==> c in ciphertext
    ensures TiesInKeyOrder(ciphertext, ciphertext, r)
  {
    var keys := FirstAppearances(ciphertext);
    FrequencySortedDistinct(ciphertext, keys);
    var r := FrequencySorted(ciphertext, keys);
    assert forall c :: c in r <==> c in multiset(keys);
    assert TiesInKeyOrder(ciphertext, ciphertext, r) by {
      FrequencySortedStable(ciphertext, keys);
      FirstAppearancesInOrder(ciphertext);
      SortedFromKeys(ciphertext, keys);
      KeyOrderIsTextOrder(ciphertext, keys, r);
    }
    r
  }

  lemma SortedFromKeys(text: string, keys: seq<char>)
    ensures forall k :: 0 <= k < |FrequencySorted(text, keys)| ==> FrequencySorted(text, keys)[k] in keys
  {
    var r := FrequencySorted(text, keys);
    forall k | 0 <= k < |r| ensures r[k] in keys {
      assert r[k] in multiset(keys);
    }
  }

  /** Ties kept in group order are ties kept in order of first appearance in the text. */
  lemma KeyOrderIsTextOrder(text: string, keys: seq<char>, r: seq<char>)
    requires InTextOrder(text, keys) && TiesInKeyOrder(text, keys, r)
    requires forall k :: 0 <= k < |r| ==> r[k] in keys
    ensures TiesInKeyOrder(text, text, r)
  {
    forall i, j | 0 <= i < j < |r|
      ensures Count(text, r[i]) == Count(text, r[j]) ==> IndexOf(text, r[i]) < IndexOf(text, r[j])
    {
      if Count(text, r[i]) == Count(text, r[j]) {
        var a := IndexOf(keys, r[i]);
        var b := IndexOf(keys, r[j]);
        assert keys[a] == r[i] && keys[b] == r[j];
      }
    }
  }

  /** The loop of `Main` that fills both lists; `englishFrequency[i++]` throws past the 26th group. */
  method InitialTables(ciphertext: string) returns (r: Result<(seq<char>, seq<char>), Error>)
    ensures r.Ok? <==> |FrequencyOrder(ciphertext)| <= |EnglishFrequency|
    ensures r.Ok? ==>
      r.value.0 == FrequencyOrder(ciphertext) && r.value.1 == EnglishFrequency[..|r.value.0|]
  {
    var counts := FrequencyOrder(ciphertext);
    var ciphers: seq<char> := [];
    var substitutions: seq<char> := [];
    var i := 0;
    while i < |counts|
      invariant 0 <= i <= |counts| && i <= |EnglishFrequency|
      invariant ciphers == counts[..i] && substitutions == EnglishFrequency[..i]
    {
      if i >= |EnglishFrequency| {
        return Err(IndexOutOfRange);
      }
      PrefixGrows(EnglishFrequency, i);
      PrefixGrows(counts, i);
      substitutions := substitutions + [EnglishFrequency[i]];
      ciphers := ciphers + [counts[i]];
      i := i + 1;
    }
    assert ciphers == counts;
    return Ok((ciphers, substitutions));
  }

  lemma PrefixGrows(s: seq<char>, i: nat)
    requires i < |s|
    ensures s[..i + 1] == s[..i] + [s[i]]
  {
  }

  /** With no English letter in the ciphertext, the first decryption maps every character to the
      letter of its frequency rank: the most frequent to `e`, the next to `t`, and so on. */
  lemma InitialGuessIsFrequencyRank(ciphertext: string, j: nat)
    requires |FrequencyOrder(ciphertext)| <= |EnglishFrequency|
    requires forall c :: c in ciphertext ==> c !in EnglishFrequency
    requires j < |ciphertext|
    ensures var ciphers := FrequencyOrder(ciphertext);
      Applied(ciphertext, ciphers, EnglishFrequency[..|ciphers|])[j]
      == EnglishFrequency[IndexOf(ciphers, ciphertext[j])]
  {
    var ciphers := FrequencyOrder(ciphertext);
    var guesses := EnglishFrequency[..|ciphers|];
    AppliedPointwise(ciphertext, ciphers, guesses);
    forall k | 0 <= k < |ciphers| ensures guesses[k] !in ciphers {
      assert guesses[k] in EnglishFrequency;
    }
    assert ciphertext[j] in ciphers;
    ChainIsLookup(ciphertext[j], ciphers, guesses);
  }
}
