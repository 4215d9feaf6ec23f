/** How the decoder goes on behind what is not UTF-8, said in terms of the encoding alone. */
module Utf8Errors {
  import opened Bytes
  import opened Utf8

  // ----- the encoding as the table of section 3 of RFC 3629

  /** What a byte holds behind the bits that mark its place. */
  function Bits(b: int, mark: int): int {
    b - mark
  }

  /** One to four bytes by the size of the number, surrogates included; nothing above
      U+10FFFF. */
  lemma EncodeLength(c: int)
    requires c >= 0
    ensures |Encode(c)| ==
            if c < 0x80 then 1 else if c < 0x800 then 2 else if c < 0x1_0000 then 3 else if c <= 0x10_FFFF then 4 else 0
  {
  }

  // the first byte tells the length, and every byte behind it holds six bits

  lemma EncodeOne(c: int)
    requires 0 <= c < 0x80
    ensures Encode(c) == [c]
  {
  }

  lemma EncodeTwo(c: int)
    requires 0x80 <= c < 0x800
    ensures
      var e := Encode(c);
      && |e| == 2 && 0xC0 <= e[0] < 0xE0 && 0x80 <= e[1] < 0xC0
      && c == Bits(e[0], 0xC0) * 64 + Bits(e[1], 0x80)
  {
    SplitSix(c);
  }

  lemma EncodeThree(c: int)
    requires 0x800 <= c < 0x1_0000
    ensures
      var e := Encode(c);
      && |e| == 3 && 0xE0 <= e[0] < 0xF0 && 0x80 <= e[1] < 0xC0 && 0x80 <= e[2] < 0xC0
      && c == Bits(e[0], 0xE0) * 4096 + Bits(e[1], 0x80) * 64 + Bits(e[2], 0x80)
  {
    SplitSix(c);
    SplitSix(c / 64);
    Nested(c);
  }

  lemma EncodeFour(c: int)
    requires 0x1_0000 <= c <= 0x10_FFFF
    ensures
      var e := Encode(c);
      && |e| == 4 && 0xF0 <= e[0] < 0xF8 && 0x80 <= e[1] < 0xC0 && 0x80 <= e[2] < 0xC0 && 0x80 <= e[3] < 0xC0
      && c == Bits(e[0], 0xF0) * 0x4_0000 + Bits(e[1], 0x80) * 4096 + Bits(e[2], 0x80) * 64 + Bits(e[3], 0x80)
  {
    SplitSix(c);
    SplitSix(c / 64);
    SplitSix(c / 4096);
    Nested(c);
    Nested(c / 64);
  }

  lemma SplitSix(x: int)
    requires x >= 0
    ensures x == x / 64 * 64 + x % 64
  {
  }

  lemma Nested(c: int)
    requires c >= 0
    ensures c / 64 / 64 == c / 4096 && c / 64 / 4096 == c / 0x4_0000
  {
  }

  // ----- the longest part of an encoding

  /** The bytes are the beginning of an encoding, but not all of it. */
  ghost predicate IsPart(t: seq<byte>) {
    exists c :: IsScalar(c) && |t| < |Encode(c)| && t == Encode(c)[..|t|]
  }

  /** The longest beginning of an encoding at `p` has `k` bytes. */
  ghost predicate LongestPart(s: seq<byte>, p: nat, k: nat)
    requires p <= |s|
  {
    PartAt(s, p, k) && forall l :: k < l ==> !PartAt(s, p, l)
  }

  ghost predicate PartAt(s: seq<byte>, p: nat, l: nat)
    requires p <= |s|
  {
    p + l <= |s| && IsPart(s[p..p + l])
  }

  /** After an error the decoder stands behind the longest beginning of an encoding, or
      behind one byte if that is empty. */
  lemma ErrorSkipsLongestPart(s: seq<byte>, p: nat)
    requires p < |s| && DecodeAt(s, p).cp == -1
    ensures
      exists k: nat :: LongestPart(s, p, k) && DecodeAt(s, p).next == p + if k == 0 then 1 else k
  {
    hide IsPart, DecodeAt;
    var k := LengthOfPart(s, p);
    forall l: nat | k < l
      ensures !PartAt(s, p, l)
    {
      if PartAt(s, p, l) {
        PartFollows(s, p, l);
      }
    }
    assert LongestPart(s, p, k);
  }

  /** The part is what the decoder has seen, and the next byte does not follow. */
  lemma LengthOfPart(s: seq<byte>, p: nat) returns (k: nat)
    requires p < |s| && DecodeAt(s, p).cp == -1
    ensures PartAt(s, p, k) && DecodeAt(s, p).next == p + if k == 0 then 1 else k
    ensures if k == 0 then Needed(s[p]) == -1 else k <= Needed(s[p]) && !Follows(s, p, k)
  {
    hide IsPart;
    var n := Needed(s[p]);
    if n == -1 {
      k := 0;
      EmptyIsPart();
      assert s[p..p + 0] == [];
    } else {
      DecodeProgress(s, p);
      k := Following(s, p, n) + 1;
      if k == n + 1 {
        ValuePositive(s, p, n);
      }
      BeginningIsPart(s, p, k);
    }
  }

  lemma EmptyIsPart()
    ensures IsPart([])
  {
    assert IsScalar(0x41) && Encode(0x41)[..0] == [];
  }

  /** A part of an encoding begins with a first byte and goes on within the bounds. */
  lemma PartFollows(s: seq<byte>, p: nat, l: nat)
    requires p + l <= |s| && l > 0 && IsPart(s[p..p + l])
    ensures Needed(s[p]) >= l && forall i :: 1 <= i < l ==> Follows(s, p, i)
  {
    var t := s[p..p + l];
    var c :| IsScalar(c) && |t| < |Encode(c)| && t == Encode(c)[..|t|];
    EncodedShape(c);
    hide Encode, Value;
    var e := Encode(c);
    assert forall i :: 0 <= i < l ==> s[p + i] == t[i] == e[i];
    assert s[p + 0] == e[0];
  }

  /** The lowest bytes that may follow in the places from `m` to `n`. */
  function LowestBytes(first: byte, m: nat, n: nat): (t: seq<byte>)
    requires m <= n + 1
    ensures |t| == n + 1 - m && forall j :: m <= j <= n ==> t[j - m] == Lower(first, j)
    decreases n + 1 - m
  {
    if m == n + 1 then [] else [Lower(first, m)] + LowestBytes(first, m + 1, n)
  }

  /** What stands within the bounds can be completed: with the lowest byte in each place. */
  lemma BeginningIsPart(s: seq<byte>, p: nat, m: nat)
    requires p + m <= |s| && 1 <= m <= Needed(s[p])
    requires forall i :: 1 <= i < m ==> Follows(s, p, i)
    ensures IsPart(s[p..p + m])
  {
    var first, n := s[p], Needed(s[p]);
    var t := s[p..p + m] + LowestBytes(first, m, n);
    hide Encode, Value, Needed;
    assert t[0] == first;
    forall i | 1 <= i <= n
      ensures Follows(t, 0, i)
    {
      assert i < m ==> t[i] == s[p + i] && Follows(s, p, i);
      assert i >= m ==> t[i] == Lower(first, i);
    }
    FollowingAll(t, 0, n);
    ValuePositive(t, 0, n);
    DecodedIsEncoded(t, 0);
    var c := DecodeAt(t, 0).cp;
    assert |Encode(c)| == n + 1;
    assert forall i :: 0 <= i < m ==> Encode(c)[i] == At(t, 0 + i) == s[p..p + m][i];
    assert s[p..p + m] == Encode(c)[..m];
  }

  lemma ValuePositive(s: seq<byte>, p: nat, n: nat)
    requires n <= 3 && Needed(At(s, p)) == n && forall i :: 1 <= i <= n ==> Follows(s, p, i)
    ensures Value(s, p, n) >= 0
  {
    assert n >= 1 ==> Follows(s, p, 1);
    assert n >= 2 ==> Follows(s, p, 2);
    assert n >= 3 ==> Follows(s, p, 3);
  }
}
