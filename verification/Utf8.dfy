/** UTF-8 as section 3 and 4 of RFC 3629 define it, and the decoder of the program. */
module Utf8 {
  import opened Bytes

  // ----- code points and their encoding

  predicate IsScalar(c: int) {
    0 <= c <= 0x10FFFF && !(0xD800 <= c <= 0xDFFF)
  }

  /** What `str_utf8_encode` puts at its pointer. */
  function Encode(c: int): (s: seq<byte>)
    ensures |s| <= 4
    ensures IsScalar(c) ==> 1 <= |s|
  {
    if c <= 0x7F then [c % 256]
    else if c <= 0x7FF then [0xC0 + c / 64 % 32, 0x80 + c % 64]
    else if c <= 0xFFFF then [0xE0 + c / 4096 % 16, 0x80 + c / 64 % 64, 0x80 + c % 64]
    else if c <= 0x10FFFF then
      [0xF0 + c / 0x40000 % 8, 0x80 + c / 4096 % 64, 0x80 + c / 64 % 64, 0x80 + c % 64]
    else []
  }

  method StrUtf8Encode(ptr: array<byte>, chr: int) returns (n: nat)
    requires ptr.Length >= |Encode(chr)|
    modifies ptr
    ensures n == |Encode(chr)| && ptr[..n] == Encode(chr) && ptr[n..] == old(ptr[n..])
  {
    if chr <= 0x7F {
      ptr[0] := chr % 256;
      return 1;
    } else if chr <= 0x7FF {
      ptr[0] := 0xC0 + chr / 64 % 32;
      ptr[1] := 0x80 + chr % 64;
      return 2;
    } else if chr <= 0xFFFF {
      ptr[0] := 0xE0 + chr / 4096 % 16;
      ptr[1] := 0x80 + chr / 64 % 64;
      ptr[2] := 0x80 + chr % 64;
      return 3;
    } else if chr <= 0x10FFFF {
      ptr[0] := 0xF0 + chr / 0x40000 % 8;
      ptr[1] := 0x80 + chr / 4096 % 64;
      ptr[2] := 0x80 + chr / 64 % 64;
      ptr[3] := 0x80 + chr % 64;
      return 4;
    }
    return 0;
  }

  function EncodeAll(cs: seq<int>): seq<byte> {
    if cs == [] then [] else Encode(cs[0]) + EncodeAll(cs[1..])
  }

  ghost predicate NonZeroScalars(cs: seq<int>) {
    forall c :: c in cs ==> IsScalar(c) && c != 0
  }

  /** The language of RFC 3629, without NUL. */
  ghost predicate IsUtf8(s: seq<byte>) {
    exists cs: seq<int> :: NonZeroScalars(cs) && s == EncodeAll(cs)
  }

  // ----- decoding

  /** A byte of a NUL-terminated string; the terminator stands behind the sequence. */
  function At(s: seq<byte>, p: nat): byte {
    if p < |s| then s[p] else 0
  }

  /** How many bytes must follow a first byte, -1 for a byte that starts nothing. */
  function Needed(first: byte): int {
    if first <= 0x7F then 0
    else if 0xC2 <= first <= 0xDF then 1
    else if 0xE0 <= first <= 0xEF then 2
    else if 0xF0 <= first <= 0xF4 then 3
    else -1
  }

  // the bounds of the `k`-th byte behind `first`

  function Lower(first: byte, k: nat): byte {
    if k == 1 && first == 0xE0 then 0xA0 else if k == 1 && first == 0xF0 then 0x90 else 0x80
  }

  function Upper(first: byte, k: nat): byte {
    if k == 1 && first == 0xED then 0x9F else if k == 1 && first == 0xF4 then 0x8F else 0xBF
  }

  predicate Follows(s: seq<byte>, p: nat, k: nat) {
    Lower(At(s, p), k) <= At(s, p + k) <= Upper(At(s, p), k)
  }

  /** How many of the next `n` bytes may follow, up to the first that may not. */
  function Following(s: seq<byte>, p: nat, n: nat): (k: nat)
    ensures k <= n
    ensures forall i :: 1 <= i <= k ==> Follows(s, p, i)
    ensures k < n ==> !Follows(s, p, k + 1)
  {
    if n == 0 then 0
    else
      var k := Following(s, p, n - 1);
      if k == n - 1 && Follows(s, p, n) then n else k
  }

  function Value(s: seq<byte>, p: nat, n: nat): int
    requires n <= 3
  {
    var b0 := At(s, p);
    if n == 0 then b0
    else if n == 1 then (b0 - 0xC0) * 64 + (At(s, p + 1) - 0x80)
    else if n == 2 then (b0 - 0xE0) * 4096 + (At(s, p + 1) - 0x80) * 64 + (At(s, p + 2) - 0x80)
    else
      (b0 - 0xF0) * 0x40000 + (At(s, p + 1) - 0x80) * 4096 + (At(s, p + 2) - 0x80) * 64 + (At(s, p + 3) - 0x80)
  }

  datatype Decoded = Decoded(cp: int, next: nat)

  /** The code point at `p`, or -1, and where the next call goes on: behind the sequence, or
      at the first byte that may not be part of it. */
  function DecodeAt(s: seq<byte>, p: nat): Decoded {
    var n := Needed(At(s, p));
    if n == -1 then Decoded(-1, p + 1)
    else
      var k := Following(s, p, n);
      if k == n then Decoded(Value(s, p, n), p + n + 1) else Decoded(-1, p + k + 1)
  }

  function Pow64(n: nat): int {
    if n == 0 then 1 else if n == 1 then 64 else if n == 2 then 4096 else 0x40000
  }

  /** The decoder loop. */
  method Decode(s: seq<byte>, start: nat) returns (cp: int, ptr: nat)
    requires start <= |s|
    ensures Decoded(cp, ptr) == DecodeAt(s, start)
  {
    var lower, upper := 0x80, 0xBF;
    var codePoint, seen, needed := 0, 0, 0;
    ptr := start;
    while true
      invariant 0 <= seen <= needed <= 3
      invariant needed == 0 ==> ptr == start && lower == 0x80 && upper == 0xBF && seen == 0
      invariant needed > 0 ==>
                  && needed == Needed(At(s, start)) && seen < needed
                  && ptr == start + 1 + seen
                  && Following(s, start, seen) == seen
                  && lower == Lower(At(s, start), seen + 1) && upper == Upper(At(s, start), seen + 1)
      invariant needed > 0 ==> codePoint == Partial(s, start, needed, seen)
      decreases if needed == 0 then 4 else needed - seen
    {
      var b := At(s, ptr);
      ptr := ptr + 1;
      if needed == 0 {
        if b <= 0x7F {
          return b, ptr;
        } else if 0xC2 <= b <= 0xDF {
          needed := 1;
          codePoint := b - 0xC0;
        } else if 0xE0 <= b <= 0xEF {
          if b == 0xE0 {
            lower := 0xA0;
          }
          if b == 0xED {
            upper := 0x9F;
          }
          needed := 2;
          codePoint := b - 0xE0;
        } else if 0xF0 <= b <= 0xF4 {
          if b == 0xF0 {
            lower := 0x90;
          }
          if b == 0xF4 {
            upper := 0x8F;
          }
          needed := 3;
          codePoint := b - 0xF0;
        } else {
          return -1, ptr;
        }
        codePoint := codePoint * Pow64(needed);
        continue;
      }
      if !(lower <= b <= upper) {
        FollowingStops(s, start, needed, seen);
        ptr := ptr - 1;
        return -1, ptr;
      }
      lower, upper := 0x80, 0xBF;
      seen := seen + 1;
      codePoint := codePoint + (b - 0x80) * Pow64(needed - seen);
      if seen != needed {
        continue;
      }
      return codePoint, ptr;
    }
  }

  /** The code point with only the first `seen` continuation bytes taken in. */
  function Partial(s: seq<byte>, p: nat, n: nat, seen: nat): int
    requires 1 <= n <= 3
  {
    var base := if n == 1 then 0xC0 else if n == 2 then 0xE0 else 0xF0;
    (At(s, p) - base) * Pow64(n)
    + (if seen >= 1 then (At(s, p + 1) - 0x80) * Pow64(n - 1) else 0)
    + (if seen >= 2 && n >= 2 then (At(s, p + 2) - 0x80) * Pow64(n - 2) else 0)
    + (if seen >= 3 && n >= 3 then At(s, p + 3) - 0x80 else 0)
  }

  lemma {:induction false} FollowingStops(s: seq<byte>, p: nat, n: nat, k: nat)
    requires k < n && Following(s, p, k) == k && !Follows(s, p, k + 1)
    ensures Following(s, p, n) == k
  {
    if k < n - 1 {
      FollowingStops(s, p, n - 1, k);
    }
  }

  // ----- decoding is the inverse of encoding

  /** The encoding of `c` stands at `p`. */
  ghost predicate EncodedAt(s: seq<byte>, p: nat, c: int) {
    forall i :: 0 <= i < |Encode(c)| ==> At(s, p + i) == Encode(c)[i]
  }

  lemma EncodedIsDecoded(s: seq<byte>, p: nat, c: int)
    requires IsScalar(c) && EncodedAt(s, p, c)
    ensures DecodeAt(s, p) == Decoded(c, p + |Encode(c)|)
  {
    hide Encode, Needed, Lower, Upper;
    EncodedShape(c);
    var e := Encode(c);
    var n := |e| - 1;
    assert forall i :: 0 <= i <= n ==> At(s, p + i) == e[i];
    assert At(s, p + 0) == e[0];
    FollowingAll(s, p, n);
  }

  /** The encoding of a scalar value starts with the right first byte, goes on within the
      bounds, and has the value of the code point. */
  ghost predicate WellShaped(e: seq<byte>, c: int) {
    && 1 <= |e| <= 4 && Needed(e[0]) == |e| - 1
    && (forall i :: 1 <= i < |e| ==> Lower(e[0], i) <= e[i] <= Upper(e[0], i))
    && Value(e, 0, |e| - 1) == c
  }

  lemma EncodedShape(c: int)
    requires IsScalar(c)
    ensures WellShaped(Encode(c), c)
  {
    hide WellShaped, Encode;
    if c <= 0x7F {
      ShapeOne(c);
    } else if c <= 0x7FF {
      ShapeTwo(c);
    } else if c <= 0xFFFF {
      ShapeThree(c);
    } else {
      ShapeFour(c);
    }
  }

  lemma ShapeOne(c: int)
    requires 0 <= c <= 0x7F
    ensures WellShaped(Encode(c), c)
  {
  }

  lemma ShapeTwo(c: int)
    requires 0x80 <= c <= 0x7FF
    ensures WellShaped(Encode(c), c)
  {
    assert c / 64 < 32 && c == c / 64 * 64 + c % 64;
  }

  lemma ShapeThree(c: int)
    requires IsScalar(c) && 0x800 <= c <= 0xFFFF
    ensures WellShaped(Encode(c), c)
  {
    var high, low := c / 64, c % 64;
    assert c == high * 64 + low && high / 64 == c / 4096 < 16;
    assert high == c / 4096 * 64 + high % 64;
  }

  lemma ShapeFour(c: int)
    requires 0x10000 <= c <= 0x10FFFF
    ensures WellShaped(Encode(c), c)
  {
    var high, low := c / 64, c % 64;
    assert c == high * 64 + low && high / 64 == c / 4096 && c / 4096 / 64 == c / 0x40000 < 8;
    assert high == c / 4096 * 64 + high % 64;
    assert c / 4096 == c / 0x40000 * 64 + c / 4096 % 64;
  }

  lemma {:induction false} FollowingAll(s: seq<byte>, p: nat, n: nat)
    requires forall i :: 1 <= i <= n ==> Follows(s, p, i)
    ensures Following(s, p, n) == n
  {
    if n > 0 {
      FollowingAll(s, p, n - 1);
    }
  }

  lemma DecodedIsEncoded(s: seq<byte>, p: nat)
    requires DecodeAt(s, p).cp != -1
    ensures
      var d := DecodeAt(s, p);
      IsScalar(d.cp) && EncodedAt(s, p, d.cp) && d.next == p + |Encode(d.cp)|
  {
    var n := Needed(At(s, p));
    hide Encode;
    if n == 0 {
      DecodedOne(At(s, p));
      StandsAt(s, p, DecodeAt(s, p).cp, [At(s, p)]);
    } else if n == 1 {
      assert Follows(s, p, 1);
      DecodedTwo(At(s, p), At(s, p + 1));
      StandsAt(s, p, DecodeAt(s, p).cp, [At(s, p), At(s, p + 1)]);
    } else if n == 2 {
      assert Follows(s, p, 1) && Follows(s, p, 2);
      DecodedThree(At(s, p), At(s, p + 1), At(s, p + 2));
      StandsAt(s, p, DecodeAt(s, p).cp, [At(s, p), At(s, p + 1), At(s, p + 2)]);
    } else {
      assert Follows(s, p, 1) && Follows(s, p, 2) && Follows(s, p, 3);
      DecodedFour(At(s, p), At(s, p + 1), At(s, p + 2), At(s, p + 3));
      StandsAt(s, p, DecodeAt(s, p).cp, [At(s, p), At(s, p + 1), At(s, p + 2), At(s, p + 3)]);
    }
  }

  lemma StandsAt(s: seq<byte>, p: nat, c: int, e: seq<byte>)
    requires Encode(c) == e && forall i :: 0 <= i < |e| ==> At(s, p + i) == e[i]
    ensures EncodedAt(s, p, c) && |Encode(c)| == |e|
  {
  }

  lemma DecodedOne(b0: byte)
    requires b0 <= 0x7F
    ensures IsScalar(b0) && Encode(b0) == [b0]
  {
  }

  lemma DecodedTwo(b0: byte, b1: byte)
    requires 0xC2 <= b0 <= 0xDF && 0x80 <= b1 <= 0xBF
    ensures var c := (b0 - 0xC0) * 64 + (b1 - 0x80); IsScalar(c) && Encode(c) == [b0, b1]
  {
  }

  lemma DecodedThree(b0: byte, b1: byte, b2: byte)
    requires 0xE0 <= b0 <= 0xEF && Lower(b0, 1) <= b1 <= Upper(b0, 1) && 0x80 <= b2 <= 0xBF
    ensures
      var c := (b0 - 0xE0) * 4096 + (b1 - 0x80) * 64 + (b2 - 0x80);
      IsScalar(c) && Encode(c) == [b0, b1, b2]
  {
    var c := (b0 - 0xE0) * 4096 + (b1 - 0x80) * 64 + (b2 - 0x80);
    assert c / 64 == (b0 - 0xE0) * 64 + (b1 - 0x80);
    assert c / 4096 == b0 - 0xE0;
  }

  lemma DecodedFour(b0: byte, b1: byte, b2: byte, b3: byte)
    requires 0xF0 <= b0 <= 0xF4 && Lower(b0, 1) <= b1 <= Upper(b0, 1)
    requires 0x80 <= b2 <= 0xBF && 0x80 <= b3 <= 0xBF
    ensures
      var c := (b0 - 0xF0) * 0x40000 + (b1 - 0x80) * 4096 + (b2 - 0x80) * 64 + (b3 - 0x80);
      IsScalar(c) && Encode(c) == [b0, b1, b2, b3]
  {
    var c := (b0 - 0xF0) * 0x40000 + (b1 - 0x80) * 4096 + (b2 - 0x80) * 64 + (b3 - 0x80);
    assert c / 64 == (b0 - 0xF0) * 4096 + (b1 - 0x80) * 64 + (b2 - 0x80);
    assert c / 4096 == (b0 - 0xF0) * 64 + (b1 - 0x80);
    assert c / 0x40000 == b0 - 0xF0;
  }

  /** Encoding and decoding again gives the same code point exactly for scalar values. */
  lemma RoundTripIff(c: nat)
    ensures DecodeAt(Encode(c), 0).cp == c <==> IsScalar(c)
  {
    if IsScalar(c) {
      EncodedIsDecoded(Encode(c), 0, c);
    } else {
      if DecodeAt(Encode(c), 0).cp == c {
        DecodedIsEncoded(Encode(c), 0);
      }
    }
  }

  /** A surrogate is encoded, but does not come back. */
  lemma SurrogateIsLost()
    ensures |Encode(0xD800)| == 3 && DecodeAt(Encode(0xD800), 0).cp == -1
  {
    RoundTripIff(0xD800);
    var s := Encode(0xD800);
    assert s == [0xED, 0xA0, 0x80];
    assert !Follows(s, 0, 1);
    FollowingStops(s, 0, 2, 0);
  }

  /** On any bytes the decoder moves forward, never over the terminator in the middle of a
      sequence, and steps behind it only when it reads it first. */
  lemma DecodeProgress(s: seq<byte>, p: nat)
    requires p <= |s|
    ensures DecodeAt(s, p).next > p
    ensures p < |s| ==> DecodeAt(s, p).next <= |s|
    ensures DecodeAt(s, p).cp >= -1 && (DecodeAt(s, p).cp == 0 <==> At(s, p) == 0)
  {
    assert p < |s| ==> !Follows(s, p, |s| - p);
    if DecodeAt(s, p).cp != -1 {
      DecodedIsEncoded(s, p);
    }
  }

  // ----- the language that str_utf8_check accepts

  /** From `p` on the string is a sequence of well-formed code points. */
  predicate ValidFrom(s: seq<byte>, p: nat)
    requires p <= |s|
    decreases |s| - p
  {
    p == |s| ||
    var d := DecodeAt(s, p);
    d.cp > 0 && p < d.next <= |s| && ValidFrom(s, d.next)
  }

  /** `str_utf8_check`: decode until the terminator or an error. */
  method StrUtf8Check(str: seq<byte>) returns (ok: bool)
    requires 0 !in str
    ensures ok <==> IsUtf8(str)
  {
    ValidIffUtf8(str);
    var ptr := 0;
    while true
      invariant 0 <= ptr <= |str|
      invariant ValidFrom(str, ptr) <==> ValidFrom(str, 0)
      decreases |str| - ptr
    {
      var cp, next := Decode(str, ptr);
      DecodeProgress(str, ptr);
      assert ptr < |str| ==> str[ptr] in str;
      if cp == 0 {
        return true;
      }
      if cp == -1 {
        return false;
      }
      ptr := next;
    }
  }

  lemma ValidIffUtf8(s: seq<byte>)
    requires 0 !in s
    ensures ValidFrom(s, 0) <==> IsUtf8(s)
  {
    if ValidFrom(s, 0) {
      var cs := CodePoints(s, 0);
      assert s[0..] == s;
    }
    if IsUtf8(s) {
      var cs: seq<int> :| NonZeroScalars(cs) && s == EncodeAll(cs);
      assert s[0..] == s;
      EncodedIsValid(s, 0, cs);
    }
  }

  lemma {:induction false} CodePoints(s: seq<byte>, p: nat) returns (cs: seq<int>)
    requires p <= |s| && ValidFrom(s, p)
    ensures NonZeroScalars(cs) && s[p..] == EncodeAll(cs)
    decreases |s| - p
  {
    if p == |s| {
      cs := [];
    } else {
      var d := DecodeAt(s, p);
      DecodedIsEncoded(s, p);
      EncodedSlice(s, p, d.cp);
      var rest := CodePoints(s, d.next);
      cs := [d.cp] + rest;
      assert cs[1..] == rest;
      assert s[p..] == s[p..d.next] + s[d.next..];
    }
  }

  lemma EncodedSlice(s: seq<byte>, p: nat, c: int)
    requires p + |Encode(c)| <= |s|
    ensures EncodedAt(s, p, c) <==> s[p..p + |Encode(c)|] == Encode(c)
  {
    if EncodedAt(s, p, c) {
      assert forall i :: 0 <= i < |Encode(c)| ==> At(s, p + i) == Encode(c)[i];
    }
    if s[p..p + |Encode(c)|] == Encode(c) {
      assert forall i :: 0 <= i < |Encode(c)| ==> s[p..p + |Encode(c)|][i] == Encode(c)[i];
    }
  }

  /** The first code point of an encoded text is decoded, and the rest is encoded behind it. */
  lemma EncodedStep(s: seq<byte>, p: nat, cs: seq<int>)
    requires p <= |s| && cs != [] && NonZeroScalars(cs) && s[p..] == EncodeAll(cs)
    ensures
      var next := DecodeAt(s, p).next;
      && DecodeAt(s, p).cp == cs[0] > 0 && p < next <= |s|
      && next == p + |Encode(cs[0])| && s[next..] == EncodeAll(cs[1..]) && NonZeroScalars(cs[1..])
  {
    hide DecodeAt, Encode;
    var c, q := cs[0], p + |Encode(cs[0])|;
    assert cs[0] in cs && s[p..] == Encode(c) + EncodeAll(cs[1..]);
    assert s[p..q] == Encode(c) && s[q..] == EncodeAll(cs[1..]);
    EncodedSlice(s, p, c);
    EncodedIsDecoded(s, p, c);
    assert forall d :: d in cs[1..] ==> d in cs;
  }

  lemma {:induction false} EncodedIsValid(s: seq<byte>, p: nat, cs: seq<int>)
    requires p <= |s| && NonZeroScalars(cs) && s[p..] == EncodeAll(cs)
    ensures ValidFrom(s, p)
    decreases |cs|
  {
    hide DecodeAt, Encode;
    if cs != [] {
      EncodedStep(s, p, cs);
      EncodedIsValid(s, DecodeAt(s, p).next, cs[1..]);
    }
  }

  // ----- whole texts

  /** Everything the decoder returns up to the terminator, errors included. */
  function DecodeAll(s: seq<byte>, p: nat): (cs: seq<int>)
    requires p <= |s| && 0 !in s
    ensures |cs| <= |s| - p
    decreases |s| - p
  {
    if p == |s| then []
    else
      DecodeProgress(s, p);
      [DecodeAt(s, p).cp] + DecodeAll(s, DecodeAt(s, p).next)
  }

  lemma {:induction false} DecodeAllOfEncoding(s: seq<byte>, p: nat, cs: seq<int>)
    requires p <= |s| && 0 !in s && NonZeroScalars(cs) && s[p..] == EncodeAll(cs)
    ensures DecodeAll(s, p) == cs
    decreases |cs|
  {
    hide DecodeAt, Encode;
    if cs != [] {
      EncodedStep(s, p, cs);
      DecodeAllOfEncoding(s, DecodeAt(s, p).next, cs[1..]);
    }
  }
}
