/** The edit distance of two UTF-8 texts: both are decoded into the front of the buffer, and
    the table is filled behind them. */
module Utf8Distance {
  import opened Bytes
  import opened Utf8
  import opened EditDistance

  /** `str_to_utf32_unchecked`: the code points and a zero, written from `at` on. */
  method StrToUtf32Unchecked(str: seq<byte>, buf: array<int>, at: nat) returns (len: nat)
    requires 0 !in str && at + |str| + 1 <= buf.Length
    modifies buf
    ensures len == |DecodeAll(str, 0)| <= |str|
    ensures buf[at..at + len] == DecodeAll(str, 0)
    ensures buf[..at] == old(buf[..at])
  {
    hide DecodeAt, DecodeAll;
    var ptr := 0;
    len := 0;
    ghost var done := [];
    assert done + DecodeAll(str, 0) == DecodeAll(str, 0);
    while true
      invariant 0 <= ptr <= |str| && len == |done| <= ptr
      invariant buf[at..at + len] == done && done + DecodeAll(str, ptr) == DecodeAll(str, 0)
      invariant buf[..at] == old(buf[..at])
      decreases |str| - ptr
    {
      var cp, next := Decode(str, ptr);
      DecodeAllStep(str, ptr);
      buf[at + len] := cp;
      if cp == 0 {
        return;
      }
      assert buf[at..at + len + 1] == done + [cp];
      assert done + ([cp] + DecodeAll(str, next)) == done + [cp] + DecodeAll(str, next);
      done := done + [cp];
      ptr := next;
      len := len + 1;
    }
  }

  /** The decoder reaches the terminator, or takes one code point and moves on. */
  lemma DecodeAllStep(s: seq<byte>, p: nat)
    requires p <= |s| && 0 !in s
    ensures
      var d := DecodeAt(s, p);
      if d.cp == 0 then p == |s| && DecodeAll(s, p) == []
      else p < d.next <= |s| && DecodeAll(s, p) == [d.cp] + DecodeAll(s, d.next)
  {
    DecodeProgress(s, p);
    assert p < |s| ==> s[p] in s;
  }

  /** `str_utf8_dist_buffer`. */
  method StrUtf8DistBuffer(aUtf8: seq<byte>, bUtf8: seq<byte>, buf: array<int>) returns (d: int)
    requires 0 !in aUtf8 && 0 !in bUtf8
    requires buf.Length >= 2 * (|aUtf8| + 1 + |bUtf8| + 1)
    modifies buf
    ensures d == Dist(DecodeAll(aUtf8, 0), DecodeAll(bUtf8, 0))
    ensures forall cs, ds ::
              NonZeroScalars(cs) && NonZeroScalars(ds) && aUtf8 == EncodeAll(cs) && bUtf8 == EncodeAll(ds)
              ==> d == Dist(cs, ds)
  {
    hide Dist, DecodeAll;
    var a, b := aUtf8, bUtf8;
    if |a| > |b| {
      a, b := b, a;
      DistSymmetric(DecodeAll(aUtf8, 0), DecodeAll(bUtf8, 0));
    }
    var aLen := StrToUtf32Unchecked(a, buf, 0);
    ghost var aText := buf[..aLen];
    var bLen := StrToUtf32Unchecked(b, buf, aLen);
    assert buf[..aLen] == aText;
    d := DistBuffer(buf[..aLen], buf[aLen..aLen + bLen], buf, aLen + bLen);
    forall cs, ds | NonZeroScalars(cs) && NonZeroScalars(ds) && aUtf8 == EncodeAll(cs) && bUtf8 == EncodeAll(ds)
      ensures d == Dist(cs, ds)
    {
      assert aUtf8[0..] == aUtf8 && bUtf8[0..] == bUtf8;
      DecodeAllOfEncoding(aUtf8, 0, cs);
      DecodeAllOfEncoding(bUtf8, 0, ds);
    }
  }

  /** `str_utf8_dist`: the least number of edits of code points. */
  method StrUtf8Dist(a: seq<byte>, b: seq<byte>) returns (d: int)
    requires 0 !in a && 0 !in b
    ensures forall cs, ds :: NonZeroScalars(cs) && NonZeroScalars(ds) && a == EncodeAll(cs) && b == EncodeAll(ds)
              ==> IsLeast(cs, ds, d)
  {
    hide Dist, IsLeast;
    var buf := new int[2 * (|a| + 1 + |b| + 1)];
    d := StrUtf8DistBuffer(a, b, buf);
    forall cs, ds | NonZeroScalars(cs) && NonZeroScalars(ds) && a == EncodeAll(cs) && b == EncodeAll(ds)
      ensures IsLeast(cs, ds, d)
    {
      DistIsLeast(cs, ds);
    }
  }
}
