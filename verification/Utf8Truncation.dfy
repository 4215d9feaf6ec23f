/** Copying and appending into a buffer that may be too small for the text: what is left
    is cut at the end of a code point. */
module Utf8Truncation {
  import opened Arithmetic
  import opened Bytes
  import opened Utf8
  import opened Utf8Errors

  /** The first byte behind the string that starts at the front of a buffer. */
  function StrLen(buf: seq<byte>): (n: nat)
    ensures n <= |buf| && (n < |buf| ==> buf[n] == 0) && 0 !in buf[..n]
  {
    if buf == [] || buf[0] == 0 then 0
    else
      var n := StrLen(buf[1..]);
      assert buf[..n + 1] == [buf[0]] + buf[1..][..n];
      n + 1
  }

  function Text(buf: seq<byte>): seq<byte> {
    buf[..StrLen(buf)]
  }

  lemma {:induction false} StrLenIs(buf: seq<byte>, n: nat)
    requires n < |buf| && buf[n] == 0 && 0 !in buf[..n]
    ensures StrLen(buf) == n
  {
    if n > 0 {
      assert buf[0] == buf[..n][0];
      assert buf[1..][..n - 1] == buf[..n][1..];
      StrLenIs(buf[1..], n - 1);
    }
  }

  /** `r` is the length of the longest prefix of `w` that is UTF-8 and at most `n` long. */
  ghost predicate LongestPrefix(w: seq<byte>, n: nat, r: nat) {
    && r <= n && r <= |w| && IsUtf8(w[..r])
    && forall k :: 0 <= k <= n && k <= |w| && IsUtf8(w[..k]) ==> k <= r
  }

  // ----- the ends of code points in a valid text

  /** The end of the last code point of `w` that ends at `n` or before. */
  function LastEnd(w: seq<byte>, p: nat, n: nat): (r: nat)
    requires p <= n <= |w|
    ensures p <= r <= n
    decreases n - p
  {
    var d := DecodeAt(w, p);
    if p < d.next <= n then LastEnd(w, d.next, n) else p
  }

  /** A cut text decodes as before up to the cut; a code point across the cut is an error. */
  lemma DecodeCut(w: seq<byte>, n: nat, p: nat)
    requires p < n <= |w| && DecodeAt(w, p).cp > 0
    ensures
      var d := DecodeAt(w, p);
      if d.next <= n then DecodeAt(w[..n], p) == d else DecodeAt(w[..n], p).cp == -1
  {
    var t, k := w[..n], Needed(At(w, p));
    assert At(t, p) == At(w, p);
    FollowingCut(w, n, p, k);
  }

  lemma {:induction false} FollowingCut(w: seq<byte>, n: nat, p: nat, k: nat)
    requires p < n <= |w| && Following(w, p, k) == k
    ensures Following(w[..n], p, k) == if p + k < n then k else n - p - 1
  {
    if k > 0 {
      FollowingCut(w, n, p, k - 1);
      assert Follows(w, p, k);
      assert p + k < n ==> Follows(w[..n], p, k);
    }
  }

  /** Of a valid text exactly the prefixes up to the end of a code point are valid. */
  lemma {:induction false} ValidCut(w: seq<byte>, n: nat, p: nat)
    requires p <= n <= |w| && ValidFrom(w, p)
    ensures ValidFrom(w[..n], p) <==> LastEnd(w, p, n) == n
    decreases n - p
  {
    if p < n {
      var d := DecodeAt(w, p);
      DecodeCut(w, n, p);
      if d.next <= n {
        ValidCut(w, n, d.next);
      }
    }
  }

  lemma {:induction false} LastEndMonotone(w: seq<byte>, p: nat, k: nat, n: nat)
    requires p <= k <= n <= |w| && LastEnd(w, p, k) == k
    ensures k <= LastEnd(w, p, n)
    decreases k - p
  {
    if p < k {
      LastEndMonotone(w, DecodeAt(w, p).next, k, n);
    }
  }

  lemma {:induction false} LastEndIsEnd(w: seq<byte>, p: nat, n: nat)
    requires p <= n <= |w|
    ensures LastEnd(w, p, LastEnd(w, p, n)) == LastEnd(w, p, n)
    decreases n - p
  {
    var d := DecodeAt(w, p);
    if p < d.next <= n {
      LastEndIsEnd(w, d.next, n);
    }
  }

  lemma LastEndIsLongest(w: seq<byte>, n: nat)
    requires n <= |w| && 0 !in w && IsUtf8(w)
    ensures LongestPrefix(w, n, LastEnd(w, 0, n))
  {
    var r := LastEnd(w, 0, n);
    ValidIffUtf8(w);
    PrefixValid(w, r);
    LastEndIsEnd(w, 0, n);
    forall k | 0 <= k <= n && IsUtf8(w[..k])
      ensures k <= r
    {
      PrefixValid(w, k);
      LastEndMonotone(w, 0, k, n);
    }
  }

  lemma PrefixValid(w: seq<byte>, k: nat)
    requires k <= |w| && 0 !in w && IsUtf8(w)
    ensures IsUtf8(w[..k]) <==> LastEnd(w, 0, k) == k
  {
    ValidIffUtf8(w);
    ValidIffUtf8(w[..k]);
    ValidCut(w, k, 0);
  }

  // ----- finding the last code point from behind

  predicate IsStart(b: byte) {
    !(0x80 <= b <= 0xBF)
  }

  /** The bytes that are no start are those behind the first byte of some encoding. */
  lemma StartIff(b: byte)
    ensures IsStart(b) <==> !exists c, i :: IsScalar(c) && 1 <= i < |Encode(c)| && Encode(c)[i] == b
  {
    if !IsStart(b) {
      EncodeTwo(b);
      assert IsScalar(b) && Encode(b)[1] == b;
    }
    if c, i :| IsScalar(c) && 1 <= i < |Encode(c)| && Encode(c)[i] == b {
      hide Encode;
      EncodedShape(c);
    }
  }

  /** `str_utf8_rewind`: back to the previous byte that can start a code point. */
  method StrUtf8Rewind(str: seq<byte>, start: nat) returns (cursor: nat)
    requires start <= |str|
    ensures cursor <= start && (start > 0 ==> cursor < start)
    ensures cursor > 0 ==> IsStart(str[cursor])
    ensures forall i :: cursor < i < start ==> !IsStart(str[i])
  {
    cursor := start;
    while cursor != 0
      invariant 0 <= cursor <= start
      invariant forall i :: cursor <= i < start ==> !IsStart(str[i])
    {
      cursor := cursor - 1;
      if IsStart(str[cursor]) {
        break;
      }
    }
  }

  /** In a valid text the code point around a byte starts at the only start byte near it. */
  lemma {:induction false} StartOfLast(w: seq<byte>, p: nat, n: nat)
    requires p < n <= |w| && ValidFrom(w, p)
    ensures
      var l := LastEnd(w, p, n - 1);
      && l < n <= DecodeAt(w, l).next && DecodeAt(w, l).cp > 0
      && IsStart(w[l]) && (forall i :: l < i < n ==> !IsStart(w[i]))
      && LastEnd(w, p, n) == if DecodeAt(w, l).next == n then n else l
    decreases n - p
  {
    var d := DecodeAt(w, p);
    if d.next < n {
      StartOfLast(w, d.next, n);
    } else {
      forall i | p < i < n
        ensures !IsStart(w[i])
      {
        assert Follows(w, p, i - p);
      }
    }
  }

  /** `last` is the last start byte of the text, or its first byte. */
  ghost predicate IsLastStart(t: seq<byte>, last: nat) {
    && last < |t| && (last > 0 ==> IsStart(t[last]))
    && forall i :: last < i < |t| ==> !IsStart(t[i])
  }

  /** What the repair leaves of any bytes: they are cut at the last start byte exactly if no
      code point stands there. */
  ghost predicate Repaired(t: seq<byte>, len: nat) {
    if t == [] then len == 0
    else exists last: nat :: IsLastStart(t, last) && len == if DecodeAt(t, last).cp == -1 then last else |t|
  }

  /** `str_utf8_fix_truncation` on a cut text. */
  method FixTruncation(str: array<byte>, ghost w: seq<byte>) returns (len: nat)
    requires StrLen(str[..]) < str.Length
    requires |Text(str[..])| <= |w| && Text(str[..]) == w[..|Text(str[..])|]
    modifies str
    ensures len == StrLen(str[..]) < str.Length && len <= old(StrLen(str[..]))
    ensures Text(str[..]) == w[..len] && Repaired(old(Text(str[..])), len)
    ensures 0 !in w && IsUtf8(w) ==> len == LastEnd(w, 0, old(StrLen(str[..])))
  {
    hide DecodeAt, LastEnd, IsUtf8, IsStart;
    len := StrLen(str[..]);
    if len > 0 {
      var text := str[..len];
      assert text == w[..len];
      var last := StrUtf8Rewind(text, len);
      var cp, _ := Decode(text, last);
      assert IsLastStart(text, last);
      if 0 !in w && IsUtf8(w) {
        CutAtLast(w, len, last);
      }
      if cp == -1 {
        str[last] := 0;
        len := last;
        assert str[..last] == text[..last];
        StrLenIs(str[..], last);
      }
    }
  }

  lemma CutAtLast(w: seq<byte>, n: nat, last: nat)
    requires 0 < n <= |w| && 0 !in w && IsUtf8(w)
    requires last < n && (last > 0 ==> IsStart(w[last])) && forall i :: last < i < n ==> !IsStart(w[i])
    ensures LastEnd(w, 0, n) == if DecodeAt(w[..n], last).cp == -1 then last else n
  {
    ValidIffUtf8(w);
    StartOfLast(w, 0, n);
    var l := LastEnd(w, 0, n - 1);
    assert l == last;
    DecodeCut(w, n, l);
  }

  // ----- copying and appending

  /** `strncat` onto an empty string. */
  method CopyBytes(dst: array<byte>, src: seq<byte>, n: nat)
    requires 0 !in src && Min(n, |src|) < dst.Length
    modifies dst
    ensures StrLen(dst[..]) == Min(n, |src|) && Text(dst[..]) == src[..Min(n, |src|)]
  {
    var m := Min(n, |src|);
    forall i | 0 <= i < m {
      dst[i] := src[i];
    }
    dst[m] := 0;
    assert dst[..m] == src[..m];
    StrLenIs(dst[..], m);
  }

  /** How many bytes `str_copy` lets through. A size below one becomes a huge unsigned count,
      which cuts nothing. */
  function Room(dstSize: int, src: seq<byte>): nat {
    if dstSize >= 1 then dstSize - 1 else |src|
  }

  /** `str_copy`: the longest valid prefix of the source that fits, and its length. */
  method StrCopy(dst: array<byte>, src: seq<byte>, dstSize: int) returns (len: nat)
    requires 0 !in src && Min(Room(dstSize, src), |src|) < dst.Length
    modifies dst
    ensures len == StrLen(dst[..]) < dst.Length && len <= |src| && Text(dst[..]) == src[..len]
    ensures len <= Room(dstSize, src) && Repaired(src[..Min(Room(dstSize, src), |src|)], len)
    ensures IsUtf8(src) ==> LongestPrefix(src, if dstSize >= 1 then dstSize - 1 else |src|, len)
  {
    CopyBytes(dst, src, Room(dstSize, src));
    len := FixTruncation(dst, src);
    if IsUtf8(src) {
      LastEndIsLongest(src, Min(Room(dstSize, src), |src|));
    }
  }

  /** Text in ASCII is never cut back further than to the room there is. */
  lemma AsciiKept(w: seq<byte>, n: nat, r: nat)
    requires LongestPrefix(w, n, r) && forall i :: 0 <= i < |w| ==> 0 < w[i] < 0x80
    ensures r == Min(n, |w|)
  {
    var m := Min(n, |w|);
    var t := w[..m];
    AsciiIsUtf8(t);
  }

  lemma {:induction false} AsciiIsUtf8(w: seq<byte>)
    requires forall i :: 0 <= i < |w| ==> 0 < w[i] < 0x80
    ensures NonZeroScalars(w) && EncodeAll(w) == w && IsUtf8(w)
  {
    if w != [] {
      AsciiIsUtf8(w[1..]);
      assert Encode(w[0]) == [w[0]];
      hide Encode;
      assert w == [w[0]] + w[1..];
    }
  }

  /** `str_append`: the longest valid prefix of both texts together that fits. */
  method StrAppend(dst: array<byte>, src: seq<byte>, dstSize: nat)
    requires StrLen(dst[..]) < dst.Length && 0 !in src && 1 <= dstSize <= dst.Length
    modifies dst
    ensures
      var full, len := old(Text(dst[..])) + src, StrLen(dst[..]);
      && len < dstSize && len <= |full| && Text(dst[..]) == full[..len]
      && Repaired(full[..Min(dstSize - 1, |full|)], len)
      && (IsUtf8(full) ==> LongestPrefix(full, dstSize - 1, len))
  {
    ghost var full := Text(dst[..]) + src;
    PutBehind(dst, src, dstSize);
    var len := FixTruncation(dst, full);
    if IsUtf8(full) {
      LastEndIsLongest(full, Min(dstSize - 1, |full|));
    }
  }

  /** The copying loop of `str_append`; it stops at the end of the source or of the buffer. */
  method PutBehind(dst: array<byte>, src: seq<byte>, dstSize: nat)
    requires StrLen(dst[..]) < dst.Length && 0 !in src && 1 <= dstSize <= dst.Length
    modifies dst
    ensures
      var full := old(Text(dst[..])) + src;
      0 !in full && StrLen(dst[..]) == Min(dstSize - 1, |full|) && Text(dst[..]) == full[..Min(dstSize - 1, |full|)]
  {
    hide StrLen;
    var s, i := StrLen(dst[..]), 0;
    ghost var full := Text(dst[..]) + src;
    ghost var start := s;
    while s < dstSize
      invariant 0 <= i <= |src| && s == start + i
      invariant start <= s <= dst.Length && (i > 0 ==> s <= dstSize)
      invariant dst[..s] == full[..s]
    {
      dst[s] := At(src, i);
      if At(src, i) == 0 {
        break;
      }
      s := s + 1;
      i := i + 1;
    }
    ghost var m := Min(dstSize - 1, |full|);
    ghost var was := dst[..];
    assert was[..m] == full[..m] && (m < dstSize - 1 ==> was[m] == 0);
    dst[dstSize - 1] := 0;
    assert dst[..m] == was[..m] && dst[m] == 0;
    StrLenIs(dst[..], m);
  }

  // ----- cutting after a number of code points

  /** Where the decoder is after `n` calls, staying in front of the terminator. */
  function EndOf(s: seq<byte>, n: nat): (p: nat)
    requires 0 !in s
    ensures p <= |s|
  {
    if n == 0 then 0
    else
      var p := EndOf(s, n - 1);
      if p == |s| then p
      else
        DecodeProgress(s, p);
        DecodeAt(s, p).next
  }

  lemma {:induction false} EndOfGrows(s: seq<byte>, m: nat, n: nat)
    requires 0 !in s && m <= n
    ensures EndOf(s, m) <= EndOf(s, n)
    decreases n - m
  {
    if m < n {
      EndOfGrows(s, m, n - 1);
      DecodeProgress(s, EndOf(s, n - 1));
    }
  }

  /** `k` is the largest number of code points, at most `most`, that fit into `room` bytes. */
  ghost predicate MostThatFit(cs: seq<int>, most: nat, room: nat, k: nat) {
    && k <= most && k <= |cs| && |EncodeAll(cs[..k])| <= room
    && forall j :: 0 <= j <= most && j <= |cs| && |EncodeAll(cs[..j])| <= room ==> j <= k
  }

  lemma {:induction false} EncodeAllAppend(a: seq<int>, b: seq<int>)
    ensures EncodeAll(a + b) == EncodeAll(a) + EncodeAll(b)
  {
    hide Encode;
    if a == [] {
      assert a + b == b;
    } else {
      assert (a + b)[1..] == a[1..] + b;
      EncodeAllAppend(a[1..], b);
    }
  }

  lemma EncodeNone()
    ensures EncodeAll([]) == []
  {
  }

  lemma SliceScalars(cs: seq<int>, n: nat)
    requires n <= |cs| && NonZeroScalars(cs)
    ensures NonZeroScalars(cs[n..]) && IsUtf8(EncodeAll(cs[..n]))
  {
    assert NonZeroScalars(cs[..n]);
  }

  lemma FrontOfSum(s: seq<byte>, a: seq<byte>, b: seq<byte>)
    requires s == a + b
    ensures s[..|s| - |b|] == a
  {
  }

  /** In an encoded text the decoder stands behind the first `n` code points. */
  lemma {:induction false} EndOfEncoding(s: seq<byte>, cs: seq<int>, n: nat)
    requires 0 !in s && NonZeroScalars(cs) && s == EncodeAll(cs) && n <= |cs|
    ensures
      var p := EndOf(s, n);
      s[..p] == EncodeAll(cs[..n]) && s[p..] == EncodeAll(cs[n..]) && NonZeroScalars(cs[n..]) && IsUtf8(s[..p])
    ensures n < |cs| ==> EndOf(s, n) < |s|
  {
    hide Encode, EncodeAll, DecodeAt, NonZeroScalars, IsUtf8;
    SliceScalars(cs, n);
    if n > 0 {
      EndOfEncoding(s, cs, n - 1);
      var p, next := EndOf(s, n - 1), EndOf(s, n);
      assert cs[n - 1..][1..] == cs[n..];
      EncodedStep(s, p, cs[n - 1..]);
      assert cs[..n] + cs[n..] == cs;
      EncodeAllAppend(cs[..n], cs[n..]);
      FrontOfSum(s, EncodeAll(cs[..n]), s[next..]);
    } else {
      assert cs[0..] == cs && cs[..0] == [];
      EncodeNone();
    }
    assert IsUtf8(s[..EndOf(s, n)]);
    if n < |cs| {
      EncodedStep(s, EndOf(s, n), cs[n..]);
    }
  }

  /** The loop of `str_utf8_truncate` stops at `size`, behind `k` code points. */
  ghost predicate CutAt(s: seq<byte>, most: nat, dstSize: nat, k: nat)
    requires 0 !in s
  {
    && k <= most && EndOf(s, k) < dstSize && (k > 0 ==> EndOf(s, k - 1) < |s|)
    && (k == most || EndOf(s, k) == |s| || EndOf(s, k + 1) >= dstSize)
  }

  method CutPoint(src: seq<byte>, dstSize: nat, truncationLen: int) returns (size: int, ghost k: nat)
    requires 0 !in src && dstSize >= 1
    ensures if truncationLen < 0 then size == -1 else CutAt(src, truncationLen, dstSize, k) && size == EndOf(src, k)
  {
    hide DecodeAt;
    size, k := -1, 0;
    var cursor, pos := 0, 0;
    while pos <= truncationLen && cursor < dstSize && size != cursor
      invariant 0 <= pos && (pos > 0 ==> pos <= truncationLen + 1) && cursor == EndOf(src, pos)
      invariant
        if pos == 0 then size == -1 && k == 0
        else k == pos - 1 && size == EndOf(src, k) < cursor && size < dstSize
      decreases |src| - cursor
    {
      size, k := cursor, pos;
      var cp, next := Decode(src, cursor);
      DecodeProgress(src, cursor);
      assert cursor < |src| ==> src[cursor] in src;
      if cp == 0 {
        assert pos > 0 ==> EndOf(src, pos - 1) < cursor;
        break;
      }
      cursor := next;
      pos := pos + 1;
    }
  }

  lemma CutFits(s: seq<byte>, cs: seq<int>, most: nat, dstSize: nat, k: nat)
    requires 0 !in s && NonZeroScalars(cs) && s == EncodeAll(cs) && CutAt(s, most, dstSize, k)
    ensures k <= |cs| && MostThatFit(cs, most, dstSize - 1, k)
    ensures s[..EndOf(s, k)] == EncodeAll(cs[..k]) && IsUtf8(s[..EndOf(s, k)])
  {
    hide EncodeAll, EndOf, NonZeroScalars, IsUtf8;
    EndOfEncoding(s, cs, |cs|);
    assert cs[..|cs|] == cs;
    if k > |cs| {
      EndOfGrows(s, |cs|, k - 1);
    }
    EndOfEncoding(s, cs, k);
    forall j | 0 <= j <= most && j <= |cs| && |EncodeAll(cs[..j])| <= dstSize - 1
      ensures j <= k
    {
      EndOfEncoding(s, cs, j);
      if j > k {
        EndOfGrows(s, k + 1, j);
      }
    }
  }

  /** `str_utf8_truncate`: of a valid text exactly the first code points remain, as many as
      are asked for and fit. A negative number asks for everything, whatever fits. */
  method StrUtf8Truncate(dst: array<byte>, dstSize: nat, src: seq<byte>, truncationLen: int)
    requires 0 !in src && 1 <= dstSize <= dst.Length
    requires truncationLen < 0 ==> |src| < dst.Length
    modifies dst
    ensures
      var len := StrLen(dst[..]);
      len <= |src| && Text(dst[..]) == src[..len] && (truncationLen >= 0 ==> len < dstSize)
    ensures forall cs :: truncationLen >= 0 && NonZeroScalars(cs) && src == EncodeAll(cs) ==>
              exists k: nat :: MostThatFit(cs, truncationLen, dstSize - 1, k) && Text(dst[..]) == EncodeAll(cs[..k])
    ensures truncationLen >= 0 ==>
              exists k: nat :: CutAt(src, truncationLen, dstSize, k) && Repaired(src[..EndOf(src, k)], StrLen(dst[..]))
    ensures truncationLen < 0 ==> Repaired(src, StrLen(dst[..])) && (IsUtf8(src) ==> Text(dst[..]) == src)
  {
    hide EncodeAll, NonZeroScalars, MostThatFit, EndOf, Repaired;
    var size, k := CutPoint(src, dstSize, truncationLen);
    var len := StrCopy(dst, src, size + 1);
    assert src[..|src|] == src;
    forall cs | truncationLen >= 0 && NonZeroScalars(cs) && src == EncodeAll(cs)
      ensures k <= |cs| && MostThatFit(cs, truncationLen, dstSize - 1, k) && Text(dst[..]) == EncodeAll(cs[..k])
    {
      CutFits(src, cs, truncationLen, dstSize, k);
      assert IsUtf8(src);
    }
  }
}
