/** The base64 text of section 4 of RFC 4648, and the program's encoder and decoder. */
module Base64 {
  import opened Arithmetic
  import opened Bytes

  /** The digits, in the pieces of the alphabet. */
  const DIGITS: string :=
    "ABCDEFGHIJKLM" + "NOPQRSTUVWXYZ" + "abcdefghijklm" + "nopqrstuvwxyz" + "0123456789" + "+/"

  function Digit(v: nat): char
    requires v < 64
  {
    if v < 26 then 'A' + v as char
    else if v < 52 then 'a' + (v - 26) as char
    else if v < 62 then '0' + (v - 52) as char
    else if v == 62 then '+' else '/'
  }

  lemma DigitTable(v: nat)
    requires v < 64
    ensures |DIGITS| == 64 && DIGITS[v] == Digit(v)
  {
  }

  /** `base64_digit_value`. */
  function DigitValue(c: char): (v: int)
    ensures -1 <= v < 64
  {
    if 'A' <= c <= 'Z' then c as int - 'A' as int
    else if 'a' <= c <= 'z' then c as int - 'a' as int + 26
    else if '0' <= c <= '9' then c as int - '0' as int + 52
    else if c == '+' then 62
    else if c == '/' then 63
    else -1
  }

  lemma DigitInverse(v: nat)
    requires v < 64
    ensures DigitValue(Digit(v)) == v && Digit(v) != '='
  {
  }

  lemma ValueInverse(c: char)
    requires DigitValue(c) != -1
    ensures Digit(DigitValue(c)) == c && c != '='
  {
  }

  // ----- the text of some bytes

  function EncodedLength(n: nat): (l: nat)
    ensures l % 4 == 0
  {
    4 * ((n + 2) / 3)
  }

  /** The character at `o` of the text of `d`. */
  function EncodedChar(d: seq<byte>, o: nat): char
    requires o < EncodedLength(|d|)
  {
    var k := o / 4 * 3;
    var n := |d| - k;
    if o % 4 == 0 then Digit(d[k] / 4)
    else if o % 4 == 1 then Digit(d[k] % 4 * 16 + if n > 1 then d[k + 1] / 16 else 0)
    else if o % 4 == 2 then
      if n > 1 then Digit(d[k + 1] % 16 * 4 + if n > 2 then d[k + 2] / 64 else 0) else '='
    else if n > 2 then Digit(d[k + 2] % 64) else '='
  }

  function Encode(d: seq<byte>): (s: string)
    ensures |s| == EncodedLength(|d|)
  {
    seq(EncodedLength(|d|), o requires 0 <= o < EncodedLength(|d|) => EncodedChar(d, o))
  }

  // ----- the encoder

  function Pow2(n: nat): (p: nat)
    ensures p > 0
  {
    if n == 0 then 1 else 2 * Pow2(n - 1)
  }

  /** The six bits that come out next; missing bits are zero. */
  function Padded(value: nat, numBits: nat): (v: nat)
    ensures v < 64
  {
    if numBits >= 6 then value / Pow2(numBits - 6) % 64
    else value * Pow2(6 - numBits) % U32_RANGE % 64
  }

  /** What the encoder knows before it puts out the character at `o`: the number of bits
      that were read and not written, and those bits. */
  ghost predicate EncoderInv(d: seq<byte>, i: nat, o: nat, value: nat, numBits: int) {
    && i <= |d| && o <= EncodedLength(|d|) && value < U32_RANGE
    && var k := o / 4 * 3;
       if o % 4 == 0 then
         (i == k && numBits == 0) || (i == |d| && o == EncodedLength(|d|) && numBits <= 0)
       else if o % 4 == 1 then i == k + 1 && numBits == 2 && value % 4 == d[k] % 4
       else if o % 4 == 2 then
         if i == k + 2 then numBits == 4 && value % 16 == d[k + 1] % 16
         else i == k + 1 == |d| && numBits == -4
       else
         if i == k + 3 then numBits == 6 && value % 64 == d[k + 2] % 64
         else i == |d| && (i == k + 1 || i == k + 2) && numBits <= 0
  }

  /** `str_base64`: the text, as much of it as fits, and a terminator. */
  method StrBase64(dst: array<char>, dstSize: nat, data: seq<byte>)
    requires 1 <= dstSize <= dst.Length
    modifies dst
    ensures
      var n := Min(EncodedLength(|data|), dstSize - 1);
      dst[..n] == Encode(data)[..n] && dst[n] == '\0'
  {
    hide Padded, ShiftedIn, Digit, EncodedChar, EncoderInv;
    assert EncoderInv(data, 0, 0, 0, 0) by { EncoderStart(data); }
    var value: nat, numBits: int, i: nat, o: nat := 0, 0, 0, 0;
    var size := dstSize - 1;
    dst[size] := '\0';
    while true
      invariant o <= size && dst[size] == '\0'
      invariant o <= EncodedLength(|data|) && EncoderInv(data, i, o, value, numBits)
      invariant dst[..o] == Encode(data)[..o]
      decreases size - o
    {
      EncoderStep(data, i, o, value, numBits);
      if numBits < 6 && i < |data| {
        value := ShiftedIn(value, data[i]);
        numBits := numBits + 8;
        i := i + 1;
      }
      if o == size {
        return;
      }
      if numBits > 0 {
        DigitTable(Padded(value, numBits));
        dst[o] := DIGITS[Padded(value, numBits)];
        numBits := numBits - 6;
        o := o + 1;
      } else if o % 4 != 0 {
        dst[o] := '=';
        o := o + 1;
      } else {
        dst[o] := '\0';
        return;
      }
    }
  }

  lemma EncoderStart(d: seq<byte>)
    ensures EncoderInv(d, 0, 0, 0, 0)
  {
  }

  function ShiftedIn(value: nat, b: byte): (v: nat)
    ensures v < U32_RANGE
  {
    (value * 256 % U32_RANGE + b) % U32_RANGE
  }

  lemma ShiftedInBits(value: nat, b: byte)
    requires value < U32_RANGE
    ensures var v := ShiftedIn(value, b);
            && v % 256 == b && v % 1024 == value % 4 * 256 + b && v % 4096 == value % 16 * 256 + b
            && v % 4 == b % 4 && v % 16 == b % 16 && v % 64 == b % 64
  {
    var q := value % 0x100_0000;
    DivModIs(value * 256, U32_RANGE, value / 0x100_0000, q * 256);
    LowBits(q, b);
    DivModIs(value, 4, value / 0x100_0000 * 0x40_0000 + q / 4, q % 4);
    DivModIs(value, 16, value / 0x100_0000 * 0x10_0000 + q / 16, q % 16);
  }

  lemma LowBits(q: nat, b: byte)
    ensures var v := q * 256 + b;
            && v % 256 == b && v % 1024 == q % 4 * 256 + b && v % 4096 == q % 16 * 256 + b
            && v % 4 == b % 4 && v % 16 == b % 16 && v % 64 == b % 64
  {
    var v := q * 256 + b;
    DivModIs(v, 256, q, b);
    DivModIs(v, 1024, q / 4, q % 4 * 256 + b);
    DivModIs(v, 4096, q / 16, q % 16 * 256 + b);
    DivModIs(v, 4, q * 64 + b / 4, b % 4);
    DivModIs(v, 16, q * 16 + b / 16, b % 16);
    DivModIs(v, 64, q * 4 + b / 64, b % 64);
  }

  lemma PaddedBits(v: nat)
    requires v < U32_RANGE
    ensures Padded(v, 8) == v % 256 / 4 && Padded(v, 10) == v % 1024 / 16 && Padded(v, 12) == v % 4096 / 64
    ensures Padded(v, 6) == v % 64 && Padded(v, 4) == v % 16 * 4 && Padded(v, 2) == v % 4 * 16
  {
    assert Pow2(2) == 4 && Pow2(4) == 16 && Pow2(6) == 64 && Pow2(0) == 1;
    ShiftedOut(v);
  }

  lemma ShiftedOut(v: nat)
    requires v < U32_RANGE
    ensures v / 4 % 64 == v % 256 / 4 && v / 16 % 64 == v % 1024 / 16 && v / 64 % 64 == v % 4096 / 64
    ensures v * 4 % U32_RANGE % 64 == v % 16 * 4 && v * 16 % U32_RANGE % 64 == v % 4 * 16
  {
    DivModIs(v / 4, 64, v / 256, v % 256 / 4);
    DivModIs(v / 16, 64, v / 1024, v % 1024 / 16);
    DivModIs(v / 64, 64, v / 4096, v % 4096 / 64);
    var w, x := v % 0x4000_0000, v % 0x1000_0000;
    DivModIs(v * 4, U32_RANGE, v / 0x4000_0000, w * 4);
    DivModIs(w * 4, 64, w / 16, w % 16 * 4);
    DivModIs(v, 16, v / 0x4000_0000 * 0x400_0000 + w / 16, w % 16);
    DivModIs(v * 16, U32_RANGE, v / 0x1000_0000, x * 16);
    DivModIs(x * 16, 64, x / 4, x % 4 * 16);
    DivModIs(v, 4, v / 0x1000_0000 * 0x400_0000 + x / 4, x % 4);
  }

  /** What one turn of the loop must achieve. */
  ghost predicate EncoderGoal(d: seq<byte>, i: nat, o: nat, value: nat, numBits: int) {
    var more := numBits < 6 && i < |d|;
    var v := if more then ShiftedIn(value, d[i]) else value;
    var b := if more then numBits + 8 else numBits;
    var j := if more then i + 1 else i;
    if b > 0 then
      && o < EncodedLength(|d|) && Digit(Padded(v, b)) == EncodedChar(d, o)
      && EncoderInv(d, j, o + 1, v, b - 6)
    else if o % 4 != 0 then
      && o < EncodedLength(|d|) && EncodedChar(d, o) == '='
      && EncoderInv(d, j, o + 1, v, b)
    else o == EncodedLength(|d|)
  }

  /** One turn of the encoder loop puts out the right character and keeps the invariant. */
  lemma EncoderStep(d: seq<byte>, i: nat, o: nat, value: nat, numBits: int)
    requires EncoderInv(d, i, o, value, numBits)
    ensures EncoderGoal(d, i, o, value, numBits)
  {
    if o % 4 == 0 {
      FirstChar(d, i, o, value, numBits);
    } else if o % 4 == 1 {
      SecondChar(d, i, o, value, numBits);
    } else if o % 4 == 2 {
      ThirdChar(d, i, o, value, numBits);
    } else {
      FourthChar(d, i, o, value, numBits);
    }
  }

  lemma FirstChar(d: seq<byte>, i: nat, o: nat, value: nat, numBits: int)
    requires EncoderInv(d, i, o, value, numBits) && o % 4 == 0
    ensures EncoderGoal(d, i, o, value, numBits)
  {
    hide ShiftedIn, Padded, Digit;
    PaddedBits(value);
    if i < |d| {
      ShiftedInBits(value, d[i]);
      PaddedBits(ShiftedIn(value, d[i]));
    }
  }

  lemma SecondChar(d: seq<byte>, i: nat, o: nat, value: nat, numBits: int)
    requires EncoderInv(d, i, o, value, numBits) && o % 4 == 1
    ensures EncoderGoal(d, i, o, value, numBits)
  {
    hide ShiftedIn, Padded, Digit;
    PaddedBits(value);
    if i < |d| {
      ShiftedInBits(value, d[i]);
      PaddedBits(ShiftedIn(value, d[i]));
    }
  }

  lemma ThirdChar(d: seq<byte>, i: nat, o: nat, value: nat, numBits: int)
    requires EncoderInv(d, i, o, value, numBits) && o % 4 == 2
    ensures EncoderGoal(d, i, o, value, numBits)
  {
    hide ShiftedIn, Padded, Digit;
    PaddedBits(value);
    if i < |d| {
      ShiftedInBits(value, d[i]);
      PaddedBits(ShiftedIn(value, d[i]));
    }
  }

  lemma FourthChar(d: seq<byte>, i: nat, o: nat, value: nat, numBits: int)
    requires EncoderInv(d, i, o, value, numBits) && o % 4 == 3
    ensures EncoderGoal(d, i, o, value, numBits)
  {
    hide ShiftedIn, Padded, Digit;
    PaddedBits(value);
    if i < |d| {
      ShiftedInBits(value, d[i]);
      PaddedBits(ShiftedIn(value, d[i]));
    }
  }

  // ----- one group of the decoder

  /** The three bytes of four digit values. */
  function GroupBytes(v: seq<int>): (b: seq<byte>)
    requires |v| == 4 && forall i :: 0 <= i < 4 ==> 0 <= v[i] < 64
    ensures |b| == 3
  {
    var value := v[0] * 0x40000 + v[1] * 4096 + v[2] * 64 + v[3];
    [value / 0x10000 % 256, value / 256 % 256, value % 256]
  }

  /** The group with its padding read as zero digits, and the number of bytes it stands for. */
  function Unpadded(g: string, last: bool): (r: (string, nat))
    requires |g| == 4
    ensures |r.0| == 4 && 1 <= r.1 <= 3 && (!last ==> r.1 == 3)
  {
    if last && g[3] == '=' then
      if g[2] == '=' then ([g[0], g[1], 'A', 'A'], 1) else ([g[0], g[1], g[2], 'A'], 2)
    else (g, 3)
  }

  function Values(g: string): (v: seq<int>)
    requires |g| == 4
    ensures |v| == 4 && forall i :: 0 <= i < 4 ==> v[i] == DigitValue(g[i])
  {
    [DigitValue(g[0]), DigitValue(g[1]), DigitValue(g[2]), DigitValue(g[3])]
  }

  datatype Group = BadDigit | PaddingNotZero | Decoded(bytes: seq<byte>)

  function DecodeGroup(g: string, last: bool): Group
    requires |g| == 4
  {
    var (digits, n) := Unpadded(g, last);
    var v := Values(digits);
    if exists i :: 0 <= i < 4 && v[i] == -1 then BadDigit
    else
      var b := GroupBytes(v);
      if exists i :: n <= i < 3 && b[i] != 0 then PaddingNotZero else Decoded(b[..n])
  }

  /** What a group decodes to is encoded as that group: nothing non-canonical is accepted. */
  lemma DecodedGroupEncodes(g: string, last: bool)
    requires |g| == 4 && DecodeGroup(g, last).Decoded?
    ensures
      var b := DecodeGroup(g, last).bytes;
      1 <= |b| <= 3 && (!last ==> |b| == 3) && Encode(b) == g
  {
    hide Digit, DigitValue;
    var (digits, n) := Unpadded(g, last);
    var v := Values(digits);
    assert v[0] != -1 && v[1] != -1 && v[2] != -1 && v[3] != -1;
    var b := GroupBytes(v);
    assert n <= 2 ==> b[2] == 0;
    assert n <= 1 ==> b[1] == 0;
    GroupArithmetic(v[0], v[1], v[2], v[3]);
    BytesToDigits(v, b);
    ValueInverse(digits[0]);
    ValueInverse(digits[1]);
    ValueInverse(digits[2]);
    ValueInverse(digits[3]);
    EncodeGroup(b[..n]);
  }

  lemma BytesToDigits(v: seq<int>, b: seq<byte>)
    requires |v| == 4 && |b| == 3 && forall i :: 0 <= i < 4 ==> 0 <= v[i] < 64
    requires b == [v[0] * 4 + v[1] / 16, v[1] % 16 * 16 + v[2] / 4, v[2] % 4 * 64 + v[3]]
    ensures v[0] == b[0] / 4 && v[1] == b[0] % 4 * 16 + b[1] / 16
    ensures v[2] == b[1] % 16 * 4 + b[2] / 64 && v[3] == b[2] % 64
  {
  }

  /** The text of one group, character by character. */
  lemma EncodeGroup(b: seq<byte>)
    requires 1 <= |b| <= 3
    ensures
      var b1 := if |b| > 1 then b[1] else 0;
      var b2 := if |b| > 2 then b[2] else 0;
      Encode(b) == [
        Digit(b[0] / 4), Digit(b[0] % 4 * 16 + b1 / 16),
        if |b| > 1 then Digit(b1 % 16 * 4 + b2 / 64) else '=',
        if |b| > 2 then Digit(b2 % 64) else '=']
  {
    hide Digit;
  }

  lemma GroupArithmetic(a: nat, b: nat, c: nat, d: nat)
    requires a < 64 && b < 64 && c < 64 && d < 64
    ensures
      var value := a * 0x40000 + b * 4096 + c * 64 + d;
      && value / 0x10000 % 256 == a * 4 + b / 16
      && value / 256 % 256 == b % 16 * 16 + c / 4
      && value % 256 == c % 4 * 64 + d
  {
    var value := a * 0x40000 + b * 4096 + c * 64 + d;
    DivModIs(value, 0x10000, a * 4 + b / 16, b % 16 * 4096 + c * 64 + d);
    DivModIs(value, 256, a * 1024 + b * 16 + c / 4, c % 4 * 64 + d);
    DivModIs(a * 1024 + b * 16 + c / 4, 256, a * 4 + b / 16, b % 16 * 16 + c / 4);
  }

  lemma DigitsToBytes(b0: byte, b1: byte, b2: byte)
    ensures
      var v := [b0 / 4, b0 % 4 * 16 + b1 / 16, b1 % 16 * 4 + b2 / 64, b2 % 64];
      GroupBytes(v) == [b0, b1, b2]
  {
    var v0, v1, v2, v3 := b0 / 4, b0 % 4 * 16 + b1 / 16, b1 % 16 * 4 + b2 / 64, b2 % 64;
    GroupArithmetic(v0, v1, v2, v3);
    DivModIs(v1, 16, b0 % 4, b1 / 16);
    DivModIs(v2, 4, b1 % 16, b2 / 64);
  }

  /** The text of up to three bytes decodes to them. */
  lemma EncodedGroupDecodes(b: seq<byte>, last: bool)
    requires 1 <= |b| <= 3 && (!last ==> |b| == 3)
    ensures DecodeGroup(Encode(b), last) == Decoded(b)
  {
    hide Digit, DigitValue, Encode, GroupBytes;
    var b0, b1, b2 := b[0], if |b| > 1 then b[1] else 0, if |b| > 2 then b[2] else 0;
    EncodeGroup(b);
    LetterA();
    DigitInverse(b0 / 4);
    DigitInverse(b0 % 4 * 16 + b1 / 16);
    DigitInverse(b1 % 16 * 4 + b2 / 64);
    DigitInverse(b2 % 64);
    DigitsToBytes(b0, b1, b2);
    var g := Encode(b);
    var (digits, n) := Unpadded(g, last);
    assert n == |b|;
    assert Values(digits) == [b0 / 4, b0 % 4 * 16 + b1 / 16, b1 % 16 * 4 + b2 / 64, b2 % 64];
    assert b == [b0, b1, b2][..n];
  }

  lemma LetterA()
    ensures DigitValue('A') == 0
  {
  }

  // ----- the decoder

  ghost predicate IsEncoding(s: string) {
    exists d :: Encode(d) == s
  }

  function GroupAt(s: string, k: nat): (g: string)
    requires 4 * k + 4 <= |s|
    ensures |g| == 4
  {
    s[4 * k..4 * k + 4]
  }

  function GroupResult(s: string, k: nat): Group
    requires 4 * k + 4 <= |s|
  {
    DecodeGroup(GroupAt(s, k), 4 * k + 4 == |s|)
  }

  /** Padding stands at the end, one or two characters long. */
  predicate IsPadding(s: string, i: nat)
    requires i < |s|
  {
    s[i] == '=' && (i == |s| - 1 || (i == |s| - 2 && s[|s| - 1] == '='))
  }

  /** Some character is not in the alphabet and no padding in its place. */
  ghost predicate HasBadDigit(s: string) {
    exists i: nat :: i < |s| && IsBad(s, i)
  }

  predicate IsBad(s: string, i: nat)
    requires i < |s|
  {
    s[i] !in DIGITS && !IsPadding(s, i)
  }

  /** The digits are exactly the characters with a value. */
  lemma DigitIff(c: char)
    ensures c in DIGITS <==> DigitValue(c) != -1
  {
    if c in DIGITS {
      var v: nat :| v < |DIGITS| && DIGITS[v] == c;
      InTable(v);
      DigitTable(v);
      DigitInverse(v);
    }
    if DigitValue(c) != -1 {
      ValueInverse(c);
      DigitTable(DigitValue(c));
    }
  }

  lemma InTable(v: nat)
    requires v < |DIGITS|
    ensures v < 64
  {
  }

  /** A group is refused for its digits exactly if one of its characters is bad. */
  lemma BadGroupIff(s: string, k: nat)
    requires |s| % 4 == 0 && 4 * k + 4 <= |s|
    ensures GroupResult(s, k).BadDigit? <==> exists i :: 4 * k <= i < 4 * k + 4 && IsBad(s, i)
  {
    hide DIGITS, DigitValue, GroupBytes;
    var g, last := GroupAt(s, k), 4 * k + 4 == |s|;
    var digits := Unpadded(g, last).0;
    LetterA();
    forall j | 0 <= j < 4
      ensures DigitValue(digits[j]) == -1 <==> IsBad(s, 4 * k + j)
    {
      assert g[j] == s[4 * k + j];
      DigitIff(g[j]);
      DigitIff(digits[j]);
      DigitIff('=');
      NoDigit();
    }
    assert forall j :: 0 <= j < 4 ==> Values(digits)[j] == DigitValue(digits[j]);
    if GroupResult(s, k).BadDigit? {
      var j :| 0 <= j < 4 && Values(digits)[j] == -1;
      assert IsBad(s, 4 * k + j);
    }
    if i :| 4 * k <= i < 4 * k + 4 && IsBad(s, i) {
      assert DigitValue(digits[i - 4 * k]) == -1;
      assert Values(digits)[i - 4 * k] == -1;
    }
  }

  lemma NoDigit()
    ensures DigitValue('=') == -1
  {
  }

  ghost predicate HasBadGroup(s: string) {
    exists k: nat :: 4 * k + 4 <= |s| && GroupResult(s, k).BadDigit?
  }

  lemma BadGroupsIff(s: string)
    requires |s| % 4 == 0
    ensures HasBadDigit(s) <==> HasBadGroup(s)
  {
    hide GroupResult, IsBad;
    if HasBadGroup(s) {
      var k: nat :| 4 * k + 4 <= |s| && GroupResult(s, k).BadDigit?;
      BadGroupIff(s, k);
    }
    if HasBadDigit(s) {
      var i: nat :| i < |s| && IsBad(s, i);
      BadGroupIff(s, i / 4);
    }
  }

  lemma CharBefore(a: seq<byte>, b: seq<byte>, o: nat)
    requires |a| % 3 == 0 && o < EncodedLength(|a|)
    ensures o < EncodedLength(|a + b|) && EncodedChar(a + b, o) == EncodedChar(a, o)
  {
    hide Digit;
    assert o / 4 * 3 + 3 <= |a|;
  }

  lemma CharBehind(a: seq<byte>, b: seq<byte>, o: nat)
    requires |a| % 3 == 0 && o < EncodedLength(|b|)
    ensures
      var m := EncodedLength(|a|);
      m + o < EncodedLength(|a + b|) && EncodedChar(a + b, m + o) == EncodedChar(b, o)
  {
    hide Digit;
    var m := EncodedLength(|a|);
    assert (m + o) / 4 == |a| / 3 + o / 4 && (m + o) % 4 == o % 4;
    assert (m + o) / 4 * 3 == |a| + o / 4 * 3;
  }

  lemma EncodeAppend(a: seq<byte>, b: seq<byte>)
    requires |a| % 3 == 0
    ensures Encode(a + b) == Encode(a) + Encode(b)
  {
    hide EncodedChar;
    var m := EncodedLength(|a|);
    assert EncodedLength(|a + b|) == m + EncodedLength(|b|);
    forall o | 0 <= o < m + EncodedLength(|b|)
      ensures Encode(a + b)[o] == (Encode(a) + Encode(b))[o]
    {
      if o < m {
        CharBefore(a, b, o);
      } else {
        CharBehind(a, b, o - m);
      }
    }
  }

  /** Every group of an encoding decodes to its bytes. */
  lemma GroupOfEncoding(d: seq<byte>, k: nat)
    requires 4 * k + 4 <= |Encode(d)|
    ensures 3 * k < |d| && GroupResult(Encode(d), k) == Decoded(d[3 * k..Min(3 * k + 3, |d|)])
  {
    hide DecodeGroup, EncodedChar;
    var from, to := 3 * k, Min(3 * k + 3, |d|);
    var b := d[from..to];
    var last := 4 * k + 4 == |Encode(d)|;
    assert d == d[..from] + (b + d[to..]);
    EncodeAppend(d[..from], b + d[to..]);
    if |b| == 3 {
      EncodeAppend(b, d[to..]);
    } else {
      assert b + d[to..] == b;
    }
    assert |Encode(d[..from])| == 4 * k && |Encode(b)| == 4;
    assert GroupAt(Encode(d), k) == Encode(b);
    EncodedGroupDecodes(b, last);
  }

  lemma BadGroupRefutes(s: string, k: nat)
    requires 4 * k + 4 <= |s| && !GroupResult(s, k).Decoded?
    ensures !IsEncoding(s)
  {
    forall d | Encode(d) == s
      ensures false
    {
      GroupOfEncoding(d, k);
    }
  }

  lemma EncodingHasGoodDigits(s: string)
    requires IsEncoding(s)
    ensures !HasBadGroup(s)
  {
    forall k: nat | 4 * k + 4 <= |s|
      ensures !GroupResult(s, k).BadDigit?
    {
      if !GroupResult(s, k).Decoded? {
        BadGroupRefutes(s, k);
      }
    }
  }

  /** `str_base64_decode`: accepts exactly the encodings, and returns what they encode; so
      non-zero bits behind the data are refused. */
  method StrBase64Decode(dst: array<byte>, dstSize: nat, data: string) returns (r: int)
    requires dstSize <= dst.Length
    modifies dst
    ensures r == -3 <==> |data| % 4 != 0
    ensures |data| % 4 == 0 && |data| / 4 * 3 > dstSize ==> r == -2
    ensures |data| % 4 == 0 && |data| / 4 * 3 <= dstSize ==>
              && (r >= 0 <==> IsEncoding(data))
              && (r == -1 <==> HasBadDigit(data))
              && (r < 0 ==> r == -1 || r == -2)
    ensures r >= 0 ==> r <= dstSize && Encode(dst[..r]) == data
  {
    if |data| % 4 != 0 {
      return -3;
    }
    if |data| / 4 * 3 > dstSize {
      return -2;
    }
    r := DecodeGroups(dst, data);
  }

  /** The loop of the decoder, over the groups of a text that fits. */
  method DecodeGroups(dst: array<byte>, data: string) returns (r: int)
    requires |data| % 4 == 0 && |data| / 4 * 3 <= dst.Length
    modifies dst
    ensures r >= 0 <==> IsEncoding(data)
    ensures (r == -1 <==> HasBadDigit(data)) && (r < 0 ==> r == -1 || r == -2)
    ensures r >= 0 ==> r <= |data| / 4 * 3 && Encode(dst[..r]) == data
  {
    hide Encode, GroupResult, GroupAt, IsEncoding, HasBadGroup, GoodUpTo;
    var i, o := 0, 0;
    StartDecoding(data);
    BadGroupsIff(data);
    while i < |data|
      invariant 0 <= i <= |data| && i % 4 == 0 && 0 <= o <= i / 4 * 3
      invariant i < |data| ==> o == i / 4 * 3
      invariant Encode(dst[..o]) == data[..i]
      invariant GoodUpTo(data, i)
    {
      var code, n := DecodeOneGroup(dst, o, data, i);
      if code != 0 {
        FailedGroup(data, i / 4);
        return code;
      }
      NextGroup(dst[..o], dst[o..o + n], data, i);
      assert dst[..o + n] == dst[..o] + dst[o..o + n];
      o := o + n;
      i := i + 4;
    }
    assert data[..|data|] == data;
    EncodingFound(data, dst[..o]);
    r := o;
  }

  ghost predicate GoodUpTo(s: string, i: nat)
    requires i <= |s|
  {
    forall k: nat :: 4 * k + 4 <= i ==> !GroupResult(s, k).BadDigit?
  }

  lemma StartDecoding(s: string)
    ensures Encode([]) == s[..0] && GoodUpTo(s, 0)
  {
  }

  lemma EncodingFound(s: string, d: seq<byte>)
    requires Encode(d) == s
    ensures IsEncoding(s) && !HasBadGroup(s)
  {
    EncodingHasGoodDigits(s);
  }

  lemma FailedGroup(s: string, k: nat)
    requires 4 * k + 4 <= |s| && !GroupResult(s, k).Decoded?
    requires GroupResult(s, k).PaddingNotZero? ==> 4 * k + 4 == |s|
    requires GoodUpTo(s, 4 * k)
    ensures !IsEncoding(s)
    ensures HasBadGroup(s) <==> GroupResult(s, k).BadDigit?
  {
    hide GroupResult;
    BadGroupRefutes(s, k);
  }

  lemma GoodNext(s: string, i: nat)
    requires i % 4 == 0 && i + 4 <= |s| && GoodUpTo(s, i) && !GroupResult(s, i / 4).BadDigit?
    ensures GoodUpTo(s, i + 4)
  {
    hide GroupResult;
    assert forall k: nat :: 4 * k + 4 <= i + 4 ==> 4 * k + 4 <= i || k == i / 4;
  }

  lemma NextGroup(done: seq<byte>, bytes: seq<byte>, s: string, i: nat)
    requires i % 4 == 0 && i + 4 <= |s| && |done| == i / 4 * 3 && Encode(done) == s[..i]
    requires GroupResult(s, i / 4) == Decoded(bytes)
    requires GoodUpTo(s, i)
    ensures Encode(done + bytes) == s[..i + 4] && GoodUpTo(s, i + 4)
    ensures |bytes| <= 3 && (i + 4 < |s| ==> |bytes| == 3)
  {
    hide DecodeGroup, EncodedChar, Encode;
    GoodNext(s, i);
    hide GoodUpTo;
    DecodedGroupEncodes(GroupAt(s, i / 4), i + 4 == |s|);
    EncodeAppend(done, bytes);
    assert s[..i + 4] == s[..i] + GroupAt(s, i / 4);
  }

  /** The body of the decoder loop. */
  method DecodeOneGroup(dst: array<byte>, at: nat, data: string, i: nat) returns (code: int, n: nat)
    requires i % 4 == 0 && i + 4 <= |data| && at + 3 <= dst.Length
    modifies dst
    ensures dst[..at] == old(dst[..at])
    ensures
      match GroupResult(data, i / 4)
      case BadDigit => code == -1
      case PaddingNotZero => code == -2 && i + 4 == |data|
      case Decoded(bytes) => code == 0 && n == |bytes| && n <= 3 && dst[at..at + n] == bytes
  {
    hide DigitValue, GroupBytes, Unpadded;
    var copy, numOutputBytes := Unpad(data, i);
    var d := Values(copy);
    n := 0;
    if d[0] == -1 || d[1] == -1 || d[2] == -1 || d[3] == -1 {
      return -1, 0;
    }
    code, n := PutBytes(dst, at, GroupBytes(d), numOutputBytes);
  }

  /** The four characters, with padding at the end of the text read as 'A'. */
  method Unpad(data: string, i: nat) returns (copy: string, numOutputBytes: nat)
    requires i % 4 == 0 && i + 4 <= |data|
    ensures |copy| == 4 && (copy, numOutputBytes) == Unpadded(GroupAt(data, i / 4), i + 4 == |data|)
  {
    copy, numOutputBytes := data[i..i + 4], 3;
    ghost var group := GroupAt(data, i / 4);
    assert copy == group;
    if i == |data| - 4 {
      if copy[3] == '=' {
        copy := copy[3 := 'A'];
        numOutputBytes := 2;
        if copy[2] == '=' {
          copy := copy[2 := 'A'];
          numOutputBytes := 1;
        }
      }
    }
    assert copy == Unpadded(group, i + 4 == |data|).0;
  }

  /** Store the bytes that count; the others must be zero. */
  method PutBytes(dst: array<byte>, at: nat, bytes: seq<byte>, numOutputBytes: nat) returns (code: int, n: nat)
    requires |bytes| == 3 && 1 <= numOutputBytes <= 3 && at + 3 <= dst.Length
    modifies dst
    ensures dst[..at] == old(dst[..at])
    ensures
      if exists j :: numOutputBytes <= j < 3 && bytes[j] != 0 then code == -2
      else code == 0 && n == numOutputBytes && dst[at..at + n] == bytes[..n]
  {
    n := 0;
    var b := 0;
    while b < 3
      invariant 0 <= b <= 3 && n == Min(b, numOutputBytes)
      invariant dst[..at] == old(dst[..at])
      invariant dst[at..at + n] == bytes[..n]
      invariant forall j :: numOutputBytes <= j < b ==> bytes[j] == 0
    {
      if b < numOutputBytes {
        dst[at + n] := bytes[b];
        n := n + 1;
      } else if bytes[b] != 0 {
        return -2, n;
      }
      b := b + 1;
    }
    code := 0;
  }

  // ----- round trips

  lemma EncodeInjective(d: seq<byte>, e: seq<byte>)
    requires Encode(d) == Encode(e)
    ensures d == e
  {
    hide DecodeGroup, EncodedChar;
    if |d| > 0 || |e| > 0 {
      LengthFromGroups(d);
      LengthFromGroups(e);
    }
    forall i | 0 <= i < |d|
      ensures d[i] == e[i]
    {
      GroupOfEncoding(d, i / 3);
      GroupOfEncoding(e, i / 3);
      assert d[i] == d[i / 3 * 3..Min(i / 3 * 3 + 3, |d|)][i % 3];
      assert e[i] == e[i / 3 * 3..Min(i / 3 * 3 + 3, |e|)][i % 3];
    }
  }

  /** The length of the last group fixes the length of the data. */
  lemma LengthFromGroups(d: seq<byte>)
    ensures |Encode(d)| > 0 ==>
              var k := |Encode(d)| / 4 - 1;
              GroupResult(Encode(d), k).Decoded? && |d| == 3 * k + |GroupResult(Encode(d), k).bytes|
    ensures |Encode(d)| == 0 ==> |d| == 0
  {
    hide EncodedChar, GroupResult;
    if |Encode(d)| > 0 {
      GroupOfEncoding(d, |Encode(d)| / 4 - 1);
    }
  }

  /** Encoding into a large enough buffer and decoding the text gives the bytes back. */
  method RoundTrip(data: seq<byte>) returns (back: seq<byte>)
    ensures back == data
  {
    var text := new char[EncodedLength(|data|) + 1];
    StrBase64(text, text.Length, data);
    var encoded := text[..EncodedLength(|data|)];
    assert encoded == Encode(data);
    var bytes := new byte[EncodedLength(|data|) / 4 * 3];
    var r := StrBase64Decode(bytes, bytes.Length, encoded);
    assert IsEncoding(encoded);
    EncodeInjective(data, bytes[..r]);
    back := bytes[..r];
  }
}
