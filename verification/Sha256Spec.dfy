/** The SHA-256 of FIPS 180-4 on messages of whole bytes. */
module Sha256Spec {
  type u8 = bv8
  type u32 = bv32

  // section 3.2: operations on words

  function Add(x: u32, y: u32): u32 { x + y }
  function Xor3(x: u32, y: u32, z: u32): u32 { x ^ y ^ z }
  function Shr(x: u32, n: u32): u32 requires n < 32 { x >> n }
  function Rotr(x: u32, n: u32): u32 requires n < 32 { (x >> n) | (x << (32 - n)) }

  // section 4.1.2

  function Choose(x: u32, y: u32, z: u32): u32 { (x & y) ^ (!x & z) }
  function Majority(x: u32, y: u32, z: u32): u32 { Xor3(x & y, x & z, y & z) }
  function BigSigma0(x: u32): u32 { Xor3(Rotr(x, 2), Rotr(x, 13), Rotr(x, 22)) }
  function BigSigma1(x: u32): u32 { Xor3(Rotr(x, 6), Rotr(x, 11), Rotr(x, 25)) }
  function SmallSigma0(x: u32): u32 { Xor3(Rotr(x, 7), Rotr(x, 18), Shr(x, 3)) }
  function SmallSigma1(x: u32): u32 { Xor3(Rotr(x, 17), Rotr(x, 19), Shr(x, 10)) }

  const TWO64: nat := 0x1_0000_0000_0000_0000

  // sections 4.2.2 and 5.3.3

  const K_0: seq<u32> := [
    0x428a2f98, 0x71374491, 0xb5c0fbcf, 0xe9b5dba5, 0x3956c25b, 0x59f111f1, 0x923f82a4, 0xab1c5ed5]
  const K_1: seq<u32> := [
    0xd807aa98, 0x12835b01, 0x243185be, 0x550c7dc3, 0x72be5d74, 0x80deb1fe, 0x9bdc06a7, 0xc19bf174]
  const K_2: seq<u32> := [
    0xe49b69c1, 0xefbe4786, 0x0fc19dc6, 0x240ca1cc, 0x2de92c6f, 0x4a7484aa, 0x5cb0a9dc, 0x76f988da]
  const K_3: seq<u32> := [
    0x983e5152, 0xa831c66d, 0xb00327c8, 0xbf597fc7, 0xc6e00bf3, 0xd5a79147, 0x06ca6351, 0x14292967]
  const K_4: seq<u32> := [
    0x27b70a85, 0x2e1b2138, 0x4d2c6dfc, 0x53380d13, 0x650a7354, 0x766a0abb, 0x81c2c92e, 0x92722c85]
  const K_5: seq<u32> := [
    0xa2bfe8a1, 0xa81a664b, 0xc24b8b70, 0xc76c51a3, 0xd192e819, 0xd6990624, 0xf40e3585, 0x106aa070]
  const K_6: seq<u32> := [
    0x19a4c116, 0x1e376c08, 0x2748774c, 0x34b0bcb5, 0x391c0cb3, 0x4ed8aa4a, 0x5b9cca4f, 0x682e6ff3]
  const K_7: seq<u32> := [
    0x748f82ee, 0x78a5636f, 0x84c87814, 0x8cc70208, 0x90befffa, 0xa4506ceb, 0xbef9a3f7, 0xc67178f2]

  const K: seq<u32> := K_0 + K_1 + K_2 + K_3 + K_4 + K_5 + K_6 + K_7

  const IV: seq<u32> := [
    0x6A09E667, 0xBB67AE85, 0x3C6EF372, 0xA54FF53A, 0x510E527F, 0x9B05688C, 0x1F83D9AB, 0x5BE0CD19]

  // section 5.1.1

  /** The least number of zero bytes that brings `len` bytes and the 0x80 to 56 modulo 64. */
  function ZeroCount(len: nat): (k: nat)
    ensures (len + 1 + k) % 64 == 56 && k < 64
  {
    (119 - len % 64) % 64
  }

  function Zeros(n: nat): seq<u8> {
    seq(n, _ => 0 as u8)
  }

  /** The `n` lowest bytes of `x`, most significant first. */
  function BigEndian(x: nat, n: nat): (s: seq<u8>)
    ensures |s| == n
  {
    if n == 0 then [] else BigEndian(x / 256, n - 1) + [(x % 256) as u8]
  }

  /** The length in bits, in 64 bits. */
  function LengthField(len: nat): (s: seq<u8>)
    ensures |s| == 8
  {
    BigEndian(8 * len % TWO64, 8)
  }

  /** The padded message. The standard covers lengths below 2^64 bits, where the reduction
      of the length changes nothing. */
  function Pad(m: seq<u8>): (p: seq<u8>)
    ensures |p| % 64 == 0
  {
    var zeros := Zeros(ZeroCount(|m|));
    assert (|m| + 1 + |zeros| + 8) % 64 == 0;
    m + [0x80] + zeros + LengthField(|m|)
  }

  // sections 5.2.1 and 6.2.2

  function Word(b: seq<u8>): u32
    requires |b| == 4
  {
    ((b[0] as u32) << 24) | ((b[1] as u32) << 16) | ((b[2] as u32) << 8) | (b[3] as u32)
  }

  function Schedule(block: seq<u8>, t: nat): u32
    requires |block| == 64
  {
    if t < 16 then Word(block[4 * t..4 * t + 4])
    else
      Add(Add(Add(SmallSigma1(Schedule(block, t - 2)), Schedule(block, t - 7)),
              SmallSigma0(Schedule(block, t - 15))), Schedule(block, t - 16))
  }

  datatype Working = Working(a: u32, b: u32, c: u32, d: u32, e: u32, f: u32, g: u32, h: u32)

  function T1(v: Working, k: u32, w: u32): u32 {
    Add(Add(Add(Add(v.h, BigSigma1(v.e)), Choose(v.e, v.f, v.g)), k), w)
  }

  function T2(v: Working): u32 {
    Add(BigSigma0(v.a), Majority(v.a, v.b, v.c))
  }

  function Round(v: Working, k: u32, w: u32): Working {
    Working(Add(T1(v, k, w), T2(v)), v.a, v.b, v.c, Add(v.d, T1(v, k, w)), v.e, v.f, v.g)
  }

  function Rounds(v: Working, block: seq<u8>, n: nat): Working
    requires |block| == 64 && n <= 64
  {
    if n == 0 then v else Round(Rounds(v, block, n - 1), K[n - 1], Schedule(block, n - 1))
  }

  function Loaded(h: seq<u32>): Working
    requires |h| == 8
  {
    Working(h[0], h[1], h[2], h[3], h[4], h[5], h[6], h[7])
  }

  function AsSeq(v: Working): (s: seq<u32>)
    ensures |s| == 8
  {
    [v.a, v.b, v.c, v.d, v.e, v.f, v.g, v.h]
  }

  function AddWords(h: seq<u32>, v: seq<u32>): (r: seq<u32>)
    requires |h| == |v| == 8
    ensures |r| == 8
  {
    seq(8, i requires 0 <= i < 8 => Add(h[i], v[i]))
  }

  function Compressed(h: seq<u32>, block: seq<u8>): (r: seq<u32>)
    requires |h| == 8 && |block| == 64
    ensures |r| == 8
  {
    AddWords(h, AsSeq(Rounds(Loaded(h), block, 64)))
  }

  /** The hash value after all the blocks of `m`. */
  function HashBlocks(m: seq<u8>): (h: seq<u32>)
    requires |m| % 64 == 0
    ensures |h| == 8
  {
    if m == [] then IV
    else Compressed(HashBlocks(m[..|m| - 64]), m[|m| - 64..])
  }

  function WordBytes(w: u32): (b: seq<u8>)
    ensures |b| == 4 && Word(b) == w
  {
    [(w >> 24) as u8, ((w >> 16) & 0xff) as u8, ((w >> 8) & 0xff) as u8, (w & 0xff) as u8]
  }

  function WordsBytes(ws: seq<u32>): (b: seq<u8>)
    ensures |b| == 4 * |ws|
  {
    if ws == [] then [] else WordsBytes(ws[..|ws| - 1]) + WordBytes(ws[|ws| - 1])
  }

  function Digest(m: seq<u8>): (digest: seq<u8>)
    ensures |digest| == 32
  {
    WordsBytes(HashBlocks(Pad(m)))
  }
}
