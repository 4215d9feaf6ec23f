/** The compression function of the hash: schedule, rounds in place and feedback. */
module Sha256 {
  import opened Sha256Spec

  const BLOCK: nat := 64

  function Load32(y: seq<u8>): u32
    requires |y| == 4
  {
    ((y[0] as u32) << 24) | ((y[1] as u32) << 16) | ((y[2] as u32) << 8) | ((y[3] as u32) << 0)
  }

  function Ch(x: u32, y: u32, z: u32): u32 { z ^ (x & (y ^ z)) }
  function Maj(x: u32, y: u32, z: u32): u32 { ((x | y) & z) | (x & y) }
  function Rot(x: u32, n: u32): u32 { (x >> (n & 31)) | (x << (32 - (n & 31))) }
  function Sigma0(x: u32): u32 { Xor3(Rot(x, 2), Rot(x, 13), Rot(x, 22)) }
  function Sigma1(x: u32): u32 { Xor3(Rot(x, 6), Rot(x, 11), Rot(x, 25)) }
  function Gamma0(x: u32): u32 { Xor3(Rot(x, 7), Rot(x, 18), Shr(x, 3)) }
  function Gamma1(x: u32): u32 { Xor3(Rot(x, 17), Rot(x, 19), Shr(x, 10)) }

  // The rewritten bit functions are those of section 4.1.2 of FIPS 180-4.

  lemma ChIsChoose(x: u32, y: u32, z: u32)
    ensures Ch(x, y, z) == Choose(x, y, z)
  {
    assert z ^ (x & (y ^ z)) == (x & y) ^ (!x & z);
  }

  lemma MajIsMajority(x: u32, y: u32, z: u32)
    ensures Maj(x, y, z) == Majority(x, y, z)
  {
    assert ((x | y) & z) | (x & y) == (x & y) ^ (x & z) ^ (y & z);
  }

  lemma Rotations(x: u32)
    ensures Rot(x, 2) == Rotr(x, 2) && Rot(x, 13) == Rotr(x, 13) && Rot(x, 22) == Rotr(x, 22)
    ensures Rot(x, 6) == Rotr(x, 6) && Rot(x, 11) == Rotr(x, 11) && Rot(x, 25) == Rotr(x, 25)
    ensures Rot(x, 7) == Rotr(x, 7) && Rot(x, 18) == Rotr(x, 18)
    ensures Rot(x, 17) == Rotr(x, 17) && Rot(x, 19) == Rotr(x, 19)
  {
  }

  lemma SigmasAreSigmas(x: u32)
    ensures Sigma0(x) == BigSigma0(x) && Sigma1(x) == BigSigma1(x)
  {
    Rotations(x);
    hide Rot, Rotr, Xor3;
  }

  lemma GammasAreSigmas(x: u32)
    ensures Gamma0(x) == SmallSigma0(x) && Gamma1(x) == SmallSigma1(x)
  {
    Rotations(x);
    hide Rot, Rotr, Xor3, Shr;
  }

  lemma LoadIsWord(b: seq<u8>)
    requires |b| == 4
    ensures Load32(b) == Word(b)
  {
  }

  /** The message schedule `W`. */
  method Expand(block: seq<u8>) returns (w: array<u32>)
    requires |block| == BLOCK
    ensures fresh(w) && w.Length == 64
    ensures forall i :: 0 <= i < 64 ==> w[i] == Schedule(block, i)
  {
    hide Add, Gamma0, Gamma1, SmallSigma0, SmallSigma1, Load32, Word;
    w := new u32[64];
    var i := 0;
    while i < 16
      invariant 0 <= i <= 16
      invariant forall k :: 0 <= k < i ==> w[k] == Schedule(block, k)
    {
      LoadIsWord(block[4 * i..4 * i + 4]);
      w[i] := Load32(block[4 * i..4 * i + 4]);
      i := i + 1;
    }
    while i < 64
      invariant 16 <= i <= 64
      invariant forall k :: 0 <= k < i ==> w[k] == Schedule(block, k)
    {
      GammasAreSigmas(w[i - 2]);
      GammasAreSigmas(w[i - 15]);
      w[i] := Add(Add(Add(Gamma1(w[i - 2]), w[i - 7]), Gamma0(w[i - 15])), w[i - 16]);
      i := i + 1;
    }
  }

  /** The two sums of a round. */
  function Sum0(v: Working, k: u32, w: u32): u32 {
    Add(Add(Add(Add(v.h, Sigma1(v.e)), Ch(v.e, v.f, v.g)), k), w)
  }

  function Sum1(v: Working): u32 {
    Add(Sigma0(v.a), Maj(v.a, v.b, v.c))
  }

  lemma SumsAreSums(v: Working, k: u32, w: u32)
    ensures Sum0(v, k, w) == T1(v, k, w) && Sum1(v) == T2(v)
  {
    hide Add, Sigma0, Sigma1, BigSigma0, BigSigma1, Ch, Choose, Maj, Majority;
    SigmasAreSigmas(v.e);
    SigmasAreSigmas(v.a);
    ChIsChoose(v.e, v.f, v.g);
    MajIsMajority(v.a, v.b, v.c);
  }

  /** The array holds the working variables. */
  ghost predicate Stores(s: array<u32>, v: Working)
    reads s
  {
    && s.Length == 8
    && s[0] == v.a && s[1] == v.b && s[2] == v.c && s[3] == v.d
    && s[4] == v.e && s[5] == v.f && s[6] == v.g && s[7] == v.h
  }

  /** One round in place: the two sums, then all entries move up by one. */
  method RoundInPlace(s: array<u32>, k: u32, w: u32, ghost v: Working)
    requires Stores(s, v)
    modifies s
    ensures Stores(s, Round(v, k, w))
  {
    hide Add, Sum0, Sum1, T1, T2;
    SumsAreSums(v, k, w);
    var now := Working(s[0], s[1], s[2], s[3], s[4], s[5], s[6], s[7]);
    var t0 := Sum0(now, k, w);
    var t1 := Sum1(now);
    s[3] := Add(s[3], t0);
    s[7] := Add(t0, t1);
    MoveUp(s);
  }

  method MoveUp(s: array<u32>)
    requires s.Length == 8
    modifies s
    ensures s[0] == old(s[7]) && s[1] == old(s[0]) && s[2] == old(s[1]) && s[3] == old(s[2])
    ensures s[4] == old(s[3]) && s[5] == old(s[4]) && s[6] == old(s[5]) && s[7] == old(s[6])
  {
    var t := s[7];
    s[7] := s[6];
    s[6] := s[5];
    s[5] := s[4];
    s[4] := s[3];
    s[3] := s[2];
    s[2] := s[1];
    s[1] := s[0];
    s[0] := t;
  }

  method AllRounds(s: array<u32>, block: seq<u8>, ghost start: Working)
    requires Stores(s, start) && |block| == BLOCK
    modifies s
    ensures Stores(s, Rounds(start, block, 64))
  {
    hide Round, Schedule, Stores;
    var w := Expand(block);
    var i := 0;
    while i < 64
      invariant 0 <= i <= 64
      invariant Stores(s, Rounds(start, block, i))
      invariant forall k :: 0 <= k < 64 ==> w[k] == Schedule(block, k)
    {
      RoundInPlace(s, K[i], w[i], Rounds(start, block, i));
      i := i + 1;
    }
  }

  /** The feedback: `s` is added to the hash value word by word. */
  method Feedback(state: array<u32>, s: array<u32>)
    requires state.Length == 8 && s.Length == 8 && state != s
    modifies state
    ensures state[..] == AddWords(old(state[..]), s[..])
  {
    hide Add;
    var i := 0;
    while i < 8
      invariant 0 <= i <= 8
      invariant forall k :: i <= k < 8 ==> state[k] == old(state[k])
      invariant forall k :: 0 <= k < i ==> state[k] == Add(old(state[k]), s[k])
    {
      state[i] := Add(state[i], s[i]);
      i := i + 1;
    }
  }

  method Compress(state: array<u32>, block: seq<u8>)
    requires state.Length == 8 && |block| == BLOCK
    modifies state
    ensures state[..] == Compressed(old(state[..]), block)
  {
    hide Add, Rounds;
    var s := new u32[8](i requires 0 <= i < 8 reads state => state[i]);
    AllRounds(s, block, Loaded(state[..]));
    assert s[..] == AsSeq(Rounds(Loaded(state[..]), block, 64));
    Feedback(state, s);
  }
}
