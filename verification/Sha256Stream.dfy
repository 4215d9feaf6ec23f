/** The public interface of the hash: init, update with any number of chunks, finish. */
module Sha256Stream {
  import opened Arithmetic
  import opened Sha256Spec
  import opened Sha256

  /** `store64` and `store32` write a big-endian number at a position. */
  function Pow256(n: nat): (p: nat)
    ensures p > 0
  {
    if n == 0 then 1 else 256 * Pow256(n - 1)
  }

  lemma {:induction false} BigEndianDigit(x: nat, n: nat, i: nat)
    requires i < n
    ensures BigEndian(x, n)[i] == ((x / Pow256(n - 1 - i)) % 256) as u8
  {
    if i < n - 1 {
      BigEndianDigit(x / 256, n - 1, i);
      DivTwice(x, Pow256(n - 2 - i));
    }
  }

  lemma DivTwice(x: nat, p: nat)
    requires p > 0
    ensures x / 256 / p == x / (256 * p)
  {
    var q, r := x / (256 * p), x % (256 * p);
    var t := p * q;
    assert x == 256 * t + r by {
      assert x == 256 * p * q + r;
      assert 256 * p * q == 256 * (p * q);
    }
    assert x / 256 == t + r / 256;
    DivModIs(x / 256, p, q, r / 256);
  }

  /** `store64`. */
  method Store64(x: nat, y: array<u8>, at: nat)
    requires x < TWO64 && at + 8 <= y.Length
    modifies y
    ensures y[..] == old(y[..at]) + BigEndian(x, 8) + old(y[at + 8..])
  {
    var i := 0;
    while i != 8
      invariant 0 <= i <= 8
      invariant forall k :: 0 <= k < y.Length && !(at <= k < at + i) ==> y[k] == old(y[k])
      invariant forall k :: 0 <= k < i ==> y[at + k] == BigEndian(x, 8)[k]
    {
      BigEndianDigit(x, 8, i);
      y[at + i] := ((x / Pow256(7 - i)) % 256) as u8;
      i := i + 1;
    }
  }

  /** `store32`. */
  method Store32(x: u32, y: array<u8>, at: nat)
    requires at + 4 <= y.Length
    modifies y
    ensures y[..] == old(y[..at]) + WordBytes(x) + old(y[at + 4..])
  {
    var i := 0;
    while i != 4
      invariant 0 <= i <= 4
      invariant forall k :: 0 <= k < y.Length && !(at <= k < at + i) ==> y[k] == old(y[k])
      invariant forall k :: 0 <= k < i ==> y[at + k] == WordBytes(x)[k]
    {
      y[at + i] := ((x >> ((3 - i) * 8)) & 255) as u8;
      i := i + 1;
    }
  }

  /** The state of a hash in progress; `message` is everything absorbed so far. */
  class Context {
    var length: nat
    const state: array<u32>
    var curlen: nat
    const buf: array<u8>
    ghost var message: seq<u8>

    ghost predicate Valid()
      reads this, state, buf
    {
      && state.Length == 8 && buf.Length == BLOCK && curlen < BLOCK
      && Holds(message, state[..], buf[..], curlen, length)
    }

    constructor ()
      ensures Valid() && message == []
      ensures fresh(state) && fresh(buf)
    {
      curlen, length := 0, 0;
      state := new u32[8](i requires 0 <= i < 8 => IV[i]);
      buf := new u8[BLOCK];
      message := [];
      new;
      assert state[..] == IV;
    }

    /** Absorb a chunk: whole blocks straight from the input while no partial block is
        pending, everything else through the buffer. */
    method Process(src: seq<u8>)
      requires Valid() && |src| < U32_RANGE
      modifies this, state, buf
      ensures Valid() && message == old(message) + src
    {
      hide Holds, Compressed, HashBlocks;
      var at := 0;
      while |src| - at > 0
        invariant 0 <= at <= |src|
        invariant Valid() && message == old(message) + src[..at]
      {
        if curlen == 0 && |src| - at >= BLOCK {
          var block := src[at..at + BLOCK];
          AbsorbBlock(message, state[..], buf[..], length, block);
          Compress(state, block);
          length := (length + BLOCK * 8) % TWO64;
          message := message + block;
          at := at + BLOCK;
        } else {
          var n := if |src| - at < BLOCK - curlen then |src| - at else BLOCK - curlen;
          FillBuffer(src[at..at + n]);
          at := at + n;
        }
      }
    }

    /** The slow path: the bytes go to the buffer, which is compressed when it is full. */
    method FillBuffer(part: seq<u8>)
      requires Valid() && 0 < |part| <= BLOCK - curlen
      modifies this, state, buf
      ensures Valid() && message == old(message) + part
    {
      hide Holds, Compressed, HashBlocks;
      ghost var h, was, wasLen := state[..], buf[..], curlen;
      assert Holds(message, h, was, wasLen, length);
      forall i | 0 <= i < |part| {
        buf[curlen + i] := part[i];
      }
      assert buf[..] == was[..wasLen] + part + was[wasLen + |part|..];
      assert state[..] == h;
      curlen := curlen + |part|;
      if curlen == BLOCK {
        AbsorbBuffer(message, part, h, was, buf[..], wasLen, length);
        Compress(state, buf[..]);
        length := (length + 8 * BLOCK) % TWO64;
        curlen := 0;
      } else {
        AbsorbPart(message, part, h, was, buf[..], wasLen, length);
      }
      message := message + part;
    }

    /** `sha256_update` passes the length through a 32-bit parameter. */
    method Update(data: seq<u8>)
      requires Valid()
      modifies this, state, buf
      ensures Valid() && message == old(message) + Passed(data)
    {
      Process(Passed(data));
    }

    /** Pad, hash the last one or two blocks and write the digest out. */
    method Finish() returns (digest: seq<u8>)
      requires Valid()
      modifies this, state, buf
      ensures digest == Digest(old(message))
    {
      hide Compressed, HashBlocks, Pad, WordBytes, WordsBytes;
      PaddedBlocks(message);
      AppendPadding();
      Compress(state, buf[..]);
      digest := WriteDigest();
    }

    /** Put the padding behind the partial block; where the length does not fit, the full
        block is compressed and the buffer holds another one. */
    method AppendPadding()
      requires Valid()
      modifies this, state, buf
      ensures buf.Length == BLOCK && state.Length == 8
      ensures
        var m := old(message);
        var whole, tail := m[..WholeLen(|m|)], m[WholeLen(|m|)..];
        if |tail| < 56 then state[..] == HashBlocks(whole) && buf[..] == OnlyBlock(tail, |m|)
        else state[..] == Compressed(HashBlocks(whole), FirstOfTwo(tail)) && buf[..] == SecondOfTwo(|m|)
    {
      hide Compressed, HashBlocks, BigEndian;
      ghost var m := message;
      ghost var tail := m[WholeLen(|m|)..];
      LengthSum(m, curlen);
      length := (length + curlen * 8) % TWO64;
      buf[curlen] := 0x80;
      curlen := curlen + 1;
      assert buf[..curlen] == tail + [0x80];
      if curlen > 56 {
        ZeroFill(BLOCK);
        assert buf[..] == FirstOfTwo(tail);
        Compress(state, buf[..]);
        curlen := 0;
      }
      FinishBlock(|m|);
    }

    /** Zeros up to the last eight bytes of a block, and the length there. */
    method FinishBlock(ghost len: nat)
      requires buf.Length == BLOCK && curlen <= 56 && length == 8 * len % TWO64
      modifies this`curlen, buf
      ensures buf[..] == old(buf[..curlen]) + Zeros(56 - old(curlen)) + LengthField(len)
    {
      hide BigEndian;
      ZeroFill(56);
      Store64(length, buf, 56);
    }

    /** The zero bytes up to position `end`. */
    method ZeroFill(end: nat)
      requires curlen <= end <= buf.Length
      modifies this`curlen, buf
      ensures curlen == end && buf[..end] == old(buf[..curlen]) + Zeros(end - old(curlen))
    {
      ghost var from := curlen;
      while curlen < end
        invariant from <= curlen <= end
        invariant forall i :: 0 <= i < from ==> buf[i] == old(buf[i])
        invariant forall i :: from <= i < curlen ==> buf[i] == 0
      {
        buf[curlen] := 0;
        curlen := curlen + 1;
      }
    }

    method WriteDigest() returns (digest: seq<u8>)
      requires state.Length == 8
      ensures digest == WordsBytes(state[..])
    {
      var out := new u8[32];
      var i := 0;
      while i < 8
        invariant 0 <= i <= 8
        invariant out[..4 * i] == WordsBytes(state[..i])
      {
        Store32(state[i], out, 4 * i);
        assert state[..i + 1][..i] == state[..i];
        assert out[..4 * (i + 1)] == out[..4 * i] + WordBytes(state[i]);
        i := i + 1;
      }
      assert state[..8] == state[..];
      digest := out[..];
    }
  }

  /** `m` is absorbed: its whole blocks are in the hash value and the rest is in the buffer. */
  ghost predicate Holds(m: seq<u8>, state: seq<u32>, buf: seq<u8>, curlen: nat, length: nat) {
    && |buf| == BLOCK && curlen == |m| % BLOCK
    && buf[..curlen] == m[|m| - curlen..]
    && state == HashBlocks(m[..|m| - curlen])
    && length == 8 * (|m| - curlen) % TWO64
  }

  lemma AbsorbBlock(m: seq<u8>, state: seq<u32>, buf: seq<u8>, length: nat, block: seq<u8>)
    requires Holds(m, state, buf, 0, length) && |block| == BLOCK
    ensures Holds(m + block, Compressed(state, block), buf, 0, (length + 8 * BLOCK) % TWO64)
  {
    hide Compressed, HashBlocks;
    var n := m + block;
    assert m[..|m|] == m && n[..|n|] == n;
    HashAppend(m, block);
    assert |n| % BLOCK == 0;
    LengthOneMore(|m|);
  }

  lemma LengthOneMore(n: nat)
    ensures (8 * n % TWO64 + 8 * BLOCK) % TWO64 == 8 * (n + BLOCK) % TWO64
  {
    var a := 8 * n;
    assert a == TWO64 * (a / TWO64) + a % TWO64;
  }

  lemma AbsorbBuffer(m: seq<u8>, part: seq<u8>, state: seq<u32>, was: seq<u8>, buf: seq<u8>, curlen: nat, length: nat)
    requires Holds(m, state, was, curlen, length) && curlen + |part| == BLOCK
    requires buf == was[..curlen] + part
    ensures Holds(m + part, Compressed(state, buf), buf, 0, (length + 8 * BLOCK) % TWO64)
  {
    hide Compressed, HashBlocks;
    var whole := m[..|m| - curlen];
    assert m + part == whole + buf;
    assert whole[..|whole|] == whole;
    AbsorbBlock(whole, state, buf, length, buf);
  }

  lemma ModStays(x: nat, y: nat)
    requires x % BLOCK + y < BLOCK
    ensures (x + y) % BLOCK == x % BLOCK + y
  {
  }

  lemma AbsorbPart(m: seq<u8>, part: seq<u8>, state: seq<u32>, was: seq<u8>, buf: seq<u8>, curlen: nat, length: nat)
    requires Holds(m, state, was, curlen, length) && curlen + |part| < BLOCK
    requires buf == was[..curlen] + part + was[curlen + |part|..]
    ensures Holds(m + part, state, buf, curlen + |part|, length)
  {
    hide Compressed, HashBlocks;
    var n, rest := m + part, curlen + |part|;
    ModStays(|m|, |part|);
    assert n[..|n| - rest] == m[..|m| - curlen];
    assert buf[..rest] == was[..curlen] + part;
    assert n[|n| - rest..] == m[|m| - curlen..] + part;
  }

  /** What is left of a chunk behind the 32-bit length parameter: everything, for chunks
      shorter than 2^32 bytes. */
  function Passed(data: seq<u8>): (p: seq<u8>)
    ensures |p| < U32_RANGE && p <= data && (|data| - |p|) % U32_RANGE == 0
  {
    data[..|data| % U32_RANGE]
  }

  lemma LengthSum(m: seq<u8>, curlen: nat)
    requires curlen <= |m|
    ensures (8 * (|m| - curlen) % TWO64 + curlen * 8) % TWO64 == 8 * |m| % TWO64
  {
    var a := 8 * (|m| - curlen);
    assert a == TWO64 * (a / TWO64) + a % TWO64;
    assert 8 * |m| == TWO64 * (a / TWO64) + (a % TWO64 + curlen * 8);
  }

  // the padded message behind the whole blocks, when the length fits the same block or not

  function OnlyBlock(tail: seq<u8>, len: nat): (b: seq<u8>)
    requires |tail| < 56
    ensures |b| == BLOCK
  {
    tail + [0x80] + Zeros(55 - |tail|) + LengthField(len)
  }

  function FirstOfTwo(tail: seq<u8>): (b: seq<u8>)
    requires 56 <= |tail| < BLOCK
    ensures |b| == BLOCK
  {
    tail + [0x80] + Zeros(63 - |tail|)
  }

  function SecondOfTwo(len: nat): (b: seq<u8>)
    ensures |b| == BLOCK
  {
    Zeros(56) + LengthField(len)
  }

  /** The length of the whole blocks of a message. */
  function WholeLen(len: nat): (n: nat)
    ensures n <= len && n % BLOCK == 0 && len - n == len % BLOCK
  {
    len - len % BLOCK
  }

  lemma PaddedBlocks(m: seq<u8>)
    ensures
      var whole, tail := m[..WholeLen(|m|)], m[WholeLen(|m|)..];
      HashBlocks(Pad(m)) ==
      if |tail| < 56 then Compressed(HashBlocks(whole), OnlyBlock(tail, |m|))
      else Compressed(Compressed(HashBlocks(whole), FirstOfTwo(tail)), SecondOfTwo(|m|))
  {
    hide Compressed, LengthField, HashBlocks, Pad, WholeLen, OnlyBlock, FirstOfTwo, SecondOfTwo;
    var whole, tail := m[..WholeLen(|m|)], m[WholeLen(|m|)..];
    PadSplit(m);
    if |tail| < 56 {
      HashAppend(whole, OnlyBlock(tail, |m|));
    } else {
      HashAppend(whole, FirstOfTwo(tail));
      HashAppend(whole + FirstOfTwo(tail), SecondOfTwo(|m|));
    }
  }

  lemma PadSplit(m: seq<u8>)
    ensures
      var whole, tail := m[..WholeLen(|m|)], m[WholeLen(|m|)..];
      Pad(m) ==
      if |tail| < 56 then whole + OnlyBlock(tail, |m|)
      else whole + FirstOfTwo(tail) + SecondOfTwo(|m|)
  {
    hide LengthField;
    var tail := m[WholeLen(|m|)..];
    assert m == m[..WholeLen(|m|)] + tail;
    if |tail| < 56 {
      assert ZeroCount(|m|) == 55 - |tail|;
    } else {
      assert ZeroCount(|m|) == 119 - |tail|;
      assert Zeros(119 - |tail|) == Zeros(63 - |tail|) + Zeros(56);
    }
  }

  lemma HashAppend(m: seq<u8>, block: seq<u8>)
    requires |m| % BLOCK == 0 && |block| == BLOCK
    ensures |m + block| % BLOCK == 0
    ensures HashBlocks(m + block) == Compressed(HashBlocks(m), block)
  {
    hide Compressed;
    assert (m + block)[..|m + block| - 64] == m;
    assert (m + block)[|m + block| - 64..] == block;
  }

  function Concat(chunks: seq<seq<u8>>): seq<u8> {
    if chunks == [] then [] else Concat(chunks[..|chunks| - 1]) + chunks[|chunks| - 1]
  }

  function AllPassed(chunks: seq<seq<u8>>): (p: seq<seq<u8>>)
    ensures |p| == |chunks|
  {
    seq(|chunks|, i requires 0 <= i < |chunks| => Passed(chunks[i]))
  }

  /** Init, one update for every chunk, finish: the digest depends on the bytes passed
      alone, and not on how they were cut into chunks. */
  method HashChunks(chunks: seq<seq<u8>>) returns (digest: seq<u8>)
    ensures digest == Digest(Concat(AllPassed(chunks)))
    ensures (forall c :: c in chunks ==> |c| < U32_RANGE) ==> digest == Digest(Concat(chunks))
  {
    hide Digest, Holds, HashBlocks, Compressed, Passed, AllPassed, Concat;
    NoChunks();
    ghost var passed := AllPassed(chunks);
    var ctxt := new Context();
    var i := 0;
    while i < |chunks|
      invariant 0 <= i <= |chunks|
      invariant ctxt.Valid() && fresh(ctxt) && fresh(ctxt.state) && fresh(ctxt.buf)
      invariant ctxt.message == Concat(passed[..i])
    {
      ctxt.Update(chunks[i]);
      ConcatNext(passed, i);
      PassedAt(chunks, i);
      i := i + 1;
    }
    assert passed[..|chunks|] == passed;
    digest := ctxt.Finish();
    if forall c :: c in chunks ==> |c| < U32_RANGE {
      AllPassedWhole(chunks);
    }
  }

  lemma NoChunks()
    ensures Concat([]) == []
  {
  }

  lemma PassedAt(chunks: seq<seq<u8>>, i: nat)
    requires i < |chunks|
    ensures AllPassed(chunks)[i] == Passed(chunks[i])
  {
  }

  lemma AllPassedWhole(chunks: seq<seq<u8>>)
    requires forall c :: c in chunks ==> |c| < U32_RANGE
    ensures AllPassed(chunks) == chunks
  {
    forall i | 0 <= i < |chunks|
      ensures AllPassed(chunks)[i] == chunks[i]
    {
      assert chunks[i] in chunks;
    }
  }

  lemma ConcatNext(chunks: seq<seq<u8>>, i: nat)
    requires i < |chunks|
    ensures Concat(chunks[..i + 1]) == Concat(chunks[..i]) + chunks[i]
  {
    assert chunks[..i + 1][..i] == chunks[..i];
  }
}
