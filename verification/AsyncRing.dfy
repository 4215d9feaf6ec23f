/** The ring buffer inside `ASYNCIO`: one array, two positions, and the queue of
    bytes it stands for.  Every operation is proved against that queue. */
module AsyncRing {
  import opened Arithmetic
  import opened Bytes

  const ASYNC_BUFSIZE: nat := 8 * 1024
  const ASYNC_LOCAL_BUFSIZE: nat := 64 * 1024
  const MAX_RING: nat := 0x8000_0000

  /** `cur` doubled `times` times in 32-bit unsigned arithmetic. */
  function DoubledU32(cur: nat, times: nat): nat
    decreases times
  {
    if times == 0 then cur else DoubledU32(cur * 2 % U32_RANGE, times - 1)
  }

  /** The sizes the ring can have: `ASYNC_BUFSIZE` doubled, never above 2^31. */
  ghost predicate RingSize(n: nat) {
    exists k: nat :: k <= 18 && n == Shifted(k)
  }

  function Shifted(k: nat): (n: nat)
    ensures n >= ASYNC_BUFSIZE
  {
    if k == 0 then ASYNC_BUFSIZE else 2 * Shifted(k - 1)
  }

  lemma {:induction false} ShiftedMonotone(j: nat, k: nat)
    requires j < k
    ensures 2 * Shifted(j) <= Shifted(k)
  {
    if j + 1 < k {
      ShiftedMonotone(j, k - 1);
    }
  }

  lemma ShiftedLimit()
    ensures Shifted(18) == MAX_RING
  {
    assert Shifted(5) == 32 * ASYNC_BUFSIZE;
    assert Shifted(10) == 1024 * ASYNC_BUFSIZE;
    assert Shifted(15) == 32 * 1024 * ASYNC_BUFSIZE;
  }

  lemma RingSizeBounds(n: nat)
    requires RingSize(n)
    ensures ASYNC_BUFSIZE <= n <= MAX_RING
    ensures 2 * n <= MAX_RING ==> RingSize(2 * n)
    ensures n < MAX_RING ==> 2 * n <= MAX_RING
  {
    ShiftedLimit();
    var k: nat :| k <= 18 && n == Shifted(k);
    if k < 18 {
      ShiftedMonotone(k, 18);
      assert 2 * n == Shifted(k + 1);
    }
  }

  /** The doubling loop of `next_buffer_size`, in 32-bit arithmetic. */
  method NextBufferSize(curSize: nat, needSize: nat) returns (size: nat)
    requires RingSize(curSize) && needSize <= MAX_RING
    ensures RingSize(size)
    ensures size >= needSize && size >= curSize
    ensures size == curSize || size < 2 * needSize
  {
    size := curSize;
    RingSizeBounds(size);
    while size < needSize
      invariant RingSize(size) && curSize <= size <= MAX_RING
      invariant size == curSize || size < 2 * needSize
      decreases MAX_RING - size
    {
      RingSizeBounds(size);
      size := size * 2 % U32_RANGE;
    }
  }

  /** From every ring size the loop ends for some number of doublings exactly when the
      needed size is at most 2^31; above that the 32-bit size wraps to zero and stays there. */
  lemma GrowthTerminatesIff(curSize: nat, needSize: nat)
    requires RingSize(curSize)
    ensures (exists times :: DoubledU32(curSize, times) >= needSize) <==> needSize <= MAX_RING
  {
    ShiftedLimit();
    var k: nat :| k <= 18 && curSize == Shifted(k);
    if needSize <= MAX_RING {
      DoubledIsShifted(k, 18 - k);
      assert DoubledU32(curSize, 18 - k) >= needSize;
    }
    forall times: nat
      ensures DoubledU32(curSize, times) <= MAX_RING
    {
      DoubledBounded(k, times);
    }
  }

  /** The first need for which a new ring never grows enough. */
  lemma GrowthFails(times: nat)
    ensures DoubledU32(ASYNC_BUFSIZE, times) < 0x8000_0001
  {
    DoubledBounded(0, times);
  }

  lemma DoubledOnce(k: nat)
    requires Shifted(k) < MAX_RING
    ensures Shifted(k) * 2 % U32_RANGE == Shifted(k + 1)
  {
  }

  lemma {:induction false} DoubledIsShifted(k: nat, times: nat)
    requires k + times <= 18
    ensures DoubledU32(Shifted(k), times) == Shifted(k + times)
    decreases times
  {
    if times > 0 {
      ShiftedLimit();
      ShiftedMonotone(k, 18);
      DoubledOnce(k);
      DoubledIsShifted(k + 1, times - 1);
    }
  }

  lemma {:induction false} DoubledBounded(k: nat, times: nat)
    requires k <= 18
    ensures DoubledU32(Shifted(k), times) <= MAX_RING
    decreases times
  {
    ShiftedLimit();
    if k < 18 {
      ShiftedMonotone(k, 18);
    }
    if times > 0 {
      if k < 18 {
        DoubledOnce(k);
        DoubledBounded(k + 1, times - 1);
      } else {
        DoubledZero(times - 1);
      }
    }
  }

  lemma {:induction false} DoubledZero(times: nat)
    ensures DoubledU32(0, times) == 0
  {
    if times > 0 {
      DoubledZero(times - 1);
    }
  }

  /** The queue that a ring with the given array and positions stands for, oldest first. */
  ghost function Queue(buf: seq<byte>, readPos: nat, writePos: nat): seq<byte>
    requires readPos <= |buf| && writePos <= |buf|
  {
    if readPos <= writePos then buf[readPos..writePos] else buf[readPos..] + buf[..writePos]
  }

  /** `buf` with `data` written over it from position `at` on. */
  ghost function Spliced(buf: seq<byte>, at: nat, data: seq<byte>): (s: seq<byte>)
    requires at + |data| <= |buf|
    ensures |s| == |buf|
  {
    buf[..at] + data + buf[at + |data|..]
  }

  lemma ModOnce(x: nat, n: nat)
    requires 0 < n && x < 2 * n
    ensures x % n == if x < n then x else x - n
  {
    if x >= n {
      assert x == n + (x - n);
      assert x / n == 1;
    }
  }

  lemma QueueAdvance(buf: seq<byte>, readPos: nat, writePos: nat, n: nat)
    requires readPos < |buf| && writePos < |buf|
    requires n <= |Queue(buf, readPos, writePos)|
    ensures (readPos + n) % |buf| < |buf|
    ensures Queue(buf, (readPos + n) % |buf|, writePos) == Queue(buf, readPos, writePos)[n..]
  {
    ModOnce(readPos + n, |buf|);
  }

  // what a splice leaves in front of it, behind it and up to its end

  lemma SplicedFront(buf: seq<byte>, at: nat, data: seq<byte>)
    requires at + |data| <= |buf|
    ensures Spliced(buf, at, data)[..at + |data|] == buf[..at] + data
  {
  }

  lemma SplicedBehind(buf: seq<byte>, at: nat, data: seq<byte>, k: nat)
    requires at + |data| <= k <= |buf|
    ensures Spliced(buf, at, data)[k..] == buf[k..]
  {
  }

  lemma SliceOfSum(s: seq<byte>, k: nat, t: seq<byte>)
    requires k <= |s|
    ensures (s + t)[k..] == s[k..] + t
  {
  }

  lemma TakeOfSum(s: seq<byte>, t: seq<byte>, j: nat, k: nat)
    requires j <= |s| && k <= |t| && (j == |s| || k == 0)
    ensures (s + t)[..j + k] == s[..j] + t[..k]
  {
  }

  /** Putting `data` behind the queue without reaching past the end of the array. */
  lemma QueuePutContiguous(buf: seq<byte>, newBuf: seq<byte>, readPos: nat, writePos: nat, data: seq<byte>)
    requires readPos < |buf| && writePos < |buf|
    requires |data| < |buf| - |Queue(buf, readPos, writePos)|
    requires writePos + |data| <= |buf|
    requires newBuf == Spliced(buf, writePos, data)
    ensures (writePos + |data|) % |buf| < |buf| == |newBuf|
    ensures Queue(newBuf, readPos, (writePos + |data|) % |buf|) == Queue(buf, readPos, writePos) + data
  {
    hide Spliced;
    var end := writePos + |data|;
    ModOnce(end, |buf|);
    SplicedFront(buf, writePos, data);
    if readPos <= writePos {
      SliceOfSum(buf[..writePos], readPos, data);
      assert newBuf[readPos..end] == newBuf[..end][readPos..];
      assert buf[readPos..writePos] == buf[..writePos][readPos..];
      assert newBuf[readPos..] + newBuf[..0] == newBuf[readPos..];
    } else {
      SplicedBehind(buf, writePos, data, readPos);
      assert buf[readPos..] + (buf[..writePos] + data) == buf[readPos..] + buf[..writePos] + data;
    }
  }

  /** Putting `data` behind the queue in two pieces, the second at the front of the array. */
  lemma QueuePutWrapped(buf: seq<byte>, newBuf: seq<byte>, readPos: nat, writePos: nat, data: seq<byte>)
    requires readPos < |buf| && writePos < |buf|
    requires |data| < |buf| - |Queue(buf, readPos, writePos)|
    requires writePos + |data| > |buf|
    requires
      var first := |buf| - writePos;
      newBuf == Spliced(Spliced(buf, writePos, data[..first]), 0, data[first..])
    ensures writePos + |data| - |buf| < |buf| == |newBuf|
    ensures Queue(newBuf, readPos, writePos + |data| - |buf|) == Queue(buf, readPos, writePos) + data
  {
    var first, end := |buf| - writePos, writePos + |data| - |buf|;
    assert end < readPos <= writePos;
    hide Spliced;
    var mid := Spliced(buf, writePos, data[..first]);
    SplicedFront(buf, writePos, data[..first]);
    assert mid == mid[..|buf|];
    SliceOfSum(buf[..writePos], readPos, data[..first]);
    SplicedFront(mid, 0, data[first..]);
    assert mid[..0] + data[first..] == data[first..];
    SplicedBehind(mid, 0, data[first..], readPos);
    assert buf[..writePos][readPos..] == buf[readPos..writePos];
    Reassociate(buf[readPos..writePos], data, first);
  }

  lemma Reassociate(s: seq<byte>, data: seq<byte>, k: nat)
    requires k <= |data|
    ensures s + data[..k] + data[k..] == s + data
  {
  }

  // ----- array and positions as a value

  datatype Store = Store(buf: seq<byte>, readPos: nat, writePos: nat)

  ghost predicate IsStore(c: Store) {
    RingSize(|c.buf|) && c.readPos < |c.buf| && c.writePos < |c.buf|
  }

  ghost function QueueOf(c: Store): seq<byte>
    requires c.readPos <= |c.buf| && c.writePos <= |c.buf|
  {
    Queue(c.buf, c.readPos, c.writePos)
  }

  /** What one turn of the writer thread does to them when it copies `n` bytes out. */
  ghost predicate Drains(c: Store, d: Store, n: nat)
    requires IsStore(c)
  {
    && n == Min(|QueueOf(c)|, ASYNC_LOCAL_BUFSIZE)
    && d == c.(readPos := (c.readPos + n) % |c.buf|)
  }

  lemma DrainsQueue(c: Store, d: Store, n: nat)
    requires IsStore(c) && Drains(c, d, n)
    ensures IsStore(d) && QueueOf(d) == QueueOf(c)[n..]
  {
    hide Queue, RingSize;
    QueueAdvance(c.buf, c.readPos, c.writePos, n);
  }

  predicate FitsIn(c: Store, len: nat, size: nat) {
    size < |c.buf| - len
  }

  /** What `aio_write_unlocked` does to them. The end of a new array is whatever `malloc`
      gives. */
  ghost predicate Puts(c: Store, data: seq<byte>, d: Store)
    requires IsStore(c)
  {
    var len := |QueueOf(c)|;
    if FitsIn(c, len, |data|) then PutsInPlace(c, data, d)
    else
      && RingSize(|d.buf|) && len + |data| + 1 <= |d.buf| < 2 * (len + |data| + 1)
      && d.readPos == 0 && d.writePos == len + |data|
      && d.buf[..d.writePos] == QueueOf(c) + data
  }

  ghost predicate PutsInPlace(c: Store, data: seq<byte>, d: Store)
    requires c.readPos < |c.buf| && c.writePos < |c.buf| && FitsIn(c, |QueueOf(c)|, |data|)
  {
    var first := |c.buf| - c.writePos;
    && d.readPos == c.readPos
    && d.writePos == (c.writePos + |data|) % |c.buf|
    && d.buf == if |data| > first then Spliced(Spliced(c.buf, c.writePos, data[..first]), 0, data[first..])
                else Spliced(c.buf, c.writePos, data)
  }

  lemma PutsQueue(c: Store, data: seq<byte>, d: Store)
    requires IsStore(c) && Puts(c, data, d)
    ensures IsStore(d) && QueueOf(d) == QueueOf(c) + data
  {
    hide Spliced, RingSize;
    if FitsIn(c, |QueueOf(c)|, |data|) {
      ModOnce(c.writePos + |data|, |c.buf|);
      if |data| > |c.buf| - c.writePos {
        QueuePutWrapped(c.buf, d.buf, c.readPos, c.writePos, data);
      } else {
        QueuePutContiguous(c.buf, d.buf, c.readPos, c.writePos, data);
      }
    }
  }

  class Ring {
    var buffer: array<byte>
    var readPos: nat
    var writePos: nat

    ghost predicate Valid()
      reads this, buffer
    {
      && RingSize(buffer.Length)
      && readPos < buffer.Length && writePos < buffer.Length
    }

    ghost function Contents(): seq<byte>
      requires readPos <= buffer.Length && writePos <= buffer.Length
      reads this, buffer
    {
      Queue(buffer[..], readPos, writePos)
    }

    ghost function AsStore(): Store
      reads this, buffer
    {
      Store(buffer[..], readPos, writePos)
    }

    constructor ()
      ensures Valid() && AsStore() == Store(buffer[..], 0, 0) && Contents() == [] && buffer.Length == ASYNC_BUFSIZE
      ensures fresh(buffer)
    {
      buffer := new byte[ASYNC_BUFSIZE];
      readPos, writePos := 0, 0;
      new;
      assert Shifted(0) == ASYNC_BUFSIZE;
    }

    /** The writer thread's and the queue's view of emptiness agree. */
    method IsEmpty() returns (empty: bool)
      requires Valid()
      ensures empty <==> Contents() == []
    {
      empty := readPos == writePos;
    }

    method BufferLen() returns (len: nat)
      requires Valid()
      ensures len == |Contents()| < buffer.Length
    {
      if writePos >= readPos {
        len := writePos - readPos;
      } else {
        len := buffer.Length + writePos - readPos;
      }
    }

    /** The two contiguous pieces of the queue, as offsets and lengths. */
    method BufferPtrs() returns (start1: nat, len1: nat, len2: nat)
      requires Valid()
      ensures start1 + len1 <= buffer.Length && len2 <= buffer.Length
      ensures Contents() == buffer[start1..start1 + len1] + buffer[..len2]
      ensures len1 == 0 ==> len2 == 0
      ensures Contents() != [] ==> start1 == readPos
      ensures len2 > 0 ==> start1 + len1 == buffer.Length
    {
      start1, len1, len2 := 0, 0, 0;
      if readPos < writePos {
        start1, len1 := readPos, writePos - readPos;
      } else if readPos > writePos {
        start1, len1, len2 := readPos, buffer.Length - readPos, writePos;
      }
    }

    /** One turn of the writer thread: copy at most `ASYNC_LOCAL_BUFSIZE` bytes of the
        queue into the local buffer and advance the read position. */
    method Drain(local: array<byte>) returns (localLen: nat)
      requires Valid() && local.Length == ASYNC_LOCAL_BUFSIZE && local != buffer
      modifies this`readPos, local
      ensures Valid() && Drains(old(AsStore()), AsStore(), localLen)
      ensures localLen == Min(|old(Contents())|, ASYNC_LOCAL_BUFSIZE)
      ensures local[..localLen] == old(Contents())[..localLen]
      ensures Contents() == old(Contents())[localLen..]
    {
      var len1, len2;
      len1, len2 := CollectInto(local);
      localLen := len1 + len2;
      ghost var was := AsStore();
      readPos := (readPos + len1 + len2) % buffer.Length;
      DrainsQueue(was, AsStore(), localLen);
    }

    method CollectInto(local: array<byte>) returns (len1: nat, len2: nat)
      requires Valid() && local.Length == ASYNC_LOCAL_BUFSIZE && local != buffer
      modifies local
      ensures len1 + len2 == Min(|Contents()|, ASYNC_LOCAL_BUFSIZE)
      ensures local[..len1 + len2] == Contents()[..len1 + len2]
    {
      hide Spliced, Queue;
      var start1;
      start1, len1, len2 := BufferPtrs();
      ghost var piece1, piece2 := buffer[start1..start1 + len1], buffer[..len2];
      assert Contents() == piece1 + piece2;
      if len1 > 0 {
        len1 := CopyClamped(local, 0, buffer, start1, len1);
        if len2 > 0 {
          len2 := CopyClamped(local, len1, buffer, 0, len2);
        }
      }
      assert local[..len1 + len2] == piece1[..len1] + piece2[..len2];
      TakeOfSum(piece1, piece2, len1, len2);
    }

    /** Queue `data`: in place when it fits, otherwise into a larger buffer into which
        the queue is copied from position zero. */
    method WriteUnlocked(data: seq<byte>)
      requires Valid()
      requires |Contents()| + |data| + 1 <= MAX_RING
      modifies this, buffer
      ensures Valid() && Contents() == old(Contents()) + data
      ensures Puts(old(AsStore()), data, AsStore())
      ensures buffer == old(buffer) <==> |data| < old(buffer.Length) - |old(Contents())|
      ensures buffer == old(buffer) || fresh(buffer)
    {
      hide Queue, Spliced, RingSize;
      var len := BufferLen();
      var remaining := buffer.Length - len;
      if |data| < remaining {
        PutInPlace(data);
      } else {
        var nextSize := NextBufferSize(buffer.Length, len + |data| + 1);
        Relinearise(nextSize, data);
      }
    }

    method PutInPlace(data: seq<byte>)
      requires Valid() && |data| < buffer.Length - |Contents()|
      modifies this`writePos, buffer
      ensures Valid() && Contents() == old(Contents()) + data
      ensures PutsInPlace(old(AsStore()), data, AsStore())
    {
      hide Queue, Spliced;
      ghost var was := AsStore();
      var rest := data;
      var remainingContiguous := buffer.Length - writePos;
      if |rest| > remainingContiguous {
        CopyIn(buffer, writePos, rest[..remainingContiguous]);
        rest := rest[remainingContiguous..];
        writePos := 0;
      }
      ModOnce(was.writePos + |data|, |was.buf|);
      ModOnce(writePos + |rest|, |was.buf|);
      CopyIn(buffer, writePos, rest);
      writePos := (writePos + |rest|) % buffer.Length;
      PutsQueue(was, data, AsStore());
    }

    method Relinearise(nextSize: nat, data: seq<byte>)
      requires Valid() && RingSize(nextSize) && nextSize > |Contents()| + |data|
      modifies this
      ensures Valid() && Contents() == old(Contents()) + data && fresh(buffer)
      ensures buffer.Length == nextSize
      ensures readPos == 0 && writePos == |old(Contents())| + |data|
      ensures buffer[..writePos] == old(Contents()) + data
    {
      hide Spliced, RingSize;
      var start1, len1, len2 := BufferPtrs();
      ghost var queue := Contents();
      var nextLen := 0;
      var nextBuffer := new byte[nextSize];
      if len1 > 0 {
        CopyWithin(nextBuffer, nextLen, buffer, start1, len1);
        nextLen := nextLen + len1;
        if len2 > 0 {
          CopyWithin(nextBuffer, nextLen, buffer, 0, len2);
          nextLen := nextLen + len2;
        }
      }
      assert nextBuffer[..nextLen] == queue;
      CopyIn(nextBuffer, nextLen, data);
      nextLen := nextLen + |data|;
      assert nextBuffer[..nextLen] == queue + data;
      buffer := nextBuffer;
      readPos := 0;
      writePos := nextLen;
    }
  }

  /** `mem_copy` from a value into an array. */
  method CopyIn(dst: array<byte>, at: nat, data: seq<byte>)
    requires at + |data| <= dst.Length
    modifies dst
    ensures dst[..] == Spliced(old(dst[..]), at, data)
    ensures dst[..at + |data|] == old(dst[..at]) + data
  {
    forall i | 0 <= i < |data| {
      dst[at + i] := data[i];
    }
  }

  /** `mem_copy` of as much as there is room for. */
  method CopyClamped(dst: array<byte>, at: nat, src: array<byte>, start: nat, len: nat) returns (n: nat)
    requires dst != src && at <= dst.Length && start + len <= src.Length
    modifies dst
    ensures n == Min(len, dst.Length - at)
    ensures dst[..at + n] == old(dst[..at]) + src[start..start + len][..n]
  {
    n := len;
    if n > dst.Length - at {
      n := dst.Length - at;
    }
    CopyWithin(dst, at, src, start, n);
  }

  /** `mem_copy` between two different arrays. */
  method CopyWithin(dst: array<byte>, at: nat, src: array<byte>, start: nat, len: nat)
    requires dst != src && at + len <= dst.Length && start + len <= src.Length
    modifies dst
    ensures dst[..] == Spliced(old(dst[..]), at, src[start..start + len])
    ensures dst[..at + len] == old(dst[..at]) + src[start..start + len]
  {
    CopyIn(dst, at, src[start..start + len]);
  }
}
