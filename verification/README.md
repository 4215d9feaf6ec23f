# Verified models of DDNet's base library and game core

These Dafny modules model the parts of the client and server whose correctness does not show
from reading one function: the asynchronous file writer, the streaming SHA-256, the string
algorithms, the hook of the characters, swept box movement, the logger hand-over and the skip
index of tile layers. Code that changes things step by step is an imperative method or a class
proved against a specification; what the specification promises is proved as lemmas, over every
input, every interleaving or every run.

`dafny verify dfyconfig.toml` checks everything.

## The modules

**Asynchronous writer.** `AsyncRing` is the ring buffer of an `ASYNCIO` as a class with its
array and two positions. Every operation is proved against the queue of bytes the ring stands
for: wrap-around, the 64 KiB limit of a drain, growth into a new array that starts at position
zero. `AsyncProtocol` is the step relation of any number of clients, the owner and the writer
thread over lock, semaphore, `finish`, reference count and thread handle, with that queue in it.
One invariant gives, for every interleaving: no lost wakeup, no lost or reordered byte, complete
shutdown, safe release, absence of deadlock, and termination of everything that is under way.
`AsyncSystem` puts the array and the positions under that protocol, so that the same holds of
them in every interleaving.

**SHA-256.** `Sha256Spec` is FIPS 180-4 on whole bytes (sections 3.2, 4.1.2, 4.2.2, 5.1.1, 5.3.3
and 6.2.2). `Sha256` proves the compression function with its rewritten `Ch` and `Maj`, its
state array `S[8]` that moves up by one entry in every round, and its feedback. `Sha256Stream`
proves the context: fast path for whole blocks, buffered slow path, both padding cases, and
independence of how the message is cut into chunks. `Sha256Constants` proves that the 72
constants are the bits of the cube and square roots of the first primes.

**Strings.** `Utf8` proves the decoder loop against the byte ranges of section 4 of RFC 3629,
both inverses of encoder and decoder, and the language that `str_utf8_check` accepts;
`Utf8Errors` says in terms of the encoding alone where the decoder goes on after an error.
`Utf8Truncation` proves that copying, appending and truncating leave the longest valid text that
fits. `EditDistance` defines a distance as the length of a shortest script of insertions,
deletions and substitutions, proves that the recurrence is that length, and proves the two-row
table; `Utf8Distance` puts both together in the shared buffer. `Base64` proves encoder loop and
decoder loop against one text per byte string (sections 3.5 and 4 of RFC 4648).
`Ipv6Text` proves the printer against the first longest run of zeros (section 4.2 of RFC 5952)
and against a parser, for every size of the buffer. `ArgumentQuoting` proves that the rules for taking a Windows command line
apart give the argument list back. `Easter` proves the date against a calendar that counts days
and against the Gregorian epact.

**Hook.** `HookModel` has the hook part of `CCharacterCore` on values, `HookCore` has it as
objects that update each other's `m_AttachedPlayers` in place and proves that each method does
to the world what the function of the same name says. `HookRuns` proves what every run of ticks,
reads, flag reads, releases, resets, deaths, pauses and joins of any of the 128 cores keeps: the
relation between hooking and hooked cores, the range of the states, who is grabbed, and for how
long. `HookOutcome` has the rest of a tick: counter, new-hook flag, and whom the rules let a hook
take.

**Movement, logger, skip index.** `MoveBox` is the swept movement over the reals against any
fixed set of solid points; `MoveBoxAxes` proves what each axis does by itself. `FutureLogger` is the hand-over with double-checked locking as a step
relation over any number of `Log` calls and one `Set`. `SkipIndex` writes the index in place and
proves that scanning with it finds what the plain scan finds.

`Bytes` and `Arithmetic` hold the byte type and a fact about division.

## What turned out to be conditional

- The doubling loop of `next_buffer_size` ends exactly for needs up to 2^31, from every size the
  ring can have (`AsyncRing.GrowthTerminatesIff`): above that the 32-bit size becomes zero and
  stays zero. The first need that fails is 2^31 + 1 (`AsyncRing.GrowthFails`).
- Bytes queued after the writer thread has exited stay in the ring. A write is in the file
  exactly when it was queued before the exit (`AsyncProtocol.WrittenIffQueuedBeforeExit`);
  `AsyncProtocol.LateWriteStays` is a run that loses one.
- Resetting a core that other cores hook clears its list but not their hooks. The lists stay full
  exactly when no other core is in the list (`HookRuns.ResetKeeps`).
- A character that dies while it holds another stays in the other's list. Listed players keep
  hooking exactly when the one that leaves is in no other list, which for exact lists is exactly
  when it holds nobody else (`HookRuns.LeaveKeeps`). `HookRuns.PairShowsFailures` has the world
  of two cores in which a reset and a death fail.
- A pause lets go first and is always safe (`HookRuns.PauseKeeps`), but the paused core keeps its
  list: who held it lets go of an empty slot and is not struck from that list, so the core comes
  back with an entry without a hook (`HookRuns.PausedListGoesStale`). Whatever core joins, each
  direction survives exactly when its list is right (`HookRuns.JoinKeeps`). The theorems over
  runs ask for such steps.
- A release from outside or a snapshot can end a flight and leave the new-hook flag set, until
  the next deferred tick. The flag is set only in flight along the runs in which they do not
  (`HookOutcome.ActionKeepsFlags`, `HookOutcome.FlagsFitOverRun`).
- `sha256_update` passes its length through a 32-bit parameter. The digest is that of what
  passes (`Sha256Stream.HashChunks`), which is everything for chunks below 2^32 bytes.
- Encoding and decoding a code point gives it back exactly for the scalar values
  (`Utf8.RoundTripIff`): the encoder also writes surrogates, which the decoder refuses
  (`Utf8.SurrogateIsLost`).
- `str_utf8_truncate` keeps within both limits for every number of code points from zero on; with
  a negative number it copies everything (`Utf8Truncation.StrUtf8Truncate`).

`str_base64_decode` returns -2 both for a buffer that is too small and for padding bits that are
not zero; the model keeps that.

## Model

| member | source | states |
|---|---|---|
| AsyncRing.NextBufferSize | src/base/system.cpp:669-676 | the result is a ring size that holds the need, and is the old size or less than twice the need |
| AsyncRing.GrowthTerminatesIff | src/base/system.cpp:669-676 | from every size of the ring, some number of 32-bit doublings reaches the need if and only if the need is at most 2^31 |
| AsyncRing.GrowthFails | src/base/system.cpp:669-676 | no number of doublings of a new ring reaches 2^31 + 1 |
| AsyncRing.Ring.constructor | src/base/system.cpp:621-655 | a new ring is empty and has ASYNC_BUFSIZE bytes |
| AsyncRing.Ring.IsEmpty | src/base/system.cpp:572 | equal positions mean exactly the empty queue |
| AsyncRing.Ring.BufferLen | src/base/system.cpp:657-667 | the length of the queue, always less than the buffer, whether wrapped or not |
| AsyncRing.Ring.BufferPtrs | src/base/system.cpp:529-544 | the two pieces lie inside the array and together are the queue; the second is empty unless the first reaches the end |
| AsyncRing.Ring.CollectInto | src/base/system.cpp:590-607 | the local buffer gets the first bytes of the queue, up to its 64 KiB |
| AsyncRing.Ring.Drain | src/base/system.cpp:590-609 | the queue loses exactly the prefix that went to the local buffer, of length min(queue, 64 KiB) |
| AsyncRing.Ring.PutInPlace | src/base/system.cpp:694-706 | a write that fits goes behind the queue, across the end of the array or not, and never fills the buffer |
| AsyncRing.Ring.Relinearise | src/base/system.cpp:707-736 | growing keeps the queue, now from position zero of a new array, and appends the data |
| AsyncRing.Ring.WriteUnlocked | src/base/system.cpp:689-737 | every write appends exactly its data to the queue; the array is replaced if and only if the data does not fit with one byte to spare |
| AsyncRing.PutsQueue | src/base/system.cpp:689-737 | what a write does to array and positions, in place or into a larger array, appends the data to the queue |
| AsyncRing.DrainsQueue | src/base/system.cpp:590-609 | what a drain does to the position takes the copied bytes off the queue |
| AsyncProtocol.StepKeepsInv | src/base/system.cpp:546-802 | every step of a client, the owner or the writer keeps the invariant on lock, bytes, wakeups, finish, lifetime and handle |
| AsyncProtocol.RunKeepsInv | src/base/system.cpp:546-802 | the invariant holds in every state of every run of any number of clients |
| AsyncProtocol.NoLostWakeup | src/base/system.cpp:565-588 | when the writer sleeps with bytes queued or a finish request, the semaphore is positive or some client still owes its signal |
| AsyncProtocol.BytesConserved | src/base/system.cpp:590-612 | file, local buffer and ring together are all writes so far in lock order |
| AsyncProtocol.SessionContiguous | src/base/system.cpp:678-743 | what one client writes between lock and unlock is contiguous in the stream |
| AsyncProtocol.WrittenIffQueuedBeforeExit | src/base/system.cpp:570-583 | once the writer has exited, a write is in the file if and only if it was queued before the exit; all bytes queued before the first close or wait are |
| AsyncProtocol.WaitReturnsWritten | src/base/system.cpp:777-791 | when aio_wait returns the writer has exited, and what was queued before the request is in the file unless the writer had exited before it |
| AsyncProtocol.SafeRelease | src/base/system.cpp:546-559 | in every reachable state refcount is the number of holders, the structure has been released at most once, and exactly when writer and owner have both dropped it; no step touches it afterwards |
| AsyncProtocol.FileAndHandleSettled | src/base/system.cpp:768-802 | the file is closed at most once, exactly at an exit for CLOSE, and not written after; the thread handle is taken only while attached, joined only if taken, detached only if attached, and stays joined or detached for good |
| AsyncProtocol.FinishTells | src/base/system.cpp:768-791 | finish is RUNNING exactly while neither close nor wait was called, and CLOSE exactly once close was, in either order with wait |
| AsyncProtocol.ClosedIffRequested | src/base/system.cpp:570-583 | once the writer has exited, the file is closed if and only if close was called before the exit |
| AsyncProtocol.NextCompletion | src/base/system.cpp:561-619 | no deadlock: while anything is pending some completing step is enabled |
| AsyncProtocol.CompletingDecreasesWork | src/base/system.cpp:561-619 | every completing step decreases a natural number |
| AsyncProtocol.EveryCompletionFlushes | src/base/system.cpp:561-619 | finishing what is under way takes boundedly many steps in any order and ends with all calls returned and the writer exited or all bytes in the file; after a request to finish and aio_free the structure is released there |
| AsyncProtocol.LateWriteStays | src/base/system.cpp:570-583 | a run to the release in which a byte written after the exit never reaches the file |
| AsyncSystem.StepKeepsCoupling | src/base/system.cpp:590-737 | every step of the protocol keeps array and positions standing for its queue |
| AsyncSystem.RunCouples | src/base/system.cpp:590-737 | so does every run |
| AsyncSystem.ArrayConserves | src/base/system.cpp:565-612 | in every interleaving file, local buffer and the bytes between the positions are all writes so far, and the positions are equal exactly when nothing is queued |
| AsyncSystem.RunHasStores | src/base/system.cpp:689-737 | every run of the protocol has such arrays and positions |
| Sha256.ChIsChoose | src/base/hash_libtomcrypt.cpp:55 | the rewritten Ch is the Ch of FIPS 180-4 |
| Sha256.MajIsMajority | src/base/hash_libtomcrypt.cpp:56 | the rewritten Maj is the Maj of FIPS 180-4 |
| Sha256.SigmasAreSigmas | src/base/hash_libtomcrypt.cpp:57-60 | rotation and the upper-case sigmas are those of FIPS 180-4 |
| Sha256.GammasAreSigmas | src/base/hash_libtomcrypt.cpp:57-62 | the gammas are the lower-case sigmas of FIPS 180-4 |
| Sha256.LoadIsWord | src/base/hash_libtomcrypt.cpp:36-39 | load32 reads a big-endian word |
| Sha256Constants.FirstPrimes | src/base/hash_libtomcrypt.cpp:15-29 | the 64 primes behind the constants are exactly the primes below 312, in order |
| Sha256Constants.RoundConstants | src/base/hash_libtomcrypt.cpp:15-29 | entry i of K is the first 32 bits behind the point of the cube root of the i-th prime |
| Sha256Constants.InitialValue | src/base/hash_libtomcrypt.cpp:116-123 | entry i of the initial state is the first 32 bits behind the point of the square root of the i-th prime |
| Sha256Constants.FractionsUnique | src/base/hash_libtomcrypt.cpp:15-29 | no other 32 bits are |
| Sha256.Expand | src/base/hash_libtomcrypt.cpp:73-79 | W is the message schedule of the block |
| Sha256.SumsAreSums | src/base/hash_libtomcrypt.cpp:86-87 | t0 and t1 are T1 and T2 of section 6.2.2 |
| Sha256.RoundInPlace | src/base/hash_libtomcrypt.cpp:82-104 | one round in place on S[8] is one round on the working variables a to h |
| Sha256.MoveUp | src/base/hash_libtomcrypt.cpp:94-103 | all entries of S move up by one, the last to the front |
| Sha256.AllRounds | src/base/hash_libtomcrypt.cpp:91-104 | S holds the working variables after 64 rounds |
| Sha256.Feedback | src/base/hash_libtomcrypt.cpp:106-108 | every word of the state is increased by its word of S, modulo 2^32 |
| Sha256.Compress | src/base/hash_libtomcrypt.cpp:64-109 | the new state is the next hash value of section 6.2.2 |
| Sha256Stream.BigEndianDigit | src/base/hash_libtomcrypt.cpp:41-46 | the byte the shift picks is the big-endian digit at that place |
| Sha256Stream.Store64 | src/base/hash_libtomcrypt.cpp:41-46 | eight big-endian bytes are written at the position and nothing else changes |
| Sha256Stream.Store32 | src/base/hash_libtomcrypt.cpp:48-53 | four big-endian bytes are written at the position and nothing else changes |
| Sha256Stream.Context.constructor | src/base/hash_libtomcrypt.cpp:112-124 | a new context has absorbed nothing |
| Sha256Stream.Context.Process | src/base/hash_libtomcrypt.cpp:126-156 | the context has absorbed exactly the chunk in addition, by the fast path or through the buffer |
| Sha256Stream.Context.FillBuffer | src/base/hash_libtomcrypt.cpp:141-153 | the slow path absorbs the bytes, with the block compressed when it is full |
| Sha256Stream.Context.Update | src/base/hash_libtomcrypt.cpp:196-199 | absorbed is what the 32-bit length lets through |
| Sha256Stream.Context.AppendPadding | src/base/hash_libtomcrypt.cpp:162-183 | the buffer holds the only padded block, or the second of two with the first compressed |
| Sha256Stream.Context.FinishBlock | src/base/hash_libtomcrypt.cpp:178-183 | zeros to byte 56 and the length in bits behind |
| Sha256Stream.PadSplit | src/base/hash_libtomcrypt.cpp:165-183 | the padded message of section 5.1.1 is the whole blocks and one or two more |
| Sha256Stream.PaddedBlocks | src/base/hash_libtomcrypt.cpp:165-184 | compressing those one or two blocks after the whole ones hashes the padded message |
| Sha256Stream.Context.WriteDigest | src/base/hash_libtomcrypt.cpp:186-188 | the output is the state in big-endian words |
| Sha256Stream.Context.Finish | src/base/hash_libtomcrypt.cpp:158-189 | the output is the SHA-256 of everything absorbed |
| Sha256Stream.HashAppend | src/base/hash_libtomcrypt.cpp:133-139 | hashing one block more is compressing it into the hash value so far |
| Sha256Stream.HashChunks | src/base/hash_libtomcrypt.cpp:191-206 | however a message is cut into chunks below 2^32 bytes, the digest is the SHA-256 of the whole; longer chunks count with what their 32-bit length lets through |
| EditDistance.DistReached | src/base/system.cpp:3402-3466 | a script as long as the recurrence says exists |
| EditDistance.DistMinimal | src/base/system.cpp:3402-3466 | no script is shorter |
| EditDistance.DistIsLeast | src/base/system.cpp:3402-3466 | the recurrence is the least number of insertions, deletions and substitutions |
| EditDistance.DistSymmetric | src/base/system.cpp:3436-3446 | swapping the texts keeps the distance |
| EditDistance.EditChangesByOne | src/base/system.cpp:3455-3460 | one edit anywhere in a text moves its distance by at most one |
| EditDistance.FirstRow | src/base/system.cpp:3447-3451 | row zero holds the distances from the empty text |
| EditDistance.NextRow | src/base/system.cpp:3452-3463 | a row is filled with the distances of prefixes from the row above, in the same two rows |
| EditDistance.DistBuffer | src/base/system.cpp:3432-3466 | the two-row table, shorter text first, returns the distance inside (a_len+1)+(b_len+1) entries |
| Utf8Distance.StrToUtf32Unchecked | src/base/system.cpp:3421-3430 | the code points up to the terminator are written one after the other, and nothing in front of them changes |
| Utf8Distance.StrUtf8DistBuffer | src/base/system.cpp:3468-3486 | decoding both texts into the buffer and filling the table behind them gives the distance of the code points, inside twice both lengths plus two |
| Utf8Distance.StrUtf8Dist | src/base/system.cpp:3412-3419 | for valid texts the result is the least number of edits of code points |
| Utf8.StrUtf8Encode | src/base/system.cpp:4217-4248 | the encoding stands at the pointer, its length is returned, the rest is unchanged, in any buffer that has room for it |
| Utf8Errors.EncodeLength | src/base/system.cpp:4217-4248 | one to four bytes by the size of the number, and none above U+10FFFF |
| Utf8Errors.EncodeTwo | src/base/system.cpp:4225-4229 | two bytes, marked as such, hold the number in five and six bits |
| Utf8Errors.EncodeThree | src/base/system.cpp:4231-4236 | three bytes, marked as such, hold the number, surrogates included |
| Utf8Errors.EncodeFour | src/base/system.cpp:4238-4244 | four bytes, marked as such, hold the number |
| Utf8.Decode | src/base/system.cpp:4262-4327 | the state machine returns the code point of the longest well-formed sequence or -1, and stops in front of the first byte that does not belong |
| Utf8.EncodedIsDecoded | src/base/system.cpp:4217-4327 | wherever the encoding of a scalar value stands, the decoder returns it and moves behind it |
| Utf8.DecodedIsEncoded | src/base/system.cpp:4262-4327 | whatever is decoded is a scalar value and stands there in its only encoding |
| Utf8.RoundTripIff | src/base/system.cpp:4217-4327 | decoding an encoding gives the number back if and only if it is a scalar value |
| Utf8.SurrogateIsLost | src/base/system.cpp:4230-4236 | the three bytes of U+D800 are refused |
| Utf8.DecodeProgress | src/base/system.cpp:4262-4327 | on any bytes the decoder advances, never over the terminator in the middle of a sequence, and returns zero only there |
| Utf8Errors.ErrorSkipsLongestPart | src/base/system.cpp:4308-4315 | after an error the decoder stands behind the longest beginning of an encoding that is there, or behind one byte if there is none |
| Utf8.DecodeAll | src/base/system.cpp:3424-3428 | scanning ends with at most as many code points as there are bytes |
| Utf8.DecodeAllOfEncoding | src/base/system.cpp:3424-3428 | scanning the encoding of code points gives them back |
| Utf8.ValidIffUtf8 | src/base/system.cpp:4329-4340 | decoding without an error up to the terminator means being a concatenation of encodings of non-zero scalar values |
| Utf8.StrUtf8Check | src/base/system.cpp:4329-4340 | accepted are exactly the concatenations of encodings of non-zero scalar values |
| Utf8Truncation.StrUtf8Rewind | src/base/system.cpp:4179-4188 | the result is the last byte before the cursor that can start a code point, or zero |
| Utf8Truncation.StartIff | src/base/system.cpp:4172-4177 | the bytes that are no start are exactly those behind the first byte of some encoding |
| Utf8Truncation.StartOfLast | src/base/system.cpp:4190-4205 | in a valid text the last start byte before a cut starts the code point at the cut |
| Utf8Truncation.ValidCut | src/base/system.cpp:4190-4205 | a prefix of a valid text is valid if and only if it ends where a code point ends |
| Utf8Truncation.LastEndIsLongest | src/base/system.cpp:4190-4205 | the last end of a code point before the cut gives the longest valid prefix |
| Utf8Truncation.FixTruncation | src/base/system.cpp:4190-4205 | any bytes are cut at their last start byte exactly if no code point stands there, and the length is returned; of a cut valid text the part up to the last complete code point remains |
| Utf8Truncation.StrCopy | src/base/system.cpp:3009-3014 | the buffer holds the longest valid prefix of the source that fits, terminated, and its length is returned; of other bytes the repaired cut |
| Utf8Truncation.AsciiKept | src/base/system.cpp:3009-3014 | ASCII text is cut to exactly the room there is |
| Utf8Truncation.PutBehind | src/base/system.cpp:2994-3005 | the loop puts the source behind the text up to dst_size - 1 bytes |
| Utf8Truncation.StrAppend | src/base/system.cpp:2992-3007 | the buffer holds the longest valid prefix of both texts together that fits; of other bytes the repaired cut |
| Utf8Truncation.CutPoint | src/base/system.cpp:3018-3029 | the loop stops behind the last code point within both limits |
| Utf8Truncation.EndOfEncoding | src/base/system.cpp:3021-3029 | after n calls the decoder stands behind the first n code points of a valid text |
| Utf8Truncation.CutFits | src/base/system.cpp:3018-3030 | no larger number of code points is within the limits |
| Utf8Truncation.StrUtf8Truncate | src/base/system.cpp:3016-3031 | of a valid text the first code points remain, as many as are asked for and fit; with a negative number the whole text |
| Base64.DigitTable | src/base/system.cpp:3684 | the 64 letters are the alphabet of RFC 4648 in order |
| Base64.DigitInverse | src/base/system.cpp:3734-3757 | the value of a digit is the number it was printed for, and padding is no digit |
| Base64.ValueInverse | src/base/system.cpp:3734-3757 | a character with a value is the digit of that value |
| Base64.DigitIff | src/base/system.cpp:3734-3757 | the characters with a value are exactly those of the alphabet |
| Base64.BadGroupIff | src/base/system.cpp:3797-3805 | a group is refused for its digits exactly if a character in it is neither in the alphabet nor padding in its place |
| Base64.EncoderStep | src/base/system.cpp:3694-3731 | one turn of the bit-buffer loop puts out the next character of the text, whatever the 32-bit value still holds |
| Base64.StrBase64 | src/base/system.cpp:3682-3732 | the buffer holds the text of the bytes, or as much as fits, and a terminator |
| Base64.DecodedGroupEncodes | src/base/system.cpp:3775-3823 | a group that is accepted is the text of its bytes, so non-zero padding bits are refused |
| Base64.EncodedGroupDecodes | src/base/system.cpp:3775-3823 | the text of up to three bytes decodes to them |
| Base64.DecodeOneGroup | src/base/system.cpp:3775-3823 | one turn of the loop stores the bytes of the group, or returns -1 for a bad digit and -2 for padding bits that are not zero |
| Base64.DecodeGroups | src/base/system.cpp:3773-3825 | a text that fits is accepted if and only if it is an encoding, and refused with -1 if and only if some character is neither in the alphabet nor padding in its place |
| Base64.StrBase64Decode | src/base/system.cpp:3759-3826 | exactly the encodings are accepted and encoding the result gives the text; -3 is for the length, -1 for a character neither in the alphabet nor padding in its place, -2 for room and for all else |
| Base64.EncodeAppend | src/base/system.cpp:3682-3732 | texts of whole groups can be put together |
| Base64.EncodeInjective | src/base/system.cpp:3682-3732 | different bytes have different texts |
| Base64.RoundTrip | src/base/system.cpp:3682-3826 | decoding the text of any bytes gives the bytes back |
| Ipv6Text.LongestZeroRun | src/base/system.cpp:1116-1156 | the scan finds the first longest run of zero groups of length two or more, or none |
| Ipv6Text.ShortenedUnique | src/base/system.cpp:1116-1156 | there is only one such run |
| Ipv6Text.NumberText | src/base/system.cpp:1170-1176 | digits of the base in lower case, without leading zeros |
| Ipv6Text.NumberRoundTrip | src/base/system.cpp:1170-1176 | the printed number reads back in base 10 and 16 |
| Ipv6Text.ParseFrom | src/base/system.cpp:1158-1172 | from every group on, the parser reads what is printed |
| Ipv6Text.FinishGives | src/base/system.cpp:1160-1166 | putting zeros for "::" gives the eight groups back |
| Ipv6Text.TextShort | src/base/system.cpp:1158-1172 | the groups need at most 39 characters |
| Ipv6Text.TextParses | src/base/system.cpp:1158-1178 | a parser reads the address and any port back, and sees that exactly the first longest run was left out; the text is shorter than NETADDR_MAXSTRSIZE for a port of 16 bits |
| Ipv6Text.AppendText | src/base/system.cpp:1157-1178 | each piece goes behind the others, cut to the buffer, with a terminator |
| Ipv6Text.AppendPiece | src/base/system.cpp:1158-1172 | one turn of the loop prints what the group needs |
| Ipv6Text.NetAddrStrV6 | src/base/system.cpp:1114-1179 | a buffer of any size gets the one text, cut where it ends; NETADDR_MAXSTRSIZE bytes hold it whole for 16-bit ports, and a parser reads address, port and the run left out |
| Ipv6Text.SameTextIff | src/base/system.cpp:1114-1179 | texts are equal if and only if address and port are |
| ArgumentQuoting.QuoteOnto | src/base/system.cpp:4544-4574 | one argument is appended with 2n+1 backslashes before its quotes and 2n before the closing quote |
| ArgumentQuoting.ParseUpToQuote | src/base/system.cpp:4556-4573 | 2n backslashes and a quote close the argument, 2n+1 leave a quote in it |
| ArgumentQuoting.ParseBody | src/base/system.cpp:4548-4574 | reading a quoted argument adds exactly the argument |
| ArgumentQuoting.LineParses | src/base/system.cpp:4533-4578 | a line from any argument on reads back as those arguments |
| ArgumentQuoting.BodyLength | src/base/system.cpp:4548-4574 | an argument gets a backslash for each quote and for each backslash in front of a quote or the end, and no other |
| ArgumentQuoting.LineLength | src/base/system.cpp:4533-4578 | so does a line, with two quotes an argument and one space between two |
| ArgumentQuoting.ArgsToWide | src/base/system.cpp:4533-4578 | taking the line apart gives the argument list back, for every list, and nothing is put out that is not needed |
| Easter.DaysClosed | src/base/system.cpp:2917-2932 | counting days with the leap-year rule has the closed form with quotients by 4, 100 and 400 |
| Easter.EasterOffset | src/base/system.cpp:2920-2932 | month and day are day 22 + h + L - 7m of March, with m deciding the two late cases |
| Easter.EasterIsSunday | src/base/system.cpp:2917-2932 | in every year the date is a Sunday from 22 March to 25 April |
| Easter.FullMoonFromRemainder | src/base/system.cpp:2926-2927 | h is the distance of the epact's full moon from 21 March, up to the corrections of the two late epacts |
| Easter.EasterFollowsFullMoon | src/base/system.cpp:2917-2932 | in every year the date is the first Sunday after the paschal full moon |
| HookModel.Nearest | src/game/gamecore.cpp:409-443 | the scan ends with the nearest eligible player, the lowest slot among equals, or with nobody if there is none |
| HookCore.CharacterCore.SetHookedPlayer | src/game/gamecore.cpp:805-827 | the cores change as the value function says: one field of this core and the lists of at most two others |
| HookCore.CharacterCore.HandleInput | src/game/gamecore.cpp:305-326 | launching and releasing by the hook button |
| HookCore.CharacterCore.ScanSlot | src/game/gamecore.cpp:412-442 | each slot changes the world as the value function says, and the distance is that of the player taken so far |
| HookCore.CharacterCore.Scan | src/game/gamecore.cpp:409-443 | the loop changes the cores as the scan on values does, with all lists touched on the way |
| HookCore.CharacterCore.CutToLength | src/game/gamecore.cpp:365-375 | a hook at its length starts to retract |
| HookCore.CharacterCore.End | src/game/gamecore.cpp:446-474 | ground, no-hook tiles and teleporters act only on a hook still flying |
| HookCore.CharacterCore.Fly | src/game/gamecore.cpp:365-475 | players come before ground |
| HookCore.CharacterCore.Hold | src/game/gamecore.cpp:477-535 | a player that is gone, may not be kept or is held too long is let go |
| HookCore.CharacterCore.DoHook | src/game/gamecore.cpp:345-475 | the state machine of the hook |
| HookCore.CharacterCore.Tick | src/game/gamecore.cpp:193-539 | in every world the hook part of a tick changes the cores as the value function says, and it keeps the relation |
| HookCore.CharacterCore.Deferred | src/game/gamecore.cpp:601-604 | the new-hook flag is changed as the value function says, which HookOutcome.TickRest pins |
| HookCore.CharacterCore.Read | src/game/gamecore.cpp:724-740 | the hook of a snapshot is taken over, with the lists |
| HookCore.CharacterCore.Quantize | src/game/gamecore.cpp:798-803 | writing a core and reading it back changes no hook and no list |
| HookCore.CharacterCore.Reset | src/game/gamecore.cpp:149-191 | the hook is idle, holds nobody, and the own list is empty |
| HookCore.WorldCore.Leave | src/game/server/entities/character.cpp:237-250 | a character that goes empties its slot and changes no core |
| HookCore.WorldCore.Pause | src/game/server/entities/character.cpp:3548-3558 | the slot is emptied, the core lets go and is struck from the list of whom it held |
| HookCore.WorldCore.Join | src/game/server/entities/character.cpp:3559-3564 | the core takes its empty slot as it is |
| HookCore.ScanNext | src/game/gamecore.cpp:415-441 | a slot is taken exactly if it is a candidate and nobody was taken or it is nearer |
| HookRuns.SetHookedAt | src/game/gamecore.cpp:805-827 | hooking changes the hooked player of one core and at most two lists, at every slot |
| HookRuns.SetHookedKeepsRel | src/game/gamecore.cpp:805-827 | hooking keeps both directions of the relation |
| HookRuns.HookTwice | src/game/gamecore.cpp:805-827 | with the relation, hooking one player and then another is hooking the other |
| HookRuns.ScanToOwn | src/game/gamecore.cpp:409-443 | the scan leaves the core holding the nearest candidate |
| HookRuns.ScanTakesOne | src/game/gamecore.cpp:409-443 | with the relation, the players taken on the way leave no trace in any list |
| HookRuns.TickKeeps | src/game/gamecore.cpp:193-539 | a tick of one core keeps the relation and leaves the other cores as they are but for their lists |
| HookRuns.WriteReadInverse | src/game/gamecore.cpp:706-740 | a core writes the snapshot it has read, and reading what it wrote changes nothing |
| HookRuns.ResetKeeps | src/game/gamecore.cpp:149-160 | a reset keeps one direction, and the other exactly when no other core is in the list |
| HookRuns.LeaveKeeps | src/game/server/entities/character.cpp:237-250 | when a core leaves, the relation survives exactly if no other list has it; with exact lists, exactly if it holds nobody else |
| HookRuns.PauseLetsGo | src/game/server/entities/character.cpp:3548-3558 | for the others a pause is a release and leaving, in either order |
| HookRuns.PauseKeeps | src/game/server/entities/character.cpp:3548-3558 | a pause keeps both directions |
| HookRuns.JoinKeeps | src/game/server/entities/character.cpp:3559-3564 | when a core joins, each direction survives exactly if its own list is right |
| HookRuns.SpawnKeeps | src/game/server/entities/character.cpp:180-187 | a new character keeps the relation, and the lists full exactly if nobody still hooks its slot |
| HookRuns.PausedListGoesStale | src/game/server/entities/character.cpp:3545-3564 | a core that is held, paused, let go of and back has an entry without a hook |
| HookRuns.TickReleases | src/game/gamecore.cpp:528-535 | the hook of a player who is gone ends with the next tick |
| HookRuns.PairShowsFailures | src/game/gamecore.cpp:149-160 | two cores for which a reset and a death break one direction each |
| HookRuns.FlyOwn | src/game/gamecore.cpp:365-475 | a free flying hook ends with the nearest candidate, or where the way ends |
| HookRuns.HoldOwn | src/game/gamecore.cpp:477-535 | a held player stays exactly while it exists, may be kept and the counter is below the limit |
| HookRuns.TickHolding | src/game/gamecore.cpp:307-535 | the exact state, counter and player after a tick of a core that holds a player |
| HookRuns.TickFree | src/game/gamecore.cpp:307-535 | the exact state and player after a tick of a core that holds nobody |
| HookRuns.TickHook | src/game/gamecore.cpp:307-535 | both cases: good stays good, whom the hook takes and how long it holds |
| HookOutcome.TickRest | src/game/gamecore.cpp:307-604 | the exact new-hook flag and counter after a tick: the flag was set or the hook went through an open teleporter, and a deferred tick leaves it only in flight; the counter starts with the launch and runs exactly while something is grabbed |
| HookOutcome.TickTakesByTheRules | src/game/gamecore.cpp:412-442 | nobody hooks itself, a solo player or another team without super, or anyone far from the way, and nobody nearer could be taken |
| HookOutcome.FliesOnPastNobody | src/game/gamecore.cpp:412-442 | a hook that looked and flies on passed nobody whom the rules let it take |
| HookOutcome.ResetIsLikeNew | src/game/gamecore.cpp:149-191 | a core that is reset has the fields of a new one |
| HookOutcome.PressAfterReset | src/game/gamecore.cpp:308-319 | the button launches the hook right after a reset |
| HookOutcome.ActionKeepsFlags | src/game/gamecore.cpp:601-604 | an action keeps the flag to hooks in flight if it is safe for it, and for all but ticks only then |
| HookOutcome.FlagsFitOverRun | src/game/gamecore.cpp:601-604 | so does every run of safe actions |
| HookRuns.ActionKeepsRel | src/game/gamecore.cpp:805-827 | an action keeps each direction of the relation exactly if it is safe for it, and every tick, read, flag read, release and pause is |
| HookRuns.AttachedHookOverRun | src/game/gamecore.cpp:805-827 | in every run, as long as nobody listed leaves and who joins brings a true list, whoever is listed as attached to a core hooks it |
| HookRuns.ExactInverseOverRun | src/game/gamecore.cpp:805-827 | while moreover no core that another one hooks is reset and who joins brings a full list, lists and hooks are exact inverses |
| HookRuns.ActionKeepsGood | src/game/gamecore.cpp:345-375 | every action keeps states in range and only a grabbing hook holding a player |
| HookRuns.GoodOverRun | src/game/gamecore.cpp:345-375 | the same in every state of every run whose snapshots are those of good cores |
| HookRuns.HeldTicksBounded | src/game/gamecore.cpp:528-535 | while a player is held each tick uses up one of the ticks left, whatever the other cores do, so there are at most that many |
| MoveBox.SmallStep | src/game/collision.cpp:621-659 | the body of the loop is the step in which each axis moves or bounces by one rule |
| MoveBoxAxes.StepTable | src/game/collision.cpp:621-659 | case by case: the axis blocked alone bounces and the other goes on, both bounce where neither or each is blocked |
| MoveBoxAxes.AxesAreSeparate | src/game/collision.cpp:593-666 | with floors only, a whole movement goes on in x at full speed whatever happens in y, and with walls only the other way round |
| MoveBoxAxes.SpeedLeft | src/game/collision.cpp:630-655 | the speed left on an axis is the initial one times minus the elasticity of that axis for every stop |
| MoveBoxAxes.SpeedLeftAfterMove | src/game/collision.cpp:593-666 | the same after a whole movement, with the elasticity of the call |
| MoveBoxAxes.FreeCorners | src/game/collision.cpp:579-591 | the test finds exactly the boxes with a solid corner, half the size away on both axes |
| MoveBoxAxes.NoCornerIsSolid | src/game/collision.cpp:579-666 | no corner of any position the box takes is solid |
| MoveBoxAxes.FewestSteps | src/game/collision.cpp:599-604 | with fewer steps a step in the open would not be shorter than one unit |
| MoveBox.Clamp | src/game/collision.cpp:605-606 | the value itself, or the bound it is beyond |
| MoveBox.RestStays | src/game/collision.cpp:606-619 | the early exits skip only steps that change nothing |
| MoveBox.Move | src/game/collision.cpp:593-666 | the movement is floor(length) + 1 such steps, or none below the threshold |
| MoveBox.StepStaysFree | src/game/collision.cpp:621-659 | the position taken is free, although in part only single axes are looked at |
| MoveBox.FreeAllTheWay | src/game/collision.cpp:593-666 | a box that starts free is free after every step |
| MoveBox.SpeedNeverGrows | src/game/collision.cpp:630-655 | the speed on each axis never grows |
| MoveBox.StepShorterThanOne | src/game/collision.cpp:599-612 | each step is shorter than one unit |
| MoveBox.TotalDisplacement | src/game/collision.cpp:593-666 | each axis moves at most its initial speed in all |
| MoveBox.FreeFlight | src/game/collision.cpp:593-666 | with nothing in the way the box moves by exactly its velocity and keeps it |
| MoveBox.GroundedIff | src/game/collision.cpp:627-651 | grounded is set exactly if a downward movement was stopped with positive vertical elasticity |
| FutureLogger.StepKeepsInv | src/base/log.cpp:504-538 | every step of a call or of Set keeps the invariant on lock and messages |
| FutureLogger.MessagesAfter | src/base/log.cpp:513-538 | a step adds its own message to what is delivered or pending and takes none away |
| FutureLogger.ExactlyOnce | src/base/log.cpp:504-538 | in every interleaving no message is delivered twice, and each exactly once when all calls and Set have returned |
| FutureLogger.NothingPending | src/base/log.cpp:504-520 | with the logger installed and the lock free the pending list is empty |
| FutureLogger.NextStep | src/base/log.cpp:504-538 | until all have returned some step is enabled |
| FutureLogger.EveryRunDelivers | src/base/log.cpp:504-538 | every interleaving ends after boundedly many steps with every message delivered exactly once |
| SkipIndex.CountEmpty | src/game/layers.cpp:187-191 | the distance of the next tile in the row, at most 255 |
| SkipIndex.SkipRow | src/game/layers.cpp:185-195 | jumping from column 1 leads over honest tiles to the end of the row, and only skips where the jumps land change |
| SkipIndex.SkipFindsAll | src/game/layers.cpp:185-195 | jumping over honest tiles finds exactly what the plain scan finds |
| SkipIndex.InitTilemapSkip | src/game/layers.cpp:183-196 | in every row of every size both scans agree from column 1 on, and nothing but the skips where the jumps land has changed |

## Left out

- Sockets, files, directories, processes, time and randomness: foreign calls. The file is a sequence of bytes, and `io_write` takes all it is given.
- AsyncProtocol: taking the lock, a critical section with its unlock, a semaphore operation and a file write are one step each; `io_flush`, `aio->error` and `aio_error` have no state, and failures of memory or thread creation in `aio_new` are not modelled.
- AsyncProtocol: what the callers owe is part of when a call may begin: no use after `aio_free`, no call under way when it begins, at most one `aio_wait`. The protocol works on the queue of bytes; that array and positions implement it in every run is what AsyncSystem proves.
- AsyncRing.Ring.WriteUnlocked: writes are limited to 2^31 bytes in the ring because the doubling of the size does not end beyond, as GrowthTerminatesIff shows.
- Sha256Spec: messages are whole bytes; above 2^64 bits the length field is taken modulo 2^64, as the program's counter is. The variant that calls OpenSSL is not modelled.
- HookModel: positions, ray hits, tuning, team rules and input enter every tick as arbitrary inputs; angles, velocities, jumps and events are not modelled. Every core has a world. Changes of `m_HookTick` made elsewhere, as by endless hook, are not modelled.
- HookModel.Leave: the client's prediction empties and refills all slots at once; here each slot changes by itself.
- HookRuns.GoodOverRun: snapshots, and cores that join, are those of good cores, since `Read` takes any numbers over as they are.
- MoveBox: reals instead of floats; the length of the velocity is an input that squares to the right value; over the reals the exit for a position that does not change is the exit for no speed.
- Utf8Truncation.StrUtf8Truncate: with a negative number the buffer must have room for the whole source, as the copy is then not limited.
- Base64.StrBase64Decode: what stands in the buffer after an error is not stated.
- Ipv6Text.NetAddrStrV6: a size below one, with which no byte may be written, and IPv4 addresses are not modelled.
- ArgumentQuoting: the conversion from UTF-8 to wide characters, and the rule by which some parsers read two quotes inside quotes as one.
- Easter: only the date is modelled, not the days around it, whose offsets add up in the loop over `day_offset`, and not local time.
- FutureLogger: the order of delivery, which is not promised, memory orders, and the other functions of loggers.
- SkipIndex: reading the map data and going over groups and layers; column 0 has no skip of its own.
- The jump counters and `Move` of the core, collision with quads, `str_comp_filenames`, `secure_rand_below`, `swap_endian`, graphics, network protocol and the rest of the game are not modelled.
