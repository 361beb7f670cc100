# Verified model of the Morse Micro framework core

A Dafny model of the parts of the framework that carry real invariants, with their properties
proved for all inputs, all runs and all interleavings. `dafny verify dfyconfig.toml` checks
everything.

## Parts

**Packet memory manager.** `PktMem` is a state machine with one step per atomic operation,
critical section, heap call or callback, and any number of calls under way. `PktMemSafety` has
the invariants of all reachable states and the no-stuck-pause theorem; `PktMemRuns` composes
runs; `PktMemStuck` constructs, for every pool size, a run that shows that the bound in that
theorem cannot be raised. `PktMemCalls` shows what each call does when nothing interrupts it,
`PktMemHistory` sequences of such calls, with the hysteresis and the two-threshold automaton over
the whole history, and `PktMemStatic` has the functions themselves as methods on the static
structure. `PktMemSerial` shows that runs with one call at a time are those sequences, and
`PktMemFull` when a full pool is a paused one. `PktMemOverlap` places command packets in memory.

**Packets.** `PacketLayout` is the single-buffer layout in wrapping 32-bit arithmetic,
`PacketBuffer` the byte deque inside the buffer, `PacketList` the list walk.

**Key derivation and field arithmetic.** `Prf` has the two block-counter loops. `NumberTheory`
proves Euler's criterion from scratch (by pairing factors, through Wilson's theorem);
`ConstTime`, `Bignum` and `Curve` use it for mask selection, the Legendre symbol, the curve
equation and the square root, and `Primality` for a primality test in the manner of Proth. mbedTLS
numbers are objects that hold mathematical integers.

**CRC-16/XMODEM.** `CrcTable` checks all 256 entries of the table; `Crc` proves the loop equal to
the shift register, the register equal to long division of polynomials, and the detection of bursts
and of odd errors. `CrcOrder` finds the period of x modulo the generator, and `CrcDistance` derives
from it which two-bit errors go undetected and the Hamming distance.

**Shims.** `FailureRing`, `Clock` and `StringCopy`. `Words` and `Arithmetic` hold what several parts
share.

## Where the code departs from what one might expect

Each of these is kept as the code has it, shown by an input, and delimited by an exact condition.

- The pause flag can stay set for good, with no packet outstanding and no call under way, as soon
  as N - 2 or more allocations run at once (`PktMemStuck.NeverStuckIff`).
- A full pool need not be paused: a free that has read the counter can be overtaken by allocations
  that fill the pool, and then clears their flag (`PktMemFull.FullAndReady`). It takes two calls at
  once and three or more blocks (`PktMemFull.FullIsPausedIff`).
- `mmpkt_init_buf` accepts requests whose total wraps (`PacketLayout.WrapAccepted`,
  `PacketLayout.FitsIff`), and in whole-buffer mode its signed comparison misses some underflows and
  takes headroom from 2^31 on for negative (`PacketLayout.WholeBufferUnderflow`,
  `PacketLayout.WholeBufferHeadroom`, `PacketLayout.WholeBufferIff`).
- So two outstanding command packets can overlap, and the metadata of one, which is cleared, can be
  the data of the other (`PktMemOverlap.TxOverlapReached`, `PktMemOverlap.RxOverlapReached`); they do
  exactly when the parts of one of them wrap (`PktMemOverlap.CommandPacketsApartIff`).
- `crypto_bignum_is_zero` looks at 32 bits of each limb, so with 64-bit limbs it takes 2^32 for
  zero; `crypto_bignum_legendre` is then wrong for nonsquares modulo primes for which no limb of
  p - 1 has anything in its low half (`Bignum.IsZeroMissesHighHalf`, `Bignum.Legendre`), such as 7 modulo 77309411329
  (`Bignum.LegendreMisses`).
- derive_y returns p itself, not 0, for a zero right side unless it is asked to be even, and a root of the
  negated right side when there is no root (`Curve.DeriveY`, `Curve.DeriveYOddZero`,
  `Curve.DeriveYNoRoot`).
- `crypto_bignum_addmod` and `crypto_bignum_mulmod` give 0 or an error when the result object is
  the modulus (`Bignum.AddMod`, `Bignum.MulMod`, `Bignum.ModulusOverwritten`); `crypto_bignum_exptmod` guards against that.
- `sha1_prf` repeats itself after 5120 octets (`Prf.Sha1PrefixAndPeriod`).
- The failure dump counts unseen records modulo 2^32 (`FailureRing.DumpsKeepPromiseIff`,
  `FailureRing.WrappedDump`).
- Of two instants exactly 2^31 apart each is before the other (`Clock.HalfTurn`).
- `os_strlcpy` writes nothing for sizes above 2^31 (`StringCopy.Strlcpy`).

## Model

| member | source | states |
|---|---|---|
| PktMemStuck.NeverStuckIff | framework/src/mmpktmem/mmpktmem_heap.c:215-287 | for every pool size and every `limit`: all runs with at most `limit` transmit allocations at once are ready when idle, if and only if `limit` is below the unpause threshold N - 2, or there is nothing to allocate (`limit` or N is 0) |
| PktMemStuck.StuckPause | framework/src/mmpktmem/mmpktmem_heap.c:215-282 | for every pool and every `limit` from the threshold on there is a run that ends idle, with a zero counter, and paused |
| PktMemStuck.Drained | framework/src/mmpktmem/mmpktmem_heap.c:215-282 | the schedule of that run: from the empty pool through a full one, allocations overlapping frees drain it without any free reading a counter below the threshold, and are refused |
| PktMemFull.FullIsPausedIff | framework/src/mmpktmem/mmpktmem_heap.c:215-282 | for every pool size and every limit on calls of any kind under way: an idle full pool is always paused, if and only if calls do not overlap or the pool has one or two blocks |
| PktMemFull.FullAndReady | framework/src/mmpktmem/mmpktmem_heap.c:215-282 | for every pool of three or more blocks, a run with two calls at once that ends idle, full and ready |
| PktMemFull.ArmedKept | framework/src/mmpktmem/mmpktmem_heap.c:215-282 | one step keeps a pool of one or two blocks from being full without the flag set or about to be |
| PktMemSafety.NoStuckPause | framework/src/mmpktmem/mmpktmem_heap.c:215-287 | below that limit a set flag always has a packet, an allocation holding one or an unfinished free behind it; with none left the state is ready |
| PktMemSafety.NotStuckKept | framework/src/mmpktmem/mmpktmem_heap.c:215-282 | one step keeps that |
| PktMemSafety.Safety | framework/src/mmpktmem/mmpktmem_heap.c:139-346 | every reachable state of every interleaving has right counters, capped pools, blocks in one place each, heap memory with one owner each, callbacks accounted for and laid-out command packets |
| PktMemSafety.PoolBounds | framework/src/mmpktmem/mmpktmem_heap.c:215-270 | the counter is never negative and exceeds N by rejected calls only, memory on the heap exceeds N by frees under way only, and the assertion old_value > 0 never fires |
| PktMemSafety.CountersKept | framework/src/mmpktmem/mmpktmem_heap.c:215-270 | both counters stay equal to the number of counted activities, and admitted packets within the pool sizes |
| PktMemSafety.CallbacksKept | framework/src/mmpktmem/mmpktmem_heap.c:221-228 | callbacks made plus callbacks due stay equal to the changes of the flag, which is set if and only if that number is odd |
| PktMemSafety.BlocksKept | framework/src/mmpktmem/mmpktmem_heap.c:139-207 | every reserved block stays in exactly one of its own free list and one activity, also when the layout fails |
| PktMemSafety.BlockOwner | framework/src/mmpktmem/mmpktmem_heap.c:139-195 | in every reachable state a transmit block in use is in no free list and with no other activity |
| PktMemSafety.RxBlockOwner | framework/src/mmpktmem/mmpktmem_heap.c:197-207 | the same for receive blocks |
| PktMemSafety.BlocksReturned | framework/src/mmpktmem/mmpktmem_heap.c:139-207 | a block that no activity has is in each free list exactly once |
| PktMemOverlap.CommandPacketsApartIff | framework/src/mmpktmem/mmpktmem_heap.c:56-90 | in every reachable state, for all requests and wherever the two pools are placed: two outstanding command packets, of one pool or of both, share memory if and only if the parts of one of them pass 2^32 |
| PktMemOverlap.TxOverlapReached | framework/src/mmpktmem/mmpktmem_heap.c:151-195 | a run of two calls after which the cleared metadata of one transmit command packet is the data of the other |
| PktMemOverlap.RxOverlapReached | framework/src/mmpktmem/mmpktmem_heap.c:300-316 | the same for receive command packets |
| PktMemSafety.HeapOwnedKept | framework/src/mmpktmem/mmpktmem_heap.c:215-346 | one step keeps every heap address with exactly one activity |
| PktMemSafety.HeapOwner | framework/src/mmpktmem/mmpktmem_heap.c:215-346 | memory that a call or an owner uses is allocated and nobody else's; nothing is freed twice |
| PktMemCalls.AloneIsRun | framework/src/mmpktmem/mmpktmem_heap.c:215-346 | a call that nothing interrupts is a run of the machine, whatever else is outstanding |
| PktMemCalls.DataAllocIsAlone | framework/src/mmpktmem/mmpktmem_heap.c:254-282 | the steps of an uninterrupted data allocation add up to one change: rejected or refused leaves no trace, admitted counts, allocates and sets the flag at the pause threshold |
| PktMemCalls.DataFreeIsAlone | framework/src/mmpktmem/mmpktmem_heap.c:215-229 | the steps of an uninterrupted free add up to one change |
| PktMemCalls.TxCallIsAlone | framework/src/mmpktmem/mmpktmem_heap.c:235-282 | the steps of an uninterrupted transmit call: a command block if one takes the packet, else the data pool |
| PktMemCalls.RxAllocIsAlone | framework/src/mmpktmem/mmpktmem_heap.c:326-345 | the same for the receive pool: rejected or refused leaves no trace |
| PktMemCalls.RxCallIsAlone | framework/src/mmpktmem/mmpktmem_heap.c:300-346 | the steps of an uninterrupted receive call: a command block, else the heap uncounted; data from the counted pool |
| PktMemCalls.RxFreeIsAlone | framework/src/mmpktmem/mmpktmem_heap.c:289-296 | the steps of an uninterrupted receive free |
| PktMemHistory.TxOutcome | framework/src/mmpktmem/mmpktmem_heap.c:235-282 | what a transmit caller gets, for every state and request: success if and only if it is a command that the first free block takes, or the data pool has room and the heap gives memory; a command that no block takes is served by the data pool; the whole new state in each case |
| PktMemHistory.RxOutcome | framework/src/mmpktmem/mmpktmem_heap.c:300-346 | what a receive caller gets: data if and only if the pool has room and the heap gives memory, counted; a command if and only if the first free block takes it or the heap gives memory, uncounted; the whole new state in each case |
| PktMemHistory.AutomatonMeaning | framework/src/mmpktmem/mmpktmem_heap.c:28-29 | the two-threshold automaton is set if and only if the count was full at some time and has not been below N - 2 since |
| PktMemHistory.Hysteresis | framework/src/mmpktmem/mmpktmem_heap.c:28-29 | in every run whose calls do not overlap: the counter is the number of data packets with their owners, paused implies N-2 <= allocated <= N, ready implies allocated <= N-1, and the flag is set if and only if the pool was full after some call and not below N-2 since |
| PktMemHistory.CallsAreRun | framework/src/mmpktmem/mmpktmem_heap.c:139-346 | every sequence of calls is a run of the machine with one call at a time |
| PktMemSerial.SerialRunsAreCalls | framework/src/mmpktmem/mmpktmem_heap.c:139-346 | the idle states of runs with at most one call under way are exactly those that sequences of whole calls lead to |
| PktMemSerial.SerialHysteresis | framework/src/mmpktmem/mmpktmem_heap.c:28-29 | so in all of them the thresholds hold and the flag is the automaton's for the counter after each call |
| PktMemHistory.CallKeeps | framework/src/mmpktmem/mmpktmem_heap.c:139-346 | every call keeps the machine invariants, the hysteresis and the automaton |
| PktMemStatic.PacketMemory.constructor | framework/src/mmpktmem/mmpktmem_heap.c:68-91 | the initial state of the machine, with the invariant between calls |
| PktMemStatic.PacketMemory.AllocFromList | framework/src/mmpktmem/mmpktmem_heap.c:151-183 | the first free block if the packet can be laid out in it; otherwise nothing, and the block goes to the end of the list |
| PktMemStatic.PacketMemory.ExchangeFlag | framework/src/mmpktmem/mmpktmem_heap.c:221-228 | the flag is set and the callback made exactly when the flag changed |
| PktMemStatic.PacketMemory.AllocData | framework/src/mmpktmem/mmpktmem_heap.c:254-282 | the new structure as one change: rejected or refused leaves no trace, admitted counts, allocates and sets the flag at the pause threshold |
| PktMemStatic.PacketMemory.AllocTx | framework/src/mmpktmem/mmpktmem_heap.c:235-282 | does what the machine does when the call runs alone; keeps the machine invariants, the hysteresis and the automaton, and records the packet with its owner and the counter in the history |
| PktMemStatic.PacketMemory.FreeData | framework/src/mmpktmem/mmpktmem_heap.c:215-229 | does what the machine does when the free runs alone; the assertion holds; that packet and no other leaves its owner; all invariants are kept |
| PktMemStatic.PacketMemory.AllocRxData | framework/src/mmpktmem/mmpktmem_heap.c:326-345 | the new structure as one change: rejected or refused leaves no trace |
| PktMemStatic.PacketMemory.AllocRx | framework/src/mmpktmem/mmpktmem_heap.c:300-346 | the same on the receive side |
| PktMemStatic.PacketMemory.FreeRx | framework/src/mmpktmem/mmpktmem_heap.c:289-296 | the same for receive packets |
| PktMemStatic.PacketMemory.FreePlain | framework/src/mmpktmem/mmpktmem_heap.c:318-323 | the same for command packets that came from the heap |
| PktMemStatic.PacketMemory.FreeTxCommand | framework/src/mmpktmem/mmpktmem_heap.c:139-145 | the block goes to the end of its free list; all invariants are kept |
| PktMemStatic.PacketMemory.FreeRxCommand | framework/src/mmpktmem/mmpktmem_heap.c:197-203 | the same for receive blocks |
| PktMemStatic.PacketMemory.Release | framework/src/mmpktmem/mmpktmem_heap.c:139-231 | every packet is freed by the function that its ops point to |
| PktMemStatic.PacketMemory.Perform | framework/src/mmpktmem/mmpktmem_heap.c:139-346 | any sequence of calls does to the structure, the owners and the history what it does to the machine |
| PacketLayout.ServesIff | framework/morselib/include/mmpkt.h:167-212 | for all sizes: a packet with the asked-for room in aligned, disjoint parts inside the buffer results if and only if the request fits, counted without wrap-around |
| PacketLayout.AcceptedIff | framework/morselib/include/mmpkt.h:167-200 | accepted if and only if the wrapped total fits |
| PacketLayout.FitsIff | framework/morselib/include/mmpkt.h:167-200 | "succeeds iff it fits" holds exactly when the total does not wrap, or wraps to something that does not fit either |
| PacketLayout.WrapAccepted | framework/morselib/include/mmpkt.h:180-200 | a request that wraps is accepted and the data start lies outside the data buffer |
| PacketLayout.WholeBufferServesIff | framework/morselib/include/mmpkt.h:182-212 | UINT32_MAX mode, all sizes: a serving packet results if and only if the headroom fits in the room left and both are on the same side of 2^31 |
| PacketLayout.WholeBufferIff | framework/morselib/include/mmpkt.h:182-200 | for all sizes, exactly when the signed comparison decides rightly |
| PacketLayout.WholeBufferUsable | framework/morselib/include/mmpkt.h:182-212 | for all sizes at which it does, success if and only if the headroom fits, and then a serving packet |
| PacketLayout.SmallDecided | framework/morselib/include/mmpkt.h:187-194 | it does for buffers, headroom, and header with metadata below 2^31: every underflow is rejected there |
| PacketLayout.WholeBufferLargest | framework/morselib/include/mmpkt.h:182-187 | the capacity is the largest multiple of 4 that fits |
| PacketLayout.WholeBufferUnderflow | framework/morselib/include/mmpkt.h:187-194 | an empty buffer passes the signed comparison exactly for metadata sizes from 2^31 - 27 to 2^32 - 28 |
| PacketLayout.WholeBufferHeadroom | framework/morselib/include/mmpkt.h:187-194 | headroom of 2^31 is accepted in a buffer of 256 |
| PacketLayout.InsideIff | framework/morselib/include/mmpkt.h:167-212 | both modes, all sizes: an accepted packet lies inside its block if and only if its parts do not pass 2^32, in terms of the request |
| PacketLayout.OverlapIff | framework/morselib/include/mmpkt.h:198-212 | packets in neighbouring blocks share an address exactly when one of them wraps, and then it covers all of memory |
| PacketLayout.RoundUp4Correct | framework/morselib/include/mmpkt.h:33-35 | the macro is rounding up to a multiple of 4, modulo 2^32 |
| PacketBuffer.OpRefines | framework/morselib/include/mmpkt.h:399-562 | every operation keeps the buffer size, does to the data what a byte deque does, and changes no byte outside the window it writes |
| PacketBuffer.OpsRefine | framework/morselib/include/mmpkt.h:361-562 | every sequence of operations refines the deque, keeps headroom + data + tailroom = buf_len, and changes no byte outside the union of the windows its operations write |
| PacketBuffer.StartUndo | framework/morselib/include/mmpkt.h:422-522 | prepend_data and remove_from_start undo each other, in both orders |
| PacketBuffer.EndUndo | framework/morselib/include/mmpkt.h:462-549 | append_data and remove_from_end undo each other, in both orders |
| PacketBuffer.AdjustUndo | framework/morselib/include/mmpkt.h:488-493 | within the buffer the start moves by exactly delta in spite of the wrapping, and back again |
| PacketBuffer.TruncateUndo | framework/morselib/include/mmpkt.h:558-562 | truncating is removing the rest from the end, and appending the cut bytes undoes it |
| PacketBuffer.Mmpkt.constructor | framework/morselib/include/mmpkt.h:137-148 | an empty packet with the given headroom, valid exactly when that fits the buffer |
| PacketBuffer.Mmpkt.SpaceAtEnd | framework/morselib/include/mmpkt.h:377-384 | the size of the tailroom |
| PacketBuffer.Mmpkt.PrependDataBytes | framework/morselib/include/mmpkt.h:399-426 | the whole buffer afterwards is the deque operation's |
| PacketBuffer.Mmpkt.AppendDataBytes | framework/morselib/include/mmpkt.h:441-466 | the same |
| PacketBuffer.Mmpkt.RemoveStart | framework/morselib/include/mmpkt.h:503-522 | the same, with the place of the removed bytes; refused, changing nothing, if and only if there is not enough data |
| PacketBuffer.Mmpkt.RemoveEnd | framework/morselib/include/mmpkt.h:532-549 | the same at the end |
| PacketBuffer.Mmpkt.TruncateTo | framework/morselib/include/mmpkt.h:558-562 | the same |
| PacketBuffer.Mmpkt.Adjust | framework/morselib/include/mmpkt.h:488-493 | the same, in wrapping arithmetic |
| PacketBuffer.Mmpkt.Perform | framework/morselib/include/mmpkt.h:399-562 | any sequence of calls on the packet does to its buffer what the sequence does to the view |
| PacketList.Walk | framework/morselib/include/mmpkt_list.h:191-194 | the walk ends and visits each packet once, in order, whatever the body does to the packets already reached |
| PacketList.List.DequeueAll | framework/morselib/include/mmpkt_list.h:121-128 | the whole chain comes out in order and the list is empty |
| Crc.Crc16Xmodem | framework/src/mmutils/mmcrc.c:44-53 | for every seed and message the table-driven loop ends with the register of bit-serial division |
| Crc.SerialIsRemainder | framework/src/mmutils/mmcrc.c:37-53 | that register is the remainder of long division by x^16+x^12+x^5+1 |
| Crc.Lookup | framework/src/mmutils/mmcrc.c:12-35 | each of the 256 entries is what the register makes of its index |
| CrcTable.Lookup | framework/src/mmutils/mmcrc.c:12-35 | the same for the entries as written |
| Crc.OctetStep | framework/src/mmutils/mmcrc.c:50-50 | eight bit steps are one table step |
| Crc.Chaining | framework/src/mmutils/mmcrc.c:44-53 | two calls in a row are one call on the concatenation |
| Crc.Residue | framework/src/mmutils/mmcrc.c:44-53 | a message followed by its CRC, high octet first, leaves zero, for every seed |
| Crc.Linearity | framework/src/mmutils/mmcrc.c:44-53 | the difference of two CRCs is the CRC of the difference |
| Crc.EmptiedBy | framework/src/mmutils/mmcrc.c:44-53 | a register that k more bits empty has nothing outside its top k bits |
| Crc.BurstDetected | framework/src/mmutils/mmcrc.c:12-53 | messages that differ, and only within 16 consecutive bits, have different CRCs, whatever comes before and after |
| Crc.ParityKept | framework/src/mmutils/mmcrc.c:12-53 | the register keeps the parity of what entered it |
| Crc.OddErrorsDetected | framework/src/mmutils/mmcrc.c:12-53 | messages that differ in an odd number of bits have different CRCs |
| CrcDistance.TwoErrorsUndetectedIff | framework/src/mmutils/mmcrc.c:12-53 | messages that differ in exactly two bits have the same CRC if and only if 32767 divides their distance |
| CrcDistance.DistanceFour | framework/src/mmutils/mmcrc.c:12-53 | messages of up to 32767 bits that differ in one, two or three bits have different CRCs |
| CrcDistance.GeneratorUndetected | framework/src/mmutils/mmcrc.c:12-53 | messages that differ in the pattern of the generator, wherever it is put, differ in four bits and have the same CRC for every seed, so the distance is exactly 4 |
| CrcDistance.GeneratorErrorOccurs | framework/src/mmutils/mmcrc.c:12-53 | every message of three octets or more has such a partner, for every place |
| CrcDistance.Period | framework/src/mmutils/mmcrc.c:12-53 | x^d is 1 modulo the generator if and only if 32767 divides d |
| CrcDistance.ShiftedIsMul | framework/src/mmutils/mmcrc.c:12-53 | feeding n zero bits multiplies the register by x^n |
| Prf.HmacPrfBits | framework/src/hostap/crypto_mbedtls_mm.c:441-506 | writes exactly ceil(L/8) octets, those of T1, T2, ... one after the other, the last one masked; nothing on a failed setup |
| Prf.PrfMessageForm | framework/src/hostap/crypto_mbedtls_mm.c:459-462 | every hashed message is a 16-bit counter, the label, the data and the 16-bit length L, both numbers low octet first |
| Prf.PrfMessageOnly | framework/src/hostap/crypto_mbedtls_mm.c:459-462 | and only that message is |
| Prf.PrfStreamOf | framework/src/hostap/crypto_mbedtls_mm.c:464-478 | octet k of block n of the stream is octet k of the HMAC of such a message with counter n + 1 |
| Prf.OctetsLeast | framework/src/hostap/crypto_mbedtls_mm.c:464-464 | the number of octets written is the least that holds L bits |
| Prf.PrfBits | framework/src/hostap/crypto_mbedtls_mm.c:496-503 | bit by bit: the first L bits are those of the stream and the rest of the last octet is zero |
| Prf.TopBitsBit | framework/src/hostap/crypto_mbedtls_mm.c:499-503 | the mask keeps the top bits and clears the others |
| Prf.OctetOfBits | framework/src/hostap/crypto_mbedtls_mm.c:499-503 | the bits are the binary digits of the octet, most significant first |
| Prf.PrfCountersDistinct | framework/src/hostap/crypto_mbedtls_mm.c:459-478 | for L up to 65535 no two blocks have the same message, so no counter value repeats |
| Prf.PrfCountersDistinctIff | framework/src/hostap/crypto_mbedtls_mm.c:459-478 | for every L: all blocks have different messages if and only if there are at most 65536 of them |
| Prf.Fill | framework/src/hostap/crypto_mbedtls_mm.c:571-591 | the block loop shared by both functions: the buffer is the start of the concatenated blocks, the first failing block ends it |
| Prf.ConcatAt | framework/src/hostap/crypto_mbedtls_mm.c:464-496 | octet j of the concatenation is octet j mod n of block j div n |
| Prf.Sha1Prf | framework/src/hostap/crypto_mbedtls_mm.c:556-592 | the truncated concatenation of HMAC-SHA1(K, label, 0, data, i); succeeds if and only if every needed HMAC call does; nothing beyond the length is touched |
| Prf.Sha1MessageInjective | framework/src/hostap/crypto_mbedtls_mm.c:566-569 | the NUL after the label keeps label and data apart: the message determines the label, the data and the counter octet |
| Prf.Sha1StreamOf | framework/src/hostap/crypto_mbedtls_mm.c:566-582 | octet j of the stream is in the HMAC of the label, a NUL, the data and the octet j div 20 mod 256 |
| Prf.Sha1PrefixAndPeriod | framework/src/hostap/crypto_mbedtls_mm.c:556-592 | shorter requests are prefixes of longer ones; the output repeats after 5120 octets |
| Prf.Sha1CountersDistinctIff | framework/src/hostap/crypto_mbedtls_mm.c:567-571 | all blocks have different messages if and only if the output is at most 5120 octets long |
| ConstTime.IsZeroMaskCorrect | framework/src/hostap/crypto_mbedtls_mm.c:91-102 | all ones for zero, zero for every other value |
| ConstTime.EqMaskCorrect | framework/src/hostap/crypto_mbedtls_mm.c:105-108 | all ones if and only if equal |
| ConstTime.SelectCorrect | framework/src/hostap/crypto_mbedtls_mm.c:123-128 | the chosen value under either mask |
| Bignum.ExptMod | framework/src/hostap/crypto_mbedtls_mm.c:844-876 | the modular power, however the objects are shared |
| Bignum.AddMod | framework/src/hostap/crypto_mbedtls_mm.c:912-921 | the modular sum, unless the result object is the modulus; then 0 if the sum is positive and an error otherwise |
| Bignum.MulMod | framework/src/hostap/crypto_mbedtls_mm.c:923-932 | the modular product, under the same condition |
| Bignum.ModulusOverwritten | framework/src/hostap/crypto_mbedtls_mm.c:912-932 | 3 + 5 and 3 * 5 into the modulus 7 give 0, not 1 |
| Bignum.IsZero | framework/src/hostap/crypto_mbedtls_mm.c:954-973 | 1 if and only if the low 32 bits of every limb are zero |
| Bignum.IsZeroExact | framework/src/hostap/crypto_mbedtls_mm.c:954-973 | with 32-bit limbs that is the number zero |
| Bignum.IsZeroMissesHighHalf | framework/src/hostap/crypto_mbedtls_mm.c:954-973 | with 64-bit limbs it is not |
| Bignum.IsOne | framework/src/hostap/crypto_mbedtls_mm.c:975-991 | 1 if and only if the first limb is 1 and the others are 0 |
| Bignum.ValueOne | framework/src/hostap/crypto_mbedtls_mm.c:975-991 | that is the number one, for any limb size |
| Bignum.ValueZero | framework/src/hostap/crypto_mbedtls_mm.c:954-973 | a number is zero if and only if all its limbs are |
| Bignum.SelectResult | framework/src/hostap/crypto_mbedtls_mm.c:1021-1027 | the two mask selections give 0, 1 or -1 |
| Bignum.Legendre | framework/src/hostap/crypto_mbedtls_mm.c:998-1036 | for every odd prime and every a the Legendre symbol by its definition (is a nonzero square), with the exact condition under which 64-bit limbs go wrong; -2 for unusable moduli |
| Bignum.LegendreMisses | framework/src/hostap/crypto_mbedtls_mm.c:954-1036 | with 64-bit limbs 7 gets the symbol 0 modulo the prime 77309411329, of which it is a nonsquare |
| Bignum.BlindPrime | framework/src/hostap/crypto_mbedtls_mm.c:998-1036 | that number is prime and 7 is a nonsquare |
| Primality.PrimeByPower | framework/src/hostap/crypto_mbedtls_mm.c:998-1036 | an odd number with b^(2^n) = -1 is prime if it is below the square of 2^(n+1) |
| Bignum.SymbolTimes | framework/src/hostap/crypto_mbedtls_mm.c:998-1036 | the symbol is multiplicative |
| NumberTheory.Euler | framework/src/hostap/crypto_mbedtls_mm.c:1012-1016 | Euler's criterion: a^((p-1)/2) is 0, 1 or p-1 modulo p as a is a multiple of p, a square or neither |
| Curve.YSqr | framework/src/hostap/crypto_mbedtls_mm.c:1698-1758 | y2 becomes (x^3 + ax + b) mod p written out, with a = -3 when A is unset |
| Curve.Horner | framework/src/hostap/crypto_mbedtls_mm.c:1743-1757 | reducing after every step of Horner's scheme changes nothing |
| Curve.DeriveY | framework/src/hostap/crypto_mbedtls_mm.c:1228-1257 | for p = 3 mod 4 prime and any parity argument: a point of the curve y^2 = x^3 + ax + b exactly when the curve has one with that x, with the asked-for parity, in [0, p) except for a zero right side not asked to be even; an error for every other p |
| Curve.RightSideIs | framework/src/hostap/crypto_mbedtls_mm.c:1743-1757 | the right side is the residue of x^3 + ax + b for every group and x |
| Curve.DerivedOnCurve | framework/src/hostap/crypto_mbedtls_mm.c:1228-1257 | a derived y satisfies the curve equation exactly when some y does |
| Curve.DeriveYExample | framework/src/hostap/crypto_mbedtls_mm.c:1228-1257 | on y^2 = x^3 - 3x + 5 modulo 23, with A unset, the right side at x = 1 is 3 and the even y is 16 |
| Curve.DeriveYOddZero | framework/src/hostap/crypto_mbedtls_mm.c:1228-1257 | on y^2 = x^3 + x modulo 7 the zero at x = 0, asked to be odd, comes out as 7 |
| Curve.DeriveYNoRoot | framework/src/hostap/crypto_mbedtls_mm.c:1228-1257 | on the same curve at x = 2, where the right side 3 is no square, a number comes out that squares to -3 |
| Curve.RootPower | framework/src/hostap/crypto_mbedtls_mm.c:1232-1251 | the (p+1)/4-th power squares to w or to -w, as w is a square or not |
| Curve.EvenRoot | framework/src/hostap/crypto_mbedtls_mm.c:1246-1252 | with parity 0 the result is the even root, and the only other root is p - y |
| Curve.PointInvert | framework/src/hostap/crypto_mbedtls_mm.c:1678-1695 | y becomes its negative modulo p, with the same square; coordinates outside the residues become p - |y|, or an error if that is negative; infinity is left alone; an error for Montgomery curves |
| Curve.PointInvertTwice | framework/src/hostap/crypto_mbedtls_mm.c:1689-1695 | two calls give the point back |
| FailureRing.Preserved.constructor | framework/mm_shims/mmosal_shim_freertos_esp32.c:33-55 | memory with a wrong magic number may hold anything |
| FailureRing.Preserved.Log | framework/mm_shims/mmosal_shim_freertos_esp32.c:56-70 | the record joins the unseen ones; the ring holds the last four ever logged |
| FailureRing.Preserved.Dump | framework/mm_shims/mmosal_shim_freertos_esp32.c:72-105 | visits the last min(unseen mod 2^32, 4) records, oldest first, and leaves none unseen |
| FailureRing.Preserved.Boot | framework/mm_shims/mmosal_shim_freertos_esp32.c:137-142 | the same at boot, and nothing from memory that is not valid |
| FailureRing.PlanCorrect | framework/mm_shims/mmosal_shim_freertos_esp32.c:74-84 | the wrapped counters give the right number and the slot of the oldest record to show |
| FailureRing.Replay | framework/mm_shims/mmosal_shim_freertos_esp32.c:56-142 | any run of logs and boots produces the dumps of the abstract history |
| FailureRing.DumpsKeepPromiseIff | framework/mm_shims/mmosal_shim_freertos_esp32.c:56-105 | in runs of any length all dumps show the last four unseen records if and only if at every boot fewer than 2^32 are unseen or their number does not wrap to less than four |
| FailureRing.WrappedDump | framework/mm_shims/mmosal_shim_freertos_esp32.c:72-105 | 2^32 failures before a boot break the promise |
| FailureRing.LogsCountable | framework/mm_shims/mmosal_shim_freertos_esp32.c:72-105 | how many failures before a boot do |
| FailureRing.ShowsLastFourIff | framework/mm_shims/mmosal_shim_freertos_esp32.c:74-84 | the same for one dump |
| Clock.TimesOrdered | framework/morselib/include/mmosal.h:665-730 | for instants less than 2^31 apart lt, le and max on truncated times match the true order |
| Clock.LtIff | framework/morselib/include/mmosal.h:665-668 | for instants less than 2^32 apart, the exact distances at which lt is right |
| Clock.HalfTurn | framework/morselib/include/mmosal.h:665-668 | at 2^31 apart lt holds both ways |
| StringCopy.SaferStrcpy | framework/morselib/include/mmosal.h:1039-1053 | leaves the source string or its first size - 1 characters; true if and only if it did not fit |
| StringCopy.Strlcpy | framework/src/hostap/os_mmosal.c:184-210 | the same string for sizes up to 2^31, the source length as result, nothing written for other sizes |
| StringCopy.CopyBoth | framework/src/hostap/os_mmosal.c:184-210 | both functions leave the same C string and report truncation alike |

## Left out

- The wait loop of mmhal_wlan_pktmem_deinit.
- Bodies of mmpkt_list_append, mmpkt_list_dequeue, mmpkt_alloc_on_heap and mmpkt_release: they follow their documented contracts, and heap allocation may fail at any time.
- Width of the atomic counters: they are integers, and stay within the pool size plus the rejected calls.
- The bytes that mmpkt_init_buf writes: the model gives the places and sizes of the parts. The header has 28 bytes, for 4-byte pointers.
- The MMPKT_DEBUG magic checks of mmpkt_open and mmpkt_close.
- HMAC is an arbitrary function to strings of one length; the digest and its context handling are not modelled.
- Prf.Fill: hmac_prf_bits and sha1_prf each have their own copy of this loop; it is modelled once, with the counter's first value and width as parameters, and in hmac_prf_bits no block fails.
- mbedTLS calls follow their documentation and fail only for lack of memory or for bad arguments; limb arrays are seen where the code looks at them.
- Bodies of MMPKT_LIST_WALK that unlink or free packets still to come, which the macro does not allow.
- Memory that has the right magic number by chance at power-up, and the record numbers printed by the failure dump.
- mmosal_time_has_passed is mmosal_time_le with the current time as the second argument.
- Timing and side channels of the constant-time functions.
- Wrappers over mbedTLS (AES, SHA, CMAC, key wrap, ECDH, random numbers) and crypto_bignum_inverse.
- FreeRTOS and ESP shims for tasks, queues, timers, GPIO and SPI; the SDIO command packers; mbin.h.
- The console, iperf and web configuration examples and the generated documentation.
