/**
  mmpkt_init_buf (framework/morselib/include/mmpkt.h): carving a packet header, a data
  buffer and metadata out of one block, in wrapping 32-bit arithmetic.
 */
module PacketLayout {

  import opened Words

  const UINT32_MAX: u32 := 0xffff_ffff

  /** sizeof(struct mmpkt) with 4-byte pointers, which is already a multiple of 4. */
  const HEADER: int := 28

  /** Where the parts of the packet are, as offsets into the block.  Addresses have 32 bits, so
      an offset of 2^32 - k is k bytes before the block. */
  datatype Layout = Layout(dataStart: nat, dataLen: nat, startOffset: nat, metaStart: nat, metaLen: nat)

  datatype Option<T> = None | Some(value: T)

  /** x | 3 */
  function OrThree(x: nat): nat { x - x % 4 + 3 }

  /** x & ~3 */
  function AndNotThree(x: nat): nat { x - x % 4 }

  /** MM_FAST_ROUND_UP(x, 4) on uint32_t. */
  function RoundUp4(x: u32): u32 {
    (OrThree((x + U32 - 1) % U32) + 1) % U32
  }

  /** mmpkt_init_buf */
  function InitBuf(bufLen: u32, spaceAtStart: u32, spaceAtEnd: u32, metadataSize: u32): Option<Layout>
  {
    var meta := RoundUp4(metadataSize);
    if spaceAtEnd != UINT32_MAX then
      var data := RoundUp4((spaceAtStart + spaceAtEnd) % U32);
      Place(bufLen, spaceAtStart, data, meta)
    else
      var data := AndNotThree((bufLen - HEADER - meta) % U32);
      if Signed(data) < Signed(spaceAtStart) then None else Place(bufLen, spaceAtStart, data, meta)
  }

  function Place(bufLen: u32, spaceAtStart: u32, data: nat, meta: nat): Option<Layout> {
    if (HEADER + data + meta) % U32 > bufLen then None
    else Some(Layout(HEADER, data, spaceAtStart, (HEADER + data) % U32, meta))
  }

  // ----- Unbounded arithmetic -----

  /** The next multiple of 4. */
  function Ceil4(x: nat): nat {
    if x % 4 == 0 then x else x - x % 4 + 4
  }

  /** What the request takes, without wrap-around. */
  function Needed(spaceAtStart: nat, spaceAtEnd: nat, metadataSize: nat): nat {
    HEADER + Ceil4(spaceAtStart + spaceAtEnd) + Ceil4(metadataSize)
  }

  /** Disjoint parts inside the block. */
  predicate Inside(l: Layout, bufLen: nat) {
    && HEADER <= l.dataStart
    && l.dataStart + l.dataLen <= l.metaStart
    && l.metaStart + l.metaLen <= bufLen
  }

  /** A usable packet: aligned, disjoint parts inside the block, and the data start inside
      the data buffer. */
  ghost predicate Usable(l: Layout, bufLen: nat) {
    && Inside(l, bufLen)
    && l.dataStart % 4 == 0 && l.dataLen % 4 == 0 && l.metaStart % 4 == 0
    && l.startOffset <= l.dataLen
  }

  /** A packet that gives the caller all that was asked for. */
  ghost predicate Serves(l: Layout, bufLen: nat, s: nat, data: nat, m: nat) {
    Usable(l, bufLen) && l.startOffset == s && l.dataLen >= data && l.metaLen >= m
  }

  lemma RoundUp4Correct(x: u32)
    ensures RoundUp4(x) == Ceil4(x) % U32
  {
    if x == 0 {
      assert RoundUp4(0) == 0;
    } else {
      var y := x - 1;
      WrapIs(x + U32 - 1, 1, y);
      if x % 4 == 0 {
        assert y % 4 == 3;
      } else {
        assert y % 4 == x % 4 - 1;
      }
      assert OrThree(y) + 1 == Ceil4(x);
    }
  }

  lemma Ceil4Bound(x: u32)
    ensures x <= Ceil4(x) <= U32 && Ceil4(x) % 4 == 0
  {}

  lemma Ceil4Least(x: nat, y: nat)
    requires x <= y && y % 4 == 0
    ensures Ceil4(x) <= y
  {}

  lemma RoundUp4Aligned(x: u32)
    ensures RoundUp4(x) % 4 == 0
  {
    RoundUp4Correct(x);
    Ceil4Bound(x);
    if Ceil4(x) == U32 { WrapIs(U32, 1, 0); } else { WrapIs(Ceil4(x), 0, Ceil4(x)); }
  }

  lemma RoundUp4Small(x: u32)
    requires Ceil4(x) < U32
    ensures RoundUp4(x) == Ceil4(x) && x <= Ceil4(x) && Ceil4(x) % 4 == 0
  {
    RoundUp4Correct(x);
    Ceil4Bound(x);
    WrapIs(Ceil4(x), 0, Ceil4(x));
  }

  /** Rounding commutes with wrapping. */
  lemma Ceil4Wraps(x: nat)
    requires x < 2 * U32
    ensures Ceil4(x % U32) % U32 == Ceil4(x) % U32
  {
    if x < U32 {
      WrapIs(x, 0, x);
    } else {
      var r := x - U32;
      WrapIs(x, 1, r);
      assert x % 4 == r % 4;
      assert Ceil4(x) == Ceil4(r) + U32;
    }
  }

  lemma WrapSum(x: int, y: int)
    ensures (HEADER + x % U32 + y % U32) % U32 == (HEADER + x + y) % U32
  {}

  // ----- Requests for a given size -----

  /** Accepted exactly when the wrapped total fits. */
  lemma AcceptedIff(bufLen: u32, s: u32, e: u32, m: u32)
    requires e != UINT32_MAX
    ensures InitBuf(bufLen, s, e, m).Some? <==> Needed(s, e, m) % U32 <= bufLen
  {
    RoundUp4Correct(m);
    RoundUp4Correct((s + e) % U32);
    Ceil4Wraps(s + e);
    WrapSum(Ceil4(s + e), Ceil4(m));
  }

  /** So "accepted iff it fits" holds exactly when the total does not wrap, or wraps to
      something that does not fit either. */
  lemma FitsIff(bufLen: u32, s: u32, e: u32, m: u32)
    requires e != UINT32_MAX
    ensures (InitBuf(bufLen, s, e, m).Some? <==> Needed(s, e, m) <= bufLen)
            <==> (Needed(s, e, m) < U32 || Needed(s, e, m) % U32 > bufLen)
  {
    AcceptedIff(bufLen, s, e, m);
    WrapOrNot(Needed(s, e, m), bufLen);
  }

  lemma WrapOrNot(n: nat, bufLen: u32)
    ensures (n % U32 <= bufLen <==> n <= bufLen) <==> (n < U32 || n % U32 > bufLen)
  {}

  lemma FittingLayout(bufLen: u32, s: u32, e: u32, m: u32)
    requires e != UINT32_MAX && Needed(s, e, m) <= bufLen
    ensures InitBuf(bufLen, s, e, m)
         == Some(Layout(HEADER, Ceil4(s + e), s, HEADER + Ceil4(s + e), Ceil4(m)))
  {
    Ceil4Bound(m);
    assert Ceil4(m) < U32 && Ceil4(s + e) < U32;
    RoundUp4Small(m);
    WrapIs(s + e, 0, s + e);
    RoundUp4Small(s + e);
    WrapIs(HEADER + Ceil4(s + e), 0, HEADER + Ceil4(s + e));
    WrapIs(Needed(s, e, m), 0, Needed(s, e, m));
  }

  lemma PartsUsable(bufLen: nat, data: nat, s: nat, meta: nat)
    requires data % 4 == 0 && HEADER + data + meta <= bufLen && s <= data
    ensures Usable(Layout(HEADER, data, s, HEADER + data, meta), bufLen)
  {}

  /** A request that fits gives a usable packet with the asked-for room on both sides of the
      data start. */
  lemma AcceptedUsable(bufLen: u32, s: u32, e: u32, m: u32)
    requires e != UINT32_MAX && Needed(s, e, m) <= bufLen
    ensures var r := InitBuf(bufLen, s, e, m);
            r.Some? && Serves(r.value, bufLen, s, s + e, m)
  {
    FittingLayout(bufLen, s, e, m);
    Ceil4Bound(m);
    Ceil4Bound(s + e);
    PartsUsable(bufLen, Ceil4(s + e), s, Ceil4(m));
  }

  /** The parts follow each other, and the metadata is aligned. */
  predicate InOrder(l: Layout) {
    l.dataStart == HEADER && l.metaStart == (HEADER + l.dataLen) % U32 && l.metaLen % 4 == 0
  }

  lemma PlaceInOrder(bufLen: u32, s: u32, data: nat, meta: nat)
    requires meta % 4 == 0
    ensures var r := Place(bufLen, s, data, meta); r.Some? ==> InOrder(r.value)
  {}

  lemma InitBufInOrder(bufLen: u32, s: u32, e: u32, m: u32)
    requires InitBuf(bufLen, s, e, m).Some?
    ensures InOrder(InitBuf(bufLen, s, e, m).value)
  {
    var meta := RoundUp4(m);
    RoundUp4Aligned(m);
    if e != UINT32_MAX {
      PlaceInOrder(bufLen, s, RoundUp4((s + e) % U32), meta);
    } else {
      PlaceInOrder(bufLen, s, AndNotThree((bufLen - HEADER - meta) % U32), meta);
    }
  }

  /** Parts that follow each other and lie inside the block do not wrap. */
  lemma InsideTotal(l: Layout, bufLen: u32)
    requires InOrder(l)
    ensures Inside(l, bufLen) <==> HEADER + l.dataLen + l.metaLen <= bufLen
  {
    if HEADER + l.dataLen < U32 { WrapIs(HEADER + l.dataLen, 0, HEADER + l.dataLen); }
  }

  lemma ServesTakes(l: Layout, bufLen: u32, s: nat, data: nat, m: nat)
    requires InOrder(l) && Serves(l, bufLen, s, data, m)
    ensures HEADER + Ceil4(data) + Ceil4(m) <= HEADER + l.dataLen + Ceil4(m) <= bufLen
  {
    InsideTotal(l, bufLen);
    Ceil4Least(data, l.dataLen);
    Ceil4Least(m, l.metaLen);
  }

  /** For all sizes: the packet serves the request exactly when the request fits, counted
      without wrap-around. */
  lemma ServesIff(bufLen: u32, s: u32, e: u32, m: u32)
    requires e != UINT32_MAX
    ensures var r := InitBuf(bufLen, s, e, m);
            r.Some? && Serves(r.value, bufLen, s, s + e, m) <==> Needed(s, e, m) <= bufLen
  {
    var r := InitBuf(bufLen, s, e, m);
    if Needed(s, e, m) <= bufLen {
      AcceptedUsable(bufLen, s, e, m);
    }
    if r.Some? && Serves(r.value, bufLen, s, s + e, m) {
      InitBufInOrder(bufLen, s, e, m);
      ServesTakes(r.value, bufLen, s, s + e, m);
    }
  }

  /** A request that wraps: 2^32 - 4 bytes of headroom are accepted in a 256-byte block, and
      the data start lies outside the data buffer. */
  lemma WrapAccepted()
    ensures var r := InitBuf(256, 0xffff_fffc, 4, 0); r.Some? && !Usable(r.value, 256)
  {
    assert InitBuf(256, 0xffff_fffc, 4, 0) == Some(Layout(28, 0, 0xffff_fffc, 28, 0));
  }

  // ----- The whole-buffer mode, spaceAtEnd == UINT32_MAX -----

  function Floor4(x: int): int { x - x % 4 }

  /** The aligned room that header and metadata leave, without wrap-around; may be negative. */
  function Room(bufLen: u32, m: u32): int {
    Floor4(bufLen - HEADER - Ceil4(m))
  }

  lemma ModFour(k: int, r: int)
    ensures (4 * k + r) % 4 == r % 4
  {}

  lemma Floor4Wraps(x: int)
    ensures AndNotThree(x % U32) == Floor4(x) % U32
  {
    var q, r := x / U32, x % U32;
    ModFour(0x4000_0000 * q, r);
    WrapIs(Floor4(x), q, r - r % 4);
  }

  /** The data length computed in whole-buffer mode is the room, wrapped. */
  lemma WholeBufferData(bufLen: u32, m: u32)
    ensures AndNotThree((bufLen - HEADER - RoundUp4(m)) % U32) == Room(bufLen, m) % U32
  {
    RoundUp4Correct(m);
    Ceil4Bound(m);
    Floor4Wraps(bufLen - HEADER - RoundUp4(m));
    WrappedRoom(bufLen, Ceil4(m));
  }

  lemma WrappedRoom(bufLen: u32, c: nat)
    requires c <= U32
    ensures Floor4(bufLen - HEADER - c % U32) % U32 == Floor4(bufLen - HEADER - c) % U32
  {
    if c == U32 {
      WrapIs(c, 1, 0);
      assert Floor4(bufLen - HEADER) == Floor4(bufLen - HEADER - U32) + U32;
    } else {
      WrapIs(c, 0, c);
    }
  }

  lemma RoomIs(bufLen: u32, m: u32)
    ensures HEADER + Room(bufLen, m) + Ceil4(m) == bufLen - bufLen % 4
    ensures Room(bufLen, m) % 4 == 0 && m <= Ceil4(m)
    ensures -U32 - HEADER <= Room(bufLen, m) < U32
  {
    Ceil4Bound(m);
    assert (bufLen - HEADER - Ceil4(m)) % 4 == bufLen % 4;
  }

  /** The total computed in whole-buffer mode never exceeds the buffer. */
  lemma WholeBufferTotal(bufLen: u32, m: u32)
    ensures (HEADER + Room(bufLen, m) % U32 + RoundUp4(m)) % U32 <= bufLen
  {
    RoundUp4Correct(m);
    RoomIs(bufLen, m);
    WrapSum(Room(bufLen, m), Ceil4(m));
    WrapIs(bufLen - bufLen % 4, 0, bufLen - bufLen % 4);
  }

  /** In whole-buffer mode the signed comparison is the only guard. */
  lemma WholeBufferGuard(bufLen: u32, s: u32, m: u32)
    ensures InitBuf(bufLen, s, UINT32_MAX, m).Some? <==> Signed(Room(bufLen, m) % U32) >= Signed(s)
    ensures InitBuf(bufLen, s, UINT32_MAX, m).Some? ==>
              var l := InitBuf(bufLen, s, UINT32_MAX, m).value;
              l.dataLen == Room(bufLen, m) % U32 && l.startOffset == s
  {
    WholeBufferData(bufLen, m);
    WholeBufferTotal(bufLen, m);
  }

  /** When the signed comparison of the wrapped room with the headroom decides rightly. */
  predicate DecidedRightly(room: int, s: nat) {
    if room >= 0 then s < I32 <==> room < I32
    else if room >= -I32 then s < I32 || room + U32 < s
    else if room >= -U32 then s < I32 && room + U32 < s
    else s < I32 || room + 2 * U32 < s
  }

  lemma SignedDecides(room: int, s: u32)
    requires -2 * U32 + I32 <= room < U32
    ensures (Signed(room % U32) >= Signed(s) <==> s <= room) <==> DecidedRightly(room, s)
  {
    if room >= 0 {
      WrapIs(room, 0, room);
    } else if room >= -U32 {
      WrapIs(room, -1, room + U32);
    } else {
      WrapIs(room, -2, room + 2 * U32);
    }
  }

  /** For all sizes: whole-buffer mode succeeds iff the headroom fits, exactly in these cases. */
  lemma WholeBufferIff(bufLen: u32, s: u32, m: u32)
    ensures (InitBuf(bufLen, s, UINT32_MAX, m).Some? <==> s <= Room(bufLen, m))
            <==> DecidedRightly(Room(bufLen, m), s)
  {
    WholeBufferGuard(bufLen, s, m);
    RoomIs(bufLen, m);
    SignedDecides(Room(bufLen, m), s);
  }

  lemma WholeBufferLayout(bufLen: u32, s: u32, m: u32)
    requires s <= Room(bufLen, m) && (s < I32 <==> Room(bufLen, m) < I32)
    ensures var room := Room(bufLen, m);
            InitBuf(bufLen, s, UINT32_MAX, m) == Some(Layout(HEADER, room, s, HEADER + room, Ceil4(m)))
  {
    var room := Room(bufLen, m);
    WholeBufferIff(bufLen, s, m);
    WholeBufferData(bufLen, m);
    RoomIs(bufLen, m);
    RoundUp4Small(m);
    WrapIs(room, 0, room);
    WrapIs(HEADER + room, 0, HEADER + room);
  }

  lemma WholeBufferServes(bufLen: u32, s: u32, m: u32, r: Option<Layout>)
    requires s <= Room(bufLen, m) && (s < I32 <==> Room(bufLen, m) < I32)
    requires r == InitBuf(bufLen, s, UINT32_MAX, m)
    ensures r.Some? && Serves(r.value, bufLen, s, s, m)
  {
    RoomIs(bufLen, m);
    WholeBufferLayout(bufLen, s, m);
    PartsUsable(bufLen, Room(bufLen, m), s, Ceil4(m));
  }

  lemma Floor4Most(x: int, y: int)
    requires y <= x && y % 4 == 0
    ensures y <= Floor4(x)
  {}

  /** For all sizes: the packet serves the request exactly when the headroom fits in what header
      and metadata leave, counted without wrap-around, and both are on the same side of 2^31. */
  lemma WholeBufferServesIff(bufLen: u32, s: u32, m: u32)
    ensures var r := InitBuf(bufLen, s, UINT32_MAX, m);
            r.Some? && Serves(r.value, bufLen, s, s, m)
            <==> s <= Room(bufLen, m) && (s < I32 <==> Room(bufLen, m) < I32)
  {
    var r := InitBuf(bufLen, s, UINT32_MAX, m);
    WholeBufferIff(bufLen, s, m);
    if s <= Room(bufLen, m) && (s < I32 <==> Room(bufLen, m) < I32) {
      WholeBufferServes(bufLen, s, m, r);
    }
    if r.Some? && Serves(r.value, bufLen, s, s, m) {
      InitBufInOrder(bufLen, s, UINT32_MAX, m);
      ServesTakes(r.value, bufLen, s, s, m);
      Floor4Most(bufLen - HEADER - Ceil4(m), r.value.dataLen);
    }
  }

  /** Where the comparison decides rightly, whole-buffer mode succeeds iff the headroom fits, and
      then gives a serving packet.  Below 2^31 it always does, but for metadata beyond that. */
  lemma WholeBufferUsable(bufLen: u32, s: u32, m: u32)
    requires DecidedRightly(Room(bufLen, m), s)
    ensures var r := InitBuf(bufLen, s, UINT32_MAX, m);
            && (r.Some? <==> s <= Room(bufLen, m))
            && (r.Some? ==> Serves(r.value, bufLen, s, s, m))
  {
    WholeBufferIff(bufLen, s, m);
    if s <= Room(bufLen, m) {
      WholeBufferServes(bufLen, s, m, InitBuf(bufLen, s, UINT32_MAX, m));
    }
  }

  lemma SmallDecided(bufLen: u32, s: u32, m: u32)
    requires bufLen < I32 && s < I32 && HEADER + Ceil4(m) <= I32
    ensures DecidedRightly(Room(bufLen, m), s)
  {
    RoomIs(bufLen, m);
  }

  /** The capacity is the largest multiple of 4 that header and metadata leave. */
  lemma WholeBufferLargest(bufLen: u32, s: u32, m: u32, d: int)
    requires s <= Room(bufLen, m) && (s < I32 <==> Room(bufLen, m) < I32)
    requires d % 4 == 0 && HEADER + d + Ceil4(m) <= bufLen
    ensures InitBuf(bufLen, s, UINT32_MAX, m).Some?
    ensures d <= InitBuf(bufLen, s, UINT32_MAX, m).value.dataLen
  {
    WholeBufferLayout(bufLen, s, m);
    Floor4Most(bufLen - HEADER - Ceil4(m), d);
  }

  lemma UnderflowDecides(c: nat)
    requires c <= U32
    ensures Signed((-HEADER - c) % U32) >= 0 <==> I32 - HEADER < c <= U32 - HEADER
  {
    var room := -HEADER - c;
    if room >= -U32 { WrapIs(room, -1, room + U32); } else { WrapIs(room, -2, room + 2 * U32); }
  }

  lemma EmptyRoom(m: u32)
    ensures Signed(Room(0, m) % U32) >= 0 <==> I32 - HEADER < m <= U32 - HEADER
  {
    Ceil4Bound(m);
    UnderflowDecides(Ceil4(m));
    assert Room(0, m) == -HEADER - Ceil4(m);
  }

  /** The signed guard can be passed by underflow: an empty buffer is accepted, without headroom,
      exactly for metadata sizes from 2^31 - 27 to 2^32 - 28. */
  lemma WholeBufferUnderflow(bufLen: u32, s: u32, m: u32)
    requires bufLen == 0 && s == 0
    ensures InitBuf(bufLen, s, UINT32_MAX, m).Some? <==> I32 - HEADER < m <= U32 - HEADER
  {
    WholeBufferGuard(bufLen, s, m);
    EmptyRoom(m);
  }

  /** Or by headroom that it takes for negative: 2^31 bytes in a buffer of 256. */
  lemma WholeBufferHeadroom()
    ensures var r := InitBuf(256, 0x8000_0000, UINT32_MAX, 0); r.Some? && !Usable(r.value, 256)
  {
    WholeBufferGuard(256, 0x8000_0000, 0);
    assert Room(256, 0) == 228;
    WrapIs(228, 0, 228);
  }

  // ----- Memory -----

  /** The parts of the packet follow each other without passing 2^32. */
  predicate NoWrap(bufLen: u32, s: u32, e: u32, m: u32) {
    if e != UINT32_MAX then HEADER + RoundUp4((s + e) % U32) + RoundUp4(m) < U32
    else HEADER + RoundUp4(m) <= bufLen
  }

  lemma WholeBufferWraps(bufLen: u32, s: u32, m: u32)
    requires InitBuf(bufLen, s, UINT32_MAX, m).Some?
    ensures var l := InitBuf(bufLen, s, UINT32_MAX, m).value;
            if HEADER + RoundUp4(m) <= bufLen then HEADER + l.dataLen + l.metaLen <= bufLen
            else HEADER + l.dataLen + l.metaLen >= U32
  {
    RoundUp4Aligned(m);
    WrapsTo(bufLen, RoundUp4(m));
  }

  lemma WrapsTo(bufLen: u32, meta: u32)
    requires meta % 4 == 0
    ensures var data := AndNotThree((bufLen - HEADER - meta) % U32);
            if HEADER + meta <= bufLen then HEADER + data + meta <= bufLen else HEADER + data + meta >= U32
  {
    var x := bufLen - HEADER - meta;
    Floor4Wraps(x);
    if x >= 0 {
      WrapIs(Floor4(x), 0, Floor4(x));
    } else if x >= -U32 {
      WrapIs(Floor4(x), -1, Floor4(x) + U32);
    } else {
      WrapIs(Floor4(x), -2, Floor4(x) + 2 * U32);
    }
  }

  /** An accepted packet takes all of memory, or no more than its block. */
  lemma TotalIff(bufLen: u32, s: u32, e: u32, m: u32)
    requires InitBuf(bufLen, s, e, m).Some?
    ensures var l := InitBuf(bufLen, s, e, m).value;
            if NoWrap(bufLen, s, e, m) then HEADER + l.dataLen + l.metaLen <= bufLen
            else HEADER + l.dataLen + l.metaLen >= U32
  {
    if e == UINT32_MAX {
      WholeBufferWraps(bufLen, s, m);
    } else if NoWrap(bufLen, s, e, m) {
      var total := HEADER + RoundUp4((s + e) % U32) + RoundUp4(m);
      WrapIs(total, 0, total);
    }
  }

  /** For all sizes and both modes: an accepted packet lies inside its block exactly when its
      parts do not wrap. */
  lemma InsideIff(bufLen: u32, s: u32, e: u32, m: u32)
    requires InitBuf(bufLen, s, e, m).Some?
    ensures Inside(InitBuf(bufLen, s, e, m).value, bufLen) <==> NoWrap(bufLen, s, e, m)
  {
    InitBufInOrder(bufLen, s, e, m);
    InsideTotal(InitBuf(bufLen, s, e, m).value, bufLen);
    TotalIff(bufLen, s, e, m);
  }

  /** Address x is among the `len` addresses from `from` on, modulo 2^32. */
  predicate In(from: int, len: nat, x: int) {
    (x - from) % U32 < len
  }

  /** Address x belongs to the packet in the block at `start`. */
  predicate Occupies(start: int, l: Layout, x: int) {
    In(start, HEADER, x) || In(start + l.dataStart, l.dataLen, x) || In(start + l.metaStart, l.metaLen, x)
  }

  lemma InRange(from: int, len: nat, x: u32)
    requires 0 <= from && from + len <= U32
    ensures In(from, len, x) <==> from <= x < from + len
  {
    if x >= from { WrapIs(x - from, 0, x - from); } else { WrapIs(x - from, -1, x - from + U32); }
  }

  lemma InsideOccupies(start: int, l: Layout, size: nat, x: u32)
    requires Inside(l, size) && 0 <= start && start + size <= U32 && Occupies(start, l, x)
    ensures start <= x < start + size
  {
    InRange(start, HEADER, x);
    InRange(start + l.dataStart, l.dataLen, x);
    InRange(start + l.metaStart, l.metaLen, x);
  }

  lemma Shifted(x: int, start: int, k: int)
    requires 0 <= k <= (x - start) % U32
    ensures (x - (start + k)) % U32 == (x - start) % U32 - k
  {
    var q, o := (x - start) / U32, (x - start) % U32;
    WrapIs(x - (start + k), q, o - k);
  }

  /** A packet whose parts wrap covers every address. */
  lemma CoversAll(start: int, l: Layout, x: int)
    requires InOrder(l) && HEADER + l.dataLen + l.metaLen >= U32
    ensures Occupies(start, l, x)
  {
    var o := (x - start) % U32;
    if HEADER <= o < HEADER + l.dataLen {
      Shifted(x, start, HEADER);
    } else if HEADER + l.dataLen <= o {
      WrapIs(HEADER + l.dataLen, 0, HEADER + l.dataLen);
      Shifted(x, start, HEADER + l.dataLen);
    }
  }

  function Total(l: Layout): nat {
    HEADER + l.dataLen + l.metaLen
  }

  /** Two packets in separate blocks, each taking all of memory or no more than its block, share an
      address exactly when one takes all. */
  lemma OverlapIff(from: nat, size: u32, l: Layout, to: nat, room: u32, m: Layout)
    requires InOrder(l) && (Total(l) <= size || Total(l) >= U32)
    requires InOrder(m) && (Total(m) <= room || Total(m) >= U32)
    requires (from + size <= to || to + room <= from) && from + size <= U32 && to + room <= U32
    requires from < U32 && to < U32
    ensures (exists x: u32 :: Occupies(from, l, x) && Occupies(to, m, x)) <==> Total(l) >= U32 || Total(m) >= U32
  {
    if Total(l) >= U32 {
      CoversAll(from, l, to);
      HeaderOccupied(to, m);
    } else if Total(m) >= U32 {
      CoversAll(to, m, from);
      HeaderOccupied(from, l);
    } else {
      InsideTotal(l, size);
      InsideTotal(m, room);
      forall x: u32 | Occupies(from, l, x)
        ensures !Occupies(to, m, x)
      {
        InsideOccupies(from, l, size, x);
        if Occupies(to, m, x) { InsideOccupies(to, m, room, x); }
      }
    }
  }

  lemma HeaderOccupied(start: nat, l: Layout)
    ensures Occupies(start, l, start)
  {
    assert (start - start) % U32 == 0;
  }
}
