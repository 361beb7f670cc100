/**
  Command packets in memory: two outstanding command packets, of one pool or of both, are disjoint
  exactly when the parts of neither wrap.  Both cases occur: requests that wrap are accepted.
 */
module PktMemOverlap {

  import opened Words
  import opened PktMem
  import opened PktMemSafety
  import opened PktMemRuns
  import opened PktMemCalls
  import opened PktMemHistory
  import L = PacketLayout

  /** The addresses of tx_command_pool and rx_command_pool. */
  datatype Bases = Bases(tx: nat, rx: nat)

  /** The pools are two separate arrays in memory. */
  predicate Placed(bases: Bases) {
    var txEnd := bases.tx + TX_COMMAND_BLOCK_SIZE * COMMAND_BLOCKS;
    var rxEnd := bases.rx + RX_COMMAND_BLOCK_SIZE * COMMAND_BLOCKS;
    txEnd <= U32 && rxEnd <= U32 && (txEnd <= bases.rx || rxEnd <= bases.tx)
  }

  predicate IsCommand(st: Stage) {
    st.HoldTxBlock? || st.HoldRxBlock?
  }

  function Size(st: Stage): u32 {
    if st.HoldTxBlock? then TX_COMMAND_BLOCK_SIZE else RX_COMMAND_BLOCK_SIZE
  }

  /** Where the block that a command packet is in starts. */
  function Start(bases: Bases, st: Stage): int
    requires IsCommand(st)
  {
    (if st.HoldTxBlock? then bases.tx else bases.rx) + Size(st) * st.block
  }

  /** The packet as mmpkt_init_buf laid it out. */
  function Packet(st: Stage): L.Option<L.Layout>
    requires IsCommand(st)
  {
    LayOut(Size(st), st.req)
  }

  /** The parts of the packet do not pass 2^32. */
  predicate NoWrap(st: Stage)
    requires IsCommand(st)
  {
    L.NoWrap(Size(st), st.req.spaceAtStart, st.req.spaceAtEnd, st.req.metadata)
  }

  /** The two packets share an address. */
  ghost predicate Overlap(from: int, l: L.Layout, to: int, m: L.Layout) {
    exists x: u32 :: L.Occupies(from, l, x) && L.Occupies(to, m, x)
  }

  lemma Extent(st: Stage, l: L.Layout, noWrap: bool)
    requires IsCommand(st) && Packet(st) == L.Some(l) && noWrap == NoWrap(st)
    ensures L.InOrder(l) && (if noWrap then L.Total(l) <= Size(st) else L.Total(l) >= U32)
  {
    L.InitBufInOrder(Size(st), st.req.spaceAtStart, st.req.spaceAtEnd, st.req.metadata);
    L.TotalIff(Size(st), st.req.spaceAtStart, st.req.spaceAtEnd, st.req.metadata);
  }

  lemma BlockInside(bases: Bases, st: Stage)
    requires Placed(bases) && IsCommand(st) && st.block < COMMAND_BLOCKS
    ensures 0 <= Start(bases, st) < U32 && Start(bases, st) + Size(st) <= U32
  {
    assert st.block == 0 || st.block == 1;
  }

  lemma BlocksSeparate(bases: Bases, x: Stage, y: Stage)
    requires Placed(bases) && IsCommand(x) && IsCommand(y) && x.block < COMMAND_BLOCKS && y.block < COMMAND_BLOCKS
    requires x.HoldTxBlock? == y.HoldTxBlock? ==> x.block != y.block
    ensures Start(bases, x) + Size(x) <= Start(bases, y) || Start(bases, y) + Size(y) <= Start(bases, x)
  {
    assert (x.block == 0 || x.block == 1) && (y.block == 0 || y.block == 1);
  }

  lemma ApartIff(bases: Bases, x: Stage, y: Stage, l: L.Layout, m: L.Layout, p: bool, q: bool)
    requires Placed(bases) && IsCommand(x) && IsCommand(y) && x.block < COMMAND_BLOCKS && y.block < COMMAND_BLOCKS
    requires x.HoldTxBlock? == y.HoldTxBlock? ==> x.block != y.block
    requires L.InOrder(l) && (if p then L.Total(l) <= Size(x) else L.Total(l) >= U32)
    requires L.InOrder(m) && (if q then L.Total(m) <= Size(y) else L.Total(m) >= U32)
    ensures Overlap(Start(bases, x), l, Start(bases, y), m) <==> !(p && q)
  {
    BlockInside(bases, x);
    BlockInside(bases, y);
    BlocksSeparate(bases, x, y);
    L.OverlapIff(Start(bases, x), Size(x), l, Start(bases, y), Size(y), m);
  }

  /** Every command packet was accepted, and its block is its own. */
  lemma CommandOwner(cfg: Config, call: Stage -> bool, limit: nat, s: State, n: nat, t: nat)
    requires Run(cfg, call, limit, Init(), s, n) && t in s.acts && IsCommand(s.acts[t])
    ensures Packet(s.acts[t]).Some? && s.acts[t].block < COMMAND_BLOCKS
    ensures forall u :: u in s.acts && u != t && IsCommand(s.acts[u]) ==>
                          (s.acts[u].HoldTxBlock? == s.acts[t].HoldTxBlock? ==> s.acts[u].block != s.acts[t].block)
  {
    Safety(cfg, call, limit, s, n);
    assert LaidOut(s.acts[t]);
    if s.acts[t].HoldTxBlock? {
      BlockOwner(cfg, call, limit, s, n, t, s.acts[t].block);
    } else {
      RxBlockOwner(cfg, call, limit, s, n, t, s.acts[t].block);
    }
  }

  /** In every reachable state two outstanding command packets, wherever the pools are placed, share
      memory if and only if the parts of one of them wrap. */
  lemma CommandPacketsApartIff(cfg: Config, call: Stage -> bool, limit: nat, s: State, n: nat, bases: Bases, t: nat,
                               u: nat)
    requires Run(cfg, call, limit, Init(), s, n) && Placed(bases)
    requires t in s.acts && u in s.acts && t != u && IsCommand(s.acts[t]) && IsCommand(s.acts[u])
    ensures var x, y := s.acts[t], s.acts[u];
            && Packet(x).Some? && Packet(y).Some?
            && (Overlap(Start(bases, x), Packet(x).value, Start(bases, y), Packet(y).value)
                <==> !(NoWrap(x) && NoWrap(y)))
  {
    var x, y := s.acts[t], s.acts[u];
    CommandOwner(cfg, call, limit, s, n, t);
    CommandOwner(cfg, call, limit, s, n, u);
    Extent(x, Packet(x).value, NoWrap(x));
    Extent(y, Packet(y).value, NoWrap(y));
    ApartIff(bases, x, y, Packet(x).value, Packet(y).value, NoWrap(x), NoWrap(y));
  }

  // ----- Runs in which packets overlap -----

  /** 2^32 - 256 bytes of data and 256 of metadata: a total that wraps to the header alone. */
  const WRAPPING: Request := Request(0, 0xffff_ff00, 0x100)

  lemma WrappingLayout(size: u32)
    requires size >= 28
    ensures LayOut(size, WRAPPING) == L.Some(L.Layout(28, 0xffff_ff00, 0, 0xffff_ff1c, 0x100))
  {
    L.RoundUp4Small(0xffff_ff00);
    L.RoundUp4Small(0x100);
    WrapIs(0xffff_ff00, 0, 0xffff_ff00);
    WrapIs(0xffff_ff1c, 0, 0xffff_ff1c);
    WrapIs(0x1_0000_001c, 1, 28);
  }

  lemma PlainLayout(size: u32, data: u32)
    requires 28 + data <= size && data % 4 == 0
    ensures LayOut(size, Request(0, data, 0)) == L.Some(L.Layout(28, data, 0, 28 + data, 0))
  {
    L.FittingLayout(size, 0, data, 0);
  }

  /** What two command calls in a row leave when both requests are accepted. */
  lemma TwoTxCalls(cfg: Config, s0: State, s1: State, s2: State, p: Request, q: Request)
    requires s0 == Init() && Fits(TxBlock(0, p)) && Fits(TxBlock(0, q))
    requires s1 == State(s0.shared.(txFree := [1]), map[0 := HoldTxBlock(0, p)])
    requires s2 == State(s0.shared.(txFree := []), map[0 := HoldTxBlock(0, p), 1 := HoldTxBlock(1, q)])
    ensures Idle(s0) && Idle(s1)
    ensures var c := Alloc(0, TxEntry(true, p), L.None); Callable(s0, c) && DoCall(cfg, s0, c) == s1
    ensures var c := Alloc(1, TxEntry(true, q), L.None); Callable(s1, c) && DoCall(cfg, s1, c) == s2
  {
    assert [0, 1][1..] == [1] && [1][1..] == [];
    TxCallIsAlone(cfg, s0.shared, true, p, L.None);
    TxCallIsAlone(cfg, s1.shared, true, q, L.None);
  }

  lemma TwoRxCalls(cfg: Config, s0: State, s1: State, s2: State, p: Request, q: Request)
    requires s0 == Init() && Fits(RxBlock(0, p)) && Fits(RxBlock(0, q))
    requires s1 == State(s0.shared.(rxFree := [1]), map[0 := HoldRxBlock(0, p)])
    requires s2 == State(s0.shared.(rxFree := []), map[0 := HoldRxBlock(0, p), 1 := HoldRxBlock(1, q)])
    ensures Idle(s0) && Idle(s1)
    ensures var c := Alloc(0, RxEntry(true, p), L.None); Callable(s0, c) && DoCall(cfg, s0, c) == s1
    ensures var c := Alloc(1, RxEntry(true, q), L.None); Callable(s1, c) && DoCall(cfg, s1, c) == s2
  {
    assert [0, 1][1..] == [1] && [1][1..] == [];
    RxCallIsAlone(cfg, s0.shared, true, p, L.None);
    RxCallIsAlone(cfg, s1.shared, true, q, L.None);
  }

  lemma TwoCallsRun(cfg: Config, call: Stage -> bool, limit: nat, s0: State, s1: State, s2: State, c: Call, d: Call)
    requires limit >= 1 && OnlyCalls(call) && Idle(s0) && Idle(s1)
    requires Callable(s0, c) && DoCall(cfg, s0, c) == s1 && Callable(s1, d) && DoCall(cfg, s1, d) == s2
    ensures Reaches(cfg, call, limit, s0, s2)
  {
    var reach := (x: State, y: State) => Reaches(cfg, call, limit, x, y);
    ReachesClosed(cfg, call, limit, reach);
    IdleCount(s0, call);
    IdleCount(s1, call);
    CallIsRun(cfg, call, limit, reach, s0, c);
    CallIsRun(cfg, call, limit, reach, s1, d);
    Via(cfg, call, limit, reach, s0, s1, s2);
  }

  /** Address x is in the data, or in the metadata, of the packet in the block at `start`. */
  predicate InData(start: int, l: L.Layout, x: int) { L.In(start + l.dataStart, l.dataLen, x) }
  predicate InMetadata(start: int, l: L.Layout, x: int) { L.In(start + l.metaStart, l.metaLen, x) }

  /** The second packet's metadata starts `back` bytes before its block, over the first one's data. */
  lemma Covered(base: int, size: int, l: L.Layout, m: L.Layout, back: int, x: int)
    requires m.metaStart == U32 - back && l.dataStart <= x < l.dataStart + l.dataLen
    requires size - back <= x < size - back + m.metaLen && l.dataLen <= size < U32 && m.metaLen < U32
    ensures InData(base, l, base + x) && InMetadata(base + size, m, base + x)
  {
    WrapIs(base + x - (base + l.dataStart), 0, x - l.dataStart);
    WrapIs(base + x - (base + size + m.metaStart), -1, x - (size - back));
  }

  /** The data of the packet in block 0 from `lo` to `hi` is metadata of the one in block 1. */
  ghost predicate Clobbered(base: int, size: int, l: L.Layout, m: L.Layout, lo: int, hi: int) {
    forall x :: base + lo <= x < base + hi ==>
                  InData(base, l, x) && InMetadata(base + size, m, x)
  }

  lemma IsClobbered(base: int, size: int, l: L.Layout, m: L.Layout, back: int, lo: int, hi: int)
    requires m.metaStart == U32 - back && l.dataStart <= lo && hi <= l.dataStart + l.dataLen
    requires size - back <= lo && hi <= size - back + m.metaLen && l.dataLen <= size < U32 && m.metaLen < U32
    ensures Clobbered(base, size, l, m, lo, hi)
  {
    forall x | base + lo <= x < base + hi
      ensures InData(base, l, x) && InMetadata(base + size, m, x)
    {
      Covered(base, size, l, m, back, x - base);
    }
  }

  /** The states that two calls lead to. */
  lemma TxRun(cfg: Config, call: Stage -> bool, limit: nat, p: Request, q: Request, s: State) returns (n: nat)
    requires limit >= 1 && OnlyCalls(call) && Fits(TxBlock(0, p)) && Fits(TxBlock(0, q))
    requires s == State(Init().shared.(txFree := []), map[0 := HoldTxBlock(0, p), 1 := HoldTxBlock(1, q)])
    ensures Run(cfg, call, limit, Init(), s, n)
  {
    var s0 := Init();
    var s1 := State(s0.shared.(txFree := [1]), map[0 := HoldTxBlock(0, p)]);
    TwoTxCalls(cfg, s0, s1, s, p, q);
    TwoCallsRun(cfg, call, limit, s0, s1, s, Alloc(0, TxEntry(true, p), L.None), Alloc(1, TxEntry(true, q), L.None));
    n :| Run(cfg, call, limit, Init(), s, n);
  }

  lemma RxRun(cfg: Config, call: Stage -> bool, limit: nat, p: Request, q: Request, s: State) returns (n: nat)
    requires limit >= 1 && OnlyCalls(call) && Fits(RxBlock(0, p)) && Fits(RxBlock(0, q))
    requires s == State(Init().shared.(rxFree := []), map[0 := HoldRxBlock(0, p), 1 := HoldRxBlock(1, q)])
    ensures Run(cfg, call, limit, Init(), s, n)
  {
    var s0 := Init();
    var s1 := State(s0.shared.(rxFree := [1]), map[0 := HoldRxBlock(0, p)]);
    TwoRxCalls(cfg, s0, s1, s, p, q);
    TwoCallsRun(cfg, call, limit, s0, s1, s, Alloc(0, RxEntry(true, p), L.None), Alloc(1, RxEntry(true, q), L.None));
    n :| Run(cfg, call, limit, Init(), s, n);
  }

  /** A run of two calls, one after the other, after which the second packet's metadata, which
      mmpkt_init_buf clears, is the first packet's data. */
  lemma TxOverlapReached(cfg: Config, call: Stage -> bool, limit: nat, base: int) returns (s: State, n: nat)
    requires limit >= 1 && OnlyCalls(call)
    ensures Run(cfg, call, limit, Init(), s, n) && 0 in s.acts && 1 in s.acts
    ensures s.acts[0] == HoldTxBlock(0, Request(0, 228, 0)) && s.acts[1] == HoldTxBlock(1, WRAPPING)
    ensures var l, m := Packet(s.acts[0]), Packet(s.acts[1]);
            l.Some? && m.Some? && Clobbered(base, TX_COMMAND_BLOCK_SIZE, l.value, m.value, 28, 256)
  {
    var p := Request(0, 228, 0);
    PlainLayout(TX_COMMAND_BLOCK_SIZE, 228);
    WrappingLayout(TX_COMMAND_BLOCK_SIZE);
    s := State(Init().shared.(txFree := []), map[0 := HoldTxBlock(0, p), 1 := HoldTxBlock(1, WRAPPING)]);
    n := TxRun(cfg, call, limit, p, WRAPPING, s);
    IsClobbered(base, TX_COMMAND_BLOCK_SIZE, Packet(s.acts[0]).value, Packet(s.acts[1]).value, 228, 28, 256);
  }

  /** The same in the receive pool. */
  lemma RxOverlapReached(cfg: Config, call: Stage -> bool, limit: nat, base: int) returns (s: State, n: nat)
    requires limit >= 1 && OnlyCalls(call)
    ensures Run(cfg, call, limit, Init(), s, n) && 0 in s.acts && 1 in s.acts
    ensures s.acts[0] == HoldRxBlock(0, Request(0, 1640, 0)) && s.acts[1] == HoldRxBlock(1, WRAPPING)
    ensures var l, m := Packet(s.acts[0]), Packet(s.acts[1]);
            l.Some? && m.Some? && Clobbered(base, RX_COMMAND_BLOCK_SIZE, l.value, m.value, 1444, 1668)
  {
    var p := Request(0, 1640, 0);
    PlainLayout(RX_COMMAND_BLOCK_SIZE, 1640);
    WrappingLayout(RX_COMMAND_BLOCK_SIZE);
    s := State(Init().shared.(rxFree := []), map[0 := HoldRxBlock(0, p), 1 := HoldRxBlock(1, WRAPPING)]);
    n := RxRun(cfg, call, limit, p, WRAPPING, s);
    IsClobbered(base, RX_COMMAND_BLOCK_SIZE, Packet(s.acts[0]).value, Packet(s.acts[1]).value, 228, 1444, 1668);
  }
}
