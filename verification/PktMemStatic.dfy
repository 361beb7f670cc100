/**
  The functions of framework/src/mmpktmem/mmpktmem_heap.c as methods on the static structure that
  they update, for calls that do not overlap.
 */
module PktMemStatic {

  import opened PktMem
  import opened PktMemSafety
  import opened PktMemCalls
  import L = PacketLayout
  import opened PktMemHistory

  class PacketMemory {
    const cfg: Config
    var txAllocated: int
    var txPaused: bool
    var rxAllocated: int
    var txFree: seq<nat>
    var rxFree: seq<nat>
    var heap: set<nat>
    var callbacks: nat
    ghost var flips: nat
    ghost var acts: map<nat, Stage>   // the packets with their owners
    ghost var counts: seq<int>        // the counter after every call

    ghost function Structure(): Shared
      reads this
    {
      Shared(txAllocated, txPaused, rxAllocated, txFree, rxFree, heap, flips, callbacks)
    }

    ghost function World(): State
      reads this
    {
      State(Structure(), acts)
    }

    ghost predicate Valid()
      reads this
    {
      Between(cfg, World(), counts)
    }

    /** mmhal_wlan_pktmem_init */
    constructor (cfg: Config)
      ensures Valid() && this.cfg == cfg && World() == Init() && counts == [0]
    {
      this.cfg := cfg;
      txAllocated, txPaused, rxAllocated := 0, false, 0;
      txFree, rxFree, heap := [0, 1], [0, 1], {};
      callbacks, flips, acts, counts := 0, 0, map[], [0];
      new;
      InitBetween(cfg);
    }

    /** The call that has just changed the structure from `s` is over. */
    ghost method Done(s: State, c: Call)
      requires Between(cfg, s, counts) && Callable(s, c)
      requires Structure() == DoCall(cfg, s, c).shared
      modifies `acts, `counts
      ensures Valid() && World() == DoCall(cfg, s, c) && counts == old(counts) + [txAllocated]
    {
      CallKeeps(cfg, s, c, counts);
      acts := DoCall(cfg, s, c).acts;
      counts := counts + [txAllocated];
    }

    /** alloc_pkt_from_list on the receive or the transmit command pool. */
    method AllocFromList(rx: bool, req: Request) returns (block: L.Option<nat>)
      modifies `txFree, `rxFree
      ensures !rx ==> (txFree, block) == Taken(old(txFree), Fits(TxBlock(0, req))) && rxFree == old(rxFree)
      ensures rx ==> (rxFree, block) == Taken(old(rxFree), Fits(RxBlock(0, req))) && txFree == old(txFree)
    {
      var free := if rx then rxFree else txFree;
      if free == [] {
        return L.None;
      }
      var b := free[0];
      free := free[1..];
      var layout := LayOut(if rx then RX_COMMAND_BLOCK_SIZE else TX_COMMAND_BLOCK_SIZE, req);
      if layout.Some? {
        block := L.Some(b);
      } else {
        free := free + [b];
        block := L.None;
      }
      if rx { rxFree := free; } else { txFree := free; }
    }

    /** The exchange of the flag, and the callback if that changed it. */
    method ExchangeFlag(paused: bool)
      modifies `txPaused, `callbacks, `flips
      ensures Structure() == SetFlag(old(Structure()), paused)
    {
      var oldPaused := txPaused;
      txPaused := paused;
      if oldPaused != paused {
        flips := flips + 1;
        callbacks := callbacks + 1;
      }
    }

    /** mmhal_wlan_alloc_mmpkt_for_tx, from the fetch_add on. */
    method AllocData(answer: L.Option<nat>) returns (r: Next)
      modifies `txAllocated, `txPaused, `heap, `callbacks, `flips
      ensures (Structure(), r) == DataAlloc(cfg, old(Structure()), answer)
    {
      var oldValue := txAllocated;
      txAllocated := txAllocated + 1;
      if oldValue >= cfg.txBlocks {
        txAllocated := txAllocated - 1;
        return L.None;
      }
      if answer.None? {
        txAllocated := txAllocated - 1;
        return L.None;
      }
      heap := heap + {answer.value};
      if txAllocated > cfg.txBlocks - 1 {
        ExchangeFlag(true);
      }
      return L.Some(Hold(answer.value, TxDataOps));
    }

    /** mmhal_wlan_alloc_mmpkt_for_tx, as a change of the structure. */
    method TxStructure(command: bool, req: Request, answer: L.Option<nat>) returns (r: Next)
      modifies `txAllocated, `txPaused, `heap, `callbacks, `flips, `txFree, `rxFree
      ensures (Structure(), r) == TxCall(cfg, old(Structure()), command, req, answer)
    {
      if command {
        var block := AllocFromList(false, req);
        if block.Some? {
          return L.Some(HoldTxBlock(block.value, req));
        }
      }
      r := AllocData(answer);
    }

    /** mmhal_wlan_alloc_mmpkt_for_tx */
    method AllocTx(command: bool, req: Request, answer: L.Option<nat>, ghost t: nat) returns (r: Next)
      requires Valid() && t !in acts && (answer.Some? ==> answer.value !in heap)
      modifies this
      ensures Valid() && counts == old(counts) + [txAllocated] && acts == Put(old(acts), t, r)
      ensures World() == DoCall(cfg, old(World()), Alloc(t, TxEntry(command, req), answer))
      ensures (Structure(), r) == TxCall(cfg, old(Structure()), command, req, answer)
    {
      ghost var s := World();
      TxCallIsAlone(cfg, s.shared, command, req, answer);
      r := TxStructure(command, req, answer);
      Done(s, Alloc(t, TxEntry(command, req), answer));
    }

    /** mmhal_wlan_alloc_mmpkt_for_rx, from the fetch_add on. */
    method AllocRxData(answer: L.Option<nat>) returns (r: Next)
      modifies `rxAllocated, `heap
      ensures (Structure(), r) == RxAlloc(cfg, old(Structure()), answer)
    {
      var oldValue := rxAllocated;
      rxAllocated := rxAllocated + 1;
      if oldValue >= cfg.rxBlocks {
        rxAllocated := rxAllocated - 1;
        return L.None;
      }
      if answer.None? {
        rxAllocated := rxAllocated - 1;
        return L.None;
      }
      heap := heap + {answer.value};
      return L.Some(Hold(answer.value, RxOps));
    }

    /** mmhal_wlan_alloc_mmpkt_for_rx, as a change of the structure. */
    method RxStructure(command: bool, req: Request, answer: L.Option<nat>) returns (r: Next)
      modifies `rxAllocated, `heap, `txFree, `rxFree
      ensures (Structure(), r) == RxCall(cfg, old(Structure()), command, req, answer)
    {
      if !command {
        r := AllocRxData(answer);
        return;
      }
      var block := AllocFromList(true, req);
      if block.Some? {
        return L.Some(HoldRxBlock(block.value, req));
      }
      if answer.None? {
        return L.None;
      }
      heap := heap + {answer.value};
      return L.Some(Hold(answer.value, PlainOps));
    }

    /** mmhal_wlan_alloc_mmpkt_for_rx */
    method AllocRx(command: bool, req: Request, answer: L.Option<nat>, ghost t: nat) returns (r: Next)
      requires Valid() && t !in acts && (answer.Some? ==> answer.value !in heap)
      modifies this
      ensures Valid() && counts == old(counts) + [txAllocated] && acts == Put(old(acts), t, r)
      ensures World() == DoCall(cfg, old(World()), Alloc(t, RxEntry(command, req), answer))
      ensures (Structure(), r) == RxCall(cfg, old(Structure()), command, req, answer)
    {
      ghost var s := World();
      RxCallIsAlone(cfg, s.shared, command, req, answer);
      r := RxStructure(command, req, answer);
      Done(s, Alloc(t, RxEntry(command, req), answer));
    }

    /** tx_data_pool_pkt_free, as a change of the structure. */
    method DataStructure(a: nat)
      requires txAllocated > 0
      modifies `txAllocated, `txPaused, `heap, `callbacks, `flips
      ensures Structure() == DataFree(cfg, old(Structure()), a)
    {
      var oldValue := txAllocated;
      assert oldValue > 0;   // MMOSAL_ASSERT
      txAllocated := txAllocated - 1;
      heap := heap - {a};
      if txAllocated < cfg.txBlocks - 2 {
        ExchangeFlag(false);
      }
    }

    /** tx_data_pool_pkt_free */
    method FreeData(a: nat, ghost t: nat)
      requires Valid() && t in acts && acts[t] == Hold(a, TxDataOps)
      modifies this
      ensures Valid() && counts == old(counts) + [txAllocated] && acts == old(acts) - {t}
      ensures World() == DoCall(cfg, old(World()), Free(t))
      ensures Structure() == DataFree(cfg, old(Structure()), a)
    {
      ghost var s := World();
      CountPositive(acts, t, Counted);
      FreedIsAlone(cfg, s.shared, acts[t]);
      DataStructure(a);
      Done(s, Free(t));
    }

    /** rx_pkt_free */
    method FreeRx(a: nat, ghost t: nat)
      requires Valid() && t in acts && acts[t] == Hold(a, RxOps)
      modifies this
      ensures Valid() && counts == old(counts) + [txAllocated] && acts == old(acts) - {t}
      ensures World() == DoCall(cfg, old(World()), Free(t))
      ensures Structure() == RxFree(old(Structure()), a)
    {
      ghost var s := World();
      FreedIsAlone(cfg, s.shared, acts[t]);
      rxAllocated := rxAllocated - 1;
      heap := heap - {a};
      Done(s, Free(t));
    }

    /** The free function of packets that mmpkt_alloc_on_heap gives out. */
    method FreePlain(a: nat, ghost t: nat)
      requires Valid() && t in acts && acts[t] == Hold(a, PlainOps)
      modifies this
      ensures Valid() && counts == old(counts) + [txAllocated] && acts == old(acts) - {t}
      ensures World() == DoCall(cfg, old(World()), Free(t))
      ensures heap == old(heap) - {a}
    {
      ghost var s := World();
      FreedIsAlone(cfg, s.shared, acts[t]);
      heap := heap - {a};
      Done(s, Free(t));
    }

    /** tx_command_reserved_free */
    method FreeTxCommand(b: nat, ghost t: nat)
      requires Valid() && t in acts && acts[t].HoldTxBlock? && acts[t].block == b
      modifies this
      ensures Valid() && counts == old(counts) + [txAllocated] && acts == old(acts) - {t}
      ensures World() == DoCall(cfg, old(World()), Free(t))
      ensures txFree == old(txFree) + [b]
    {
      ghost var s := World();
      FreedIsAlone(cfg, s.shared, acts[t]);
      txFree := txFree + [b];
      Done(s, Free(t));
    }

    /** rx_command_reserved_free */
    method FreeRxCommand(b: nat, ghost t: nat)
      requires Valid() && t in acts && acts[t].HoldRxBlock? && acts[t].block == b
      modifies this
      ensures Valid() && counts == old(counts) + [txAllocated] && acts == old(acts) - {t}
      ensures World() == DoCall(cfg, old(World()), Free(t))
      ensures rxFree == old(rxFree) + [b]
    {
      ghost var s := World();
      FreedIsAlone(cfg, s.shared, acts[t]);
      rxFree := rxFree + [b];
      Done(s, Free(t));
    }

    /** mmpkt_release of packet p: the free function that its ops point to. */
    method Release(p: Stage, ghost t: nat)
      requires Valid() && t in acts && acts[t] == p && Resting(p)
      modifies this
      ensures Valid() && counts == old(counts) + [txAllocated] && acts == old(acts) - {t}
      ensures World() == DoCall(cfg, old(World()), Free(t))
    {
      match p {
        case HoldTxBlock(b, _) => FreeTxCommand(b, t);
        case HoldRxBlock(b, _) => FreeRxCommand(b, t);
        case Hold(a, ops) =>
          match ops {
            case TxDataOps => FreeData(a, t);
            case RxOps => FreeRx(a, t);
            case PlainOps => FreePlain(a, t);
          }
      }
    }

    /** One call by a client that has the packets `owned`. */
    method Make(owned: map<nat, Stage>, c: Call) returns (owned': map<nat, Stage>)
      requires Valid() && owned == acts && Callable(World(), c)
      modifies this
      ensures Valid() && owned' == acts && counts == old(counts) + [txAllocated]
      ensures World() == DoCall(cfg, old(World()), c)
    {
      match c {
        case Alloc(t, entry, heap) =>
          var r;
          if entry.TxEntry? {
            r := AllocTx(entry.command, entry.req, heap, t);
          } else {
            r := AllocRx(entry.command, entry.req, heap, t);
          }
          owned' := Put(owned, t, r);
        case Free(t) =>
          Release(owned[t], t);
          owned' := owned - {t};
      }
    }

    /** Any sequence of calls does to the structure what it does to the machine. */
    method Perform(owned: map<nat, Stage>, calls: seq<Call>) returns (owned': map<nat, Stage>)
      requires Valid() && owned == acts && AllCallable(cfg, World(), calls)
      modifies this
      ensures Valid() && owned' == acts
      ensures World() == DoCalls(cfg, old(World()), calls)
      ensures counts == old(counts) + Counts(cfg, old(World()), calls)
      decreases |calls|
    {
      if calls == [] {
        return owned;
      }
      ghost var s, h := World(), counts;
      var more := Make(owned, calls[0]);
      ghost var w := World();
      FirstCall(cfg, s, w, calls, h);
      owned' := Perform(more, calls[1..]);
    }
  }
}
