/**
  Packet lists and the mutation-safe walk over them (framework/morselib/include/mmpkt_list.h).
 */
module PacketList {

  class Packet {
    var next: Packet?
  }

  class List {
    var head: Packet?
    var tail: Packet?
    var len: nat

    /** The list holds `nodes` in this order, linked by their next pointers. */
    ghost predicate Holds(nodes: seq<Packet>)
      reads this, nodes
    {
      && Linked(head, nodes)
      && tail == (if nodes == [] then null else nodes[|nodes| - 1])
      && len == |nodes|
    }

    /** mmpkt_list_dequeue_all: the chain comes out whole and the list is empty. */
    method DequeueAll(ghost nodes: seq<Packet>) returns (chain: Packet?)
      requires Holds(nodes)
      modifies this
      ensures Linked(chain, nodes) && Holds([])
    {
      chain := head;
      head, tail, len := null, null, 0;
    }
  }

  ghost predicate Linked(head: Packet?, nodes: seq<Packet>)
    reads nodes
  {
    && head == (if nodes == [] then null else nodes[0])
    && (forall i, j :: 0 <= i < j < |nodes| ==> nodes[i] != nodes[j])
    && forall i :: 0 <= i < |nodes| ==> nodes[i].next == After(nodes, i)
  }

  /** What follows position `i`. */
  ghost function After(nodes: seq<Packet>, i: nat): Packet? {
    if i + 1 < |nodes| then nodes[i + 1] else null
  }

  /** The loop body: it may do anything to the list, to the current packet, to packets that
      have been visited and to anything else, but leaves the packets still to come alone. */
  method Body(list: List, ghost mine: set<Packet>, ghost others: set<object>, ghost toCome: set<Packet>)
    requires mine !! toCome && others !! toCome
    modifies list, mine, others
    ensures forall p :: p in toCome ==> p.next == old(p.next)
  {
    modify list, mine, others;
  }

  /** MMPKT_LIST_WALK visits each packet of the list once, in order, whatever the body does
      to the packets already reached: unlink them, free them or link them elsewhere. */
  method Walk(list: List, ghost nodes: seq<Packet>, ghost others: set<object>) returns (visited: seq<Packet>)
    requires list.Holds(nodes)
    requires forall p :: p in nodes ==> p !in others
    modifies list, nodes, others
    ensures visited == nodes
  {
    visited := [];
    if list.head != null {
      var walk: Packet? := list.head;
      var next: Packet? := walk.next;
      ghost var k := 0;
      while walk != null
        invariant 0 <= k <= |nodes| && visited == nodes[..k]
        invariant walk == (if k < |nodes| then nodes[k] else null)
        invariant k < |nodes| ==> next == After(nodes, k)
        invariant forall i :: k <= i < |nodes| ==> nodes[i].next == After(nodes, i)
        decreases |nodes| - k
      {
        visited := visited + [walk];
        ghost var mine := set i | 0 <= i <= k :: nodes[i];
        ghost var toCome := set i | k < i < |nodes| :: nodes[i];
        Body(list, mine, others, toCome);
        k := k + 1;
        assert forall i :: k <= i < |nodes| ==> nodes[i] in toCome;
        walk := next;
        next := if walk != null then walk.next else null;
      }
    }
  }
}
