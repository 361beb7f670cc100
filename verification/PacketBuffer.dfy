/**
  The packet buffer operations of framework/morselib/include/mmpkt.h: a byte deque with
  headroom and tailroom inside one buffer.
 */
module PacketBuffer {

  import opened Words
  import L = PacketLayout

  // ----- The deque -----

  /** Everything in the buffer: what is before the data, the data, and what is after it. */
  datatype View = View(head: seq<byte>, data: seq<byte>, tail: seq<byte>) {
    function All(): seq<byte> { head + data + tail }
  }

  datatype Op =
    | PrependData(bytes: seq<byte>)
    | AppendData(bytes: seq<byte>)
    | RemoveFromStart(len: nat)
    | RemoveFromEnd(len: nat)
    | Truncate(len: nat)
    | AdjustStartOffset(delta: int)

  /** The start offset after mmpkt_adjust_start_offset, in uint32_t arithmetic. */
  function Adjusted(v: View, delta: int): nat {
    (|v.head| + delta) % U32
  }

  /** What the operation asserts or asks of its caller. */
  predicate Allowed(v: View, op: Op) {
    match op
    case PrependData(bytes) => |bytes| <= |v.head|
    case AppendData(bytes) => |bytes| <= |v.tail|
    case Truncate(len) => len <= |v.data|
    case AdjustStartOffset(delta) => v.data == [] && Adjusted(v, delta) <= |v.head| + |v.tail|
    case _ => true
  }

  /** The new contents of the whole buffer; a removal of too much changes nothing. */
  function Do(v: View, op: Op): View
    requires Allowed(v, op)
  {
    match op
    case PrependData(bytes) => View(v.head[..|v.head| - |bytes|], bytes + v.data, v.tail)
    case AppendData(bytes) => View(v.head, v.data + bytes, v.tail[|bytes|..])
    case RemoveFromStart(len) =>
      if len > |v.data| then v else View(v.head + v.data[..len], v.data[len..], v.tail)
    case RemoveFromEnd(len) =>
      if len > |v.data| then v
      else View(v.head, v.data[..|v.data| - len], v.data[|v.data| - len..] + v.tail)
    case Truncate(len) => View(v.head, v.data[..len], v.data[len..] + v.tail)
    case AdjustStartOffset(delta) =>
      var both := v.head + v.tail;
      View(both[..Adjusted(v, delta)], [], both[Adjusted(v, delta)..])
  }

  /** The deque by itself, without its buffer. */
  function Deque(data: seq<byte>, op: Op): seq<byte> {
    match op
    case PrependData(bytes) => bytes + data
    case AppendData(bytes) => data + bytes
    case RemoveFromStart(len) => if len > |data| then data else data[len..]
    case RemoveFromEnd(len) => if len > |data| then data else data[..|data| - len]
    case Truncate(len) => if len > |data| then data else data[..len]
    case AdjustStartOffset(_) => data
  }

  /** The part of the buffer that the operation writes. */
  predicate Written(v: View, op: Op, i: int) {
    match op
    case PrependData(bytes) => |v.head| - |bytes| <= i < |v.head|
    case AppendData(bytes) => |v.head| + |v.data| <= i < |v.head| + |v.data| + |bytes|
    case _ => false
  }

  lemma Regrouped(a: seq<byte>, b: seq<byte>, c: seq<byte>, d: seq<byte>)
    ensures (a + b) + c + d == a + (b + c) + d == a + b + (c + d)
  {}

  lemma StartBoundary(v: View, len: nat)
    requires len <= |v.data|
    ensures View(v.head + v.data[..len], v.data[len..], v.tail).All() == v.All()
  {
    Regrouped(v.head, v.data[..len], v.data[len..], v.tail);
    assert v.data == v.data[..len] + v.data[len..];
  }

  lemma EndBoundary(v: View, len: nat)
    requires len <= |v.data|
    ensures View(v.head, v.data[..len], v.data[len..] + v.tail).All() == v.All()
  {
    Regrouped(v.head, v.data[..len], v.data[len..], v.tail);
    assert v.data == v.data[..len] + v.data[len..];
  }

  /** Moving a boundary changes no byte. */
  lemma BoundaryMoves(v: View, op: Op)
    requires Allowed(v, op) && !op.PrependData? && !op.AppendData?
    ensures Do(v, op).All() == v.All()
  {
    match op
    case RemoveFromStart(len) => if len <= |v.data| { StartBoundary(v, len); }
    case RemoveFromEnd(len) => if len <= |v.data| { EndBoundary(v, |v.data| - len); }
    case Truncate(len) => EndBoundary(v, len);
    case AdjustStartOffset(delta) => assert v.All() == v.head + v.tail;
  }

  lemma PrependWrites(v: View, bytes: seq<byte>)
    requires |bytes| <= |v.head|
    ensures Do(v, PrependData(bytes)).All() == v.head[..|v.head| - |bytes|] + bytes + (v.data + v.tail)
  {}

  lemma AppendWrites(v: View, bytes: seq<byte>)
    requires |bytes| <= |v.tail|
    ensures Do(v, AppendData(bytes)).All() == (v.head + v.data) + bytes + v.tail[|bytes|..]
  {}

  lemma OutsideWindow(before: seq<byte>, was: seq<byte>, now: seq<byte>, after: seq<byte>, i: nat)
    requires |was| == |now| && i < |before + was + after| && !(|before| <= i < |before| + |was|)
    ensures (before + now + after)[i] == (before + was + after)[i]
  {}

  /** Each operation keeps the size, does to the data what the deque does, and changes no
      byte outside the window that it writes. */
  lemma OpRefines(v: View, op: Op)
    requires Allowed(v, op)
    ensures |Do(v, op).All()| == |v.All()|
    ensures Do(v, op).data == Deque(v.data, op)
    ensures forall i :: 0 <= i < |v.All()| && !Written(v, op, i) ==> Do(v, op).All()[i] == v.All()[i]
  {
    match op
    case PrependData(bytes) => PrependOutside(v, bytes);
    case AppendData(bytes) => AppendOutside(v, bytes);
    case _ => BoundaryMoves(v, op);
  }

  lemma PrependOutside(v: View, bytes: seq<byte>)
    requires |bytes| <= |v.head|
    ensures |Do(v, PrependData(bytes)).All()| == |v.All()|
    ensures forall i :: 0 <= i < |v.All()| && !Written(v, PrependData(bytes), i) ==>
                          Do(v, PrependData(bytes)).All()[i] == v.All()[i]
  {
    PrependWrites(v, bytes);
    var k := |v.head| - |bytes|;
    assert v.All() == v.head[..k] + v.head[k..] + (v.data + v.tail);
    forall i | 0 <= i < |v.All()| && !Written(v, PrependData(bytes), i)
      ensures Do(v, PrependData(bytes)).All()[i] == v.All()[i]
    {
      OutsideWindow(v.head[..k], v.head[k..], bytes, v.data + v.tail, i);
    }
  }

  lemma AppendOutside(v: View, bytes: seq<byte>)
    requires |bytes| <= |v.tail|
    ensures |Do(v, AppendData(bytes)).All()| == |v.All()|
    ensures forall i :: 0 <= i < |v.All()| && !Written(v, AppendData(bytes), i) ==>
                          Do(v, AppendData(bytes)).All()[i] == v.All()[i]
  {
    AppendWrites(v, bytes);
    var k := |bytes|;
    assert v.All() == (v.head + v.data) + v.tail[..k] + v.tail[k..];
    forall i | 0 <= i < |v.All()| && !Written(v, AppendData(bytes), i)
      ensures Do(v, AppendData(bytes)).All()[i] == v.All()[i]
    {
      OutsideWindow(v.head + v.data, v.tail[..k], bytes, v.tail[k..], i);
    }
  }

  /** Removing what was put in front gives the data back; putting back what was removed gives
      the whole buffer back. */
  lemma StartUndo(v: View, bytes: seq<byte>, n: nat)
    requires |bytes| <= |v.head| && n <= |v.data|
    ensures var w := Do(Do(v, PrependData(bytes)), RemoveFromStart(|bytes|));
            w.data == v.data && w.tail == v.tail && |w.head| == |v.head|
    ensures Do(Do(v, RemoveFromStart(n)), PrependData(v.data[..n])) == v
  {
    var u := Do(v, PrependData(bytes));
    assert u.data[|bytes|..] == v.data;
    var w := Do(v, RemoveFromStart(n));
    assert w.head[..|w.head| - n] == v.head;
    assert v.data[..n] + w.data == v.data;
  }

  /** The same at the end. */
  lemma EndUndo(v: View, bytes: seq<byte>, n: nat)
    requires |bytes| <= |v.tail| && n <= |v.data|
    ensures var w := Do(Do(v, AppendData(bytes)), RemoveFromEnd(|bytes|));
            w.data == v.data && w.head == v.head && |w.tail| == |v.tail|
    ensures Do(Do(v, RemoveFromEnd(n)), AppendData(v.data[|v.data| - n..])) == v
  {
    var u := Do(v, AppendData(bytes));
    assert u.data[..|u.data| - |bytes|] == v.data;
    var w := Do(v, RemoveFromEnd(n));
    assert w.data + v.data[|v.data| - n..] == v.data;
    assert w.tail[n..] == v.tail;
  }

  /** Truncating is removing the rest from the end: it keeps the start, and putting the cut bytes back
      gives the whole buffer back. */
  lemma TruncateUndo(v: View, len: nat)
    requires len <= |v.data|
    ensures Do(v, Truncate(len)) == Do(v, RemoveFromEnd(|v.data| - len))
    ensures var w := Do(v, Truncate(len));
            && w.head == v.head && |w.data| == len
            && Do(w, AppendData(v.data[len..])) == v
  {
    EndUndo(v, [], |v.data| - len);
  }

  /** Within the buffer the start moves by exactly `delta`, in spite of the wrapping, and moving
      it back gives the whole buffer back. */
  lemma AdjustUndo(v: View, delta: int)
    requires v.data == [] && 0 <= |v.head| + delta <= |v.head| + |v.tail| < U32
    ensures Allowed(v, AdjustStartOffset(delta))
    ensures var w := Do(v, AdjustStartOffset(delta));
            && |w.head| == |v.head| + delta
            && Allowed(w, AdjustStartOffset(-delta)) && Do(w, AdjustStartOffset(-delta)) == v
  {
    assert Adjusted(v, delta) == |v.head| + delta;
    var w := Do(v, AdjustStartOffset(delta));
    assert w.head + w.tail == v.head + v.tail;
    assert Adjusted(w, -delta) == |v.head|;
  }

  // ----- Sequences of operations -----

  predicate AllAllowed(v: View, ops: seq<Op>)
    decreases |ops|
  {
    ops == [] || (Allowed(v, ops[0]) && AllAllowed(Do(v, ops[0]), ops[1..]))
  }

  function DoAll(v: View, ops: seq<Op>): View
    requires AllAllowed(v, ops)
    decreases |ops|
  {
    if ops == [] then v else DoAll(Do(v, ops[0]), ops[1..])
  }

  function DequeAll(data: seq<byte>, ops: seq<Op>): seq<byte>
    decreases |ops|
  {
    if ops == [] then data else DequeAll(Deque(data, ops[0]), ops[1..])
  }

  /** The union of the parts of the buffer that the operations write. */
  predicate WrittenBy(v: View, ops: seq<Op>, i: int)
    requires AllAllowed(v, ops)
    decreases |ops|
  {
    ops != [] && (Written(v, ops[0], i) || WrittenBy(Do(v, ops[0]), ops[1..], i))
  }

  /** Every sequence of operations refines the deque, keeps headroom + data + tailroom = buf_len,
      and changes no byte outside the windows that its operations write. */
  lemma {:induction false} OpsRefine(v: View, ops: seq<Op>)
    requires AllAllowed(v, ops)
    ensures DoAll(v, ops).data == DequeAll(v.data, ops)
    ensures |DoAll(v, ops).head| + |DoAll(v, ops).data| + |DoAll(v, ops).tail|
         == |v.head| + |v.data| + |v.tail|
    ensures |DoAll(v, ops).All()| == |v.All()|
    ensures forall i :: 0 <= i < |v.All()| && !WrittenBy(v, ops, i) ==> DoAll(v, ops).All()[i] == v.All()[i]
    decreases |ops|
  {
    if ops != [] {
      var w := Do(v, ops[0]);
      OpRefines(v, ops[0]);
      OpsRefine(w, ops[1..]);
      forall i | 0 <= i < |v.All()| && !WrittenBy(v, ops, i)
        ensures DoAll(w, ops[1..]).All()[i] == v.All()[i]
      {
        assert !WrittenBy(w, ops[1..], i) && w.All()[i] == v.All()[i];
      }
    }
  }

  // ----- struct mmpkt -----

  /** The view that a start offset and a data length give of a buffer. */
  function ViewOf(all: seq<byte>, start: nat, len: nat): View
    requires start + len <= |all|
  {
    View(all[..start], all[start..start + len], all[start + len..])
  }

  lemma StartMoved(all: seq<byte>, start: nat, len: nat, n: nat)
    requires start + len <= |all| && n <= len
    ensures ViewOf(all, start + n, len - n) == Do(ViewOf(all, start, len), RemoveFromStart(n))
  {
    assert all[..start + n] == all[..start] + all[start..start + len][..n];
    assert all[start + n..start + len] == all[start..start + len][n..];
  }

  lemma EndMoved(all: seq<byte>, start: nat, len: nat, n: nat)
    requires start + len <= |all| && n <= len
    ensures ViewOf(all, start, n) == Do(ViewOf(all, start, len), Truncate(n))
    ensures ViewOf(all, start, n) == Do(ViewOf(all, start, len), RemoveFromEnd(len - n))
  {
    assert all[start..start + n] == all[start..start + len][..n];
    assert all[start + n..] == all[start..start + len][n..] + all[start + len..];
  }

  class Mmpkt {
    const buf: array<byte>
    var startOffset: nat
    var dataLen: nat

    ghost predicate Valid()
      reads this
    {
      startOffset + dataLen <= buf.Length < U32
    }

    ghost function Contents(): View
      requires Valid()
      reads this, buf
    {
      ViewOf(buf[..], startOffset, dataLen)
    }

    /** mmpkt_init, which stores the offset unchecked. */
    constructor (buf: array<byte>, dataStartOffset: nat)
      ensures this.buf == buf && startOffset == dataStartOffset && dataLen == 0
      ensures Valid() <==> dataStartOffset <= buf.Length < U32
      ensures Valid() ==> Contents() == View(buf[..dataStartOffset], [], buf[dataStartOffset..])
    {
      this.buf, startOffset, dataLen := buf, dataStartOffset, 0;
    }

    /** mmpkt_available_space_at_end */
    function SpaceAtEnd(): (n: nat)
      requires Valid()
      reads this, buf
      ensures n == |Contents().tail|
    {
      buf.Length - (startOffset + dataLen)
    }

    /** The removed bytes are still in the buffer, at this offset. */
    ghost predicate RemovedAt(at: nat, bytes: seq<byte>)
      reads buf
    {
      at + |bytes| <= buf.Length && buf[at..at + |bytes|] == bytes
    }

    /** memcpy into the buffer. */
    method CopyIn(at: nat, bytes: seq<byte>)
      requires at + |bytes| <= buf.Length
      modifies buf
      ensures buf[..] == old(buf[..])[..at] + bytes + old(buf[..])[at + |bytes|..]
    {
      for i := 0 to |bytes|
        invariant buf[..] == old(buf[..])[..at] + bytes[..i] + old(buf[..])[at + i..]
      {
        ghost var was := buf[..];
        buf[at + i] := bytes[i];
        assert buf[..] == was[at + i := bytes[i]];
        OneMoreByte(old(buf[..]), at, bytes, i);
      }
      assert bytes[..|bytes|] == bytes;
    }

    /** mmpkt_prepend_data */
    method PrependDataBytes(bytes: seq<byte>)
      requires Valid() && Allowed(Contents(), PrependData(bytes))
      modifies this, buf
      ensures Valid() && Contents() == Do(old(Contents()), PrependData(bytes))
    {
      startOffset := startOffset - |bytes|;
      dataLen := dataLen + |bytes|;
      CopyIn(startOffset, bytes);
      PrependSplit(old(buf[..]), buf[..], old(startOffset), old(dataLen), bytes);
    }

    /** mmpkt_append_data */
    method AppendDataBytes(bytes: seq<byte>)
      requires Valid() && Allowed(Contents(), AppendData(bytes))
      modifies this, buf
      ensures Valid() && Contents() == Do(old(Contents()), AppendData(bytes))
    {
      var end := startOffset + dataLen;
      dataLen := dataLen + |bytes|;
      CopyIn(end, bytes);
      AppendSplit(old(buf[..]), buf[..], startOffset, old(dataLen), bytes);
    }

    /** mmpkt_remove_from_start: where in the buffer the removed bytes are, or nothing if there are
        not that many. */
    method RemoveStart(len: nat) returns (removed: L.Option<nat>)
      requires Valid()
      modifies this
      ensures Valid() && Contents() == Do(old(Contents()), RemoveFromStart(len))
      ensures removed.Some? <==> len <= |old(Contents()).data|
      ensures removed.Some? ==>
                removed.value == old(startOffset) && RemovedAt(removed.value, old(Contents()).data[..len])
    {
      if dataLen < len {
        return L.None;
      }
      StartMoved(buf[..], startOffset, dataLen, len);
      var at := startOffset;
      startOffset := startOffset + len;
      dataLen := dataLen - len;
      return L.Some(at);
    }

    /** mmpkt_remove_from_end */
    method RemoveEnd(len: nat) returns (removed: L.Option<nat>)
      requires Valid()
      modifies this
      ensures Valid() && Contents() == Do(old(Contents()), RemoveFromEnd(len))
      ensures removed.Some? <==> len <= |old(Contents()).data|
      ensures removed.Some? ==>
                && removed.value == startOffset + dataLen
                && RemovedAt(removed.value, old(Contents()).data[|old(Contents()).data| - len..])
      ensures startOffset == old(startOffset)
    {
      if dataLen < len {
        return L.None;
      }
      EndMoved(buf[..], startOffset, dataLen, dataLen - len);
      dataLen := dataLen - len;
      return L.Some(startOffset + dataLen);
    }

    /** mmpkt_truncate */
    method TruncateTo(len: nat)
      requires Valid() && Allowed(Contents(), Truncate(len))
      modifies this
      ensures Valid() && Contents() == Do(old(Contents()), Truncate(len))
    {
      EndMoved(buf[..], startOffset, dataLen, len);
      dataLen := len;
    }

    /** mmpkt_adjust_start_offset */
    method Adjust(delta: int)
      requires Valid() && Allowed(Contents(), AdjustStartOffset(delta))
      modifies this
      ensures Valid() && Contents() == Do(old(Contents()), AdjustStartOffset(delta))
    {
      startOffset := (startOffset + delta) % U32;
      assert buf[..] == old(Contents()).head + old(Contents()).tail;
    }

    /** Any sequence of operations does to the buffer what it does to the view. */
    method Perform(ops: seq<Op>)
      requires Valid() && AllAllowed(Contents(), ops)
      modifies this, buf
      ensures Valid() && Contents() == DoAll(old(Contents()), ops)
      decreases |ops|
    {
      if ops == [] {
        return;
      }
      match ops[0] {
        case PrependData(bytes) => PrependDataBytes(bytes);
        case AppendData(bytes) => AppendDataBytes(bytes);
        case RemoveFromStart(len) => var _ := RemoveStart(len);
        case RemoveFromEnd(len) => var _ := RemoveEnd(len);
        case Truncate(len) => TruncateTo(len);
        case AdjustStartOffset(delta) => Adjust(delta);
      }
      Perform(ops[1..]);
    }
  }

  lemma OneMoreByte(was: seq<byte>, at: nat, bytes: seq<byte>, i: nat)
    requires i < |bytes| && at + |bytes| <= |was|
    ensures (was[..at] + bytes[..i] + was[at + i..])[at + i := bytes[i]]
         == was[..at] + bytes[..i + 1] + was[at + i + 1..]
  {}

  lemma PrependSplit(was: seq<byte>, now: seq<byte>, start: nat, len: nat, bytes: seq<byte>)
    requires start + len <= |was| && |bytes| <= start
    requires now == was[..start - |bytes|] + bytes + was[start..]
    ensures |now| == |was|
    ensures ViewOf(now, start - |bytes|, len + |bytes|) == Do(ViewOf(was, start, len), PrependData(bytes))
  {
    var v := ViewOf(was, start, len);
    assert was[start..] == v.data + v.tail;
    assert was[..start - |bytes|] == v.head[..start - |bytes|];
    Split(now, v.head[..start - |bytes|], bytes + v.data, v.tail);
  }

  lemma AppendSplit(was: seq<byte>, now: seq<byte>, start: nat, len: nat, bytes: seq<byte>)
    requires start + len + |bytes| <= |was|
    requires now == was[..start + len] + bytes + was[start + len + |bytes|..]
    ensures |now| == |was|
    ensures ViewOf(now, start, len + |bytes|) == Do(ViewOf(was, start, len), AppendData(bytes))
  {
    var v := ViewOf(was, start, len);
    assert was[..start + len] == v.head + v.data;
    assert was[start + len + |bytes|..] == v.tail[|bytes|..];
    Split(now, v.head, v.data + bytes, v.tail[|bytes|..]);
  }

  lemma Split(all: seq<byte>, a: seq<byte>, b: seq<byte>, c: seq<byte>)
    requires all == a + b + c
    ensures all[..|a|] == a && all[|a|..|a| + |b|] == b && all[|a| + |b|..] == c
  {}
}
