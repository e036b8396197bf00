// contiguous_appender and page_aligned_appender: writers that fill raw memory
// first and make it part of a list later.
module Appenders {
  import opened Options
  import opened Crc
  import opened Rope
  import opened BufferRaw
  import opened BufferList

  // What has been appended by a call: bytes in place, which a deep copy is too, a
  // ptr, or a list.
  datatype Call = InPlace(n: nat) | JoinPtr(n: nat) | JoinList(n: nat)

  // The call makes what is pending part of the list first.
  predicate Flushes(c: Call) {
    c.JoinList? || (c.JoinPtr? && c.n > 0)
  }

  // How many bytes the calls append, and how many of them join as nodes.
  function Appended(calls: seq<Call>): nat {
    if calls == [] then 0 else Appended(calls[..|calls| - 1]) + calls[|calls| - 1].n
  }

  function Joining(calls: seq<Call>): nat {
    if calls == [] then 0
    else Joining(calls[..|calls| - 1]) + if calls[|calls| - 1].InPlace? then 0 else calls[|calls| - 1].n
  }

  // How many in-place bytes are pending after the calls.
  function PendingAfter(calls: seq<Call>): nat {
    if calls == [] then 0
    else
      var last := calls[|calls| - 1];
      if Flushes(last) then 0
      else PendingAfter(calls[..|calls| - 1]) + last.n
  }

  // Some call joined a ptr with bytes, or a list, while in-place bytes were pending.
  ghost predicate JoinedOverPending(calls: seq<Call>) {
    exists k :: 0 <= k < |calls| && Flushes(calls[k]) && PendingAfter(calls[..k]) > 0
  }

  // Appended bytes are pending or joined unless they were flushed, which none were
  // exactly when nothing joined over pending bytes.
  lemma {:induction false} FlushedOrNot(calls: seq<Call>)
    ensures Appended(calls) >= Joining(calls) + PendingAfter(calls)
    ensures Appended(calls) == Joining(calls) + PendingAfter(calls) <==> !JoinedOverPending(calls)
  {
    if calls != [] {
      var n := |calls| - 1;
      var front := calls[..n];
      FlushedOrNot(front);
      LastOrBefore(calls);
    }
  }

  lemma LastOrBefore(calls: seq<Call>)
    requires calls != []
    ensures var n := |calls| - 1;
      JoinedOverPending(calls) <==>
      JoinedOverPending(calls[..n]) || (Flushes(calls[n]) && PendingAfter(calls[..n]) > 0)
  {
    var n := |calls| - 1;
    var front := calls[..n];
    assert forall k :: 0 <= k < n ==> front[..k] == calls[..k];
    if JoinedOverPending(calls) {
      var k :| 0 <= k < |calls| && Flushes(calls[k]) && PendingAfter(calls[..k]) > 0;
      if k < n {
        assert Flushes(front[k]) && PendingAfter(front[..k]) > 0;
      }
    }
    if JoinedOverPending(front) {
      var k :| 0 <= k < n && Flushes(front[k]) && PendingAfter(front[..k]) > 0;
      assert Flushes(calls[k]) && PendingAfter(calls[..k]) > 0;
    }
  }

  // Bytes go straight behind the cached last node; the node is made longer when
  // something else is appended, or at the end.
  class ContiguousAppender {
    const list: List
    const deepCopy: bool
    // _pos, as an offset in the raw of the cached node
    var pos: nat
    var outOfBand: nat
    // the bytes of the list at the start, and the calls so far
    ghost const start: nat
    ghost var calls: seq<Call>

    ghost predicate Valid()
      reads this, list, RawsOf(list.buffers)
    {
      && Sound() && |Total()| == start + Appended(calls)
      && outOfBand == Joining(calls) && |Pending()| == PendingAfter(calls)
    }

    // As inside a call.
    ghost predicate Sound()
      reads this, list, RawsOf(list.buffers)
    {
      && list.Valid() && 0 <= list.tailCache == |list.buffers| - 1
      && var t := list.buffers[list.tailCache]; t.End() <= pos <= |t.raw.data|
    }

    // In-place bytes that the list does not have yet.
    ghost function Pending(): seq<byte>
      requires Sound()
      reads this, list, RawsOf(list.buffers)
    {
      var t := list.buffers[list.tailCache];
      t.raw.data[t.End()..pos]
    }

    // Everything appended, in order.
    ghost function Total(): seq<byte>
      requires Sound()
      reads this, list, RawsOf(list.buffers)
    {
      list.Flat() + Pending()
    }

    // Bytes that may still be written in place.
    function Room(): nat
      requires Sound()
      reads this, list, RawsOf(list.buffers)
    {
      |list.buffers[list.tailCache].raw.data| - pos
    }

    constructor (list: List, n: nat, deepCopy: bool)
      requires list.Valid() && (n > 0 || list.tailCache >= 0)
      modifies list
      ensures this.list == list && this.deepCopy == deepCopy && Valid() && Room() >= n
      ensures Total() == old(list.Flat()) && start == |Total()| && calls == []
      ensures forall b: List :: old(allocated(b)) && b != list && old(b.Valid()) ==>
        b.Valid() && b.Flat() == old(b.Flat())
    {
      hide Concat, Fold, Raw.Coherent;
      this.list, this.deepCopy := list, deepCopy;
      outOfBand, calls, start := 0, [], |list.Flat()|;
      new;
      ListKept(list);
      forall b: List | old(allocated(b)) && old(b.Valid())
        ensures b.Valid() && b.Flat() == old(b.Flat())
      {
        ListKept(b);
      }
      list.ObtainContiguousSpace(n);
      label obtained:
      pos := list.buffers[list.tailCache].End();
      forall b: List | old(allocated(b)) && old@obtained(b.Valid())
        ensures b.Valid() && b.Flat() == old@obtained(b.Flat())
      {
        ListKept@obtained(b);
      }
    }

    // append(const char*, len)
    method Append(bytes: seq<byte>)
      requires Valid() && |bytes| <= Room()
      modifies this, list.TailRaw()
      ensures Valid() && Total() == old(Total()) + bytes && Room() == old(Room()) - |bytes|
      ensures calls == old(calls) + [InPlace(|bytes|)] && list.TailRaw() == old(list.TailRaw())
      ensures forall b: List :: old(allocated(b)) && b != list && old(b.Valid()) ==>
        b.Valid() && b.Flat() == old(b.Flat())
    {
      hide Concat, Fold, List.Valid, List.Flat, Sound;
      MemCopy(bytes);
      Log(InPlace(|bytes|));
    }

    // A call is noted.
    ghost method Log(c: Call)
      requires Sound()
      modifies this`calls
      ensures Sound() && Total() == old(Total()) && Pending() == old(Pending())
      ensures calls == old(calls) + [c] && list.Flat() == old(list.Flat()) && Room() == old(Room())
      ensures forall b: List :: old(allocated(b)) && b != list && old(b.Valid()) ==>
        b.Valid() && b.Flat() == old(b.Flat())
    {
      hide Concat, Fold, Raw.Coherent;
      calls := calls + [c];
      forall b: List | old(allocated(b)) && old(b.Valid())
        ensures b.Valid() && b.Flat() == old(b.Flat())
      {
        ListKept(b);
      }
      assert calls[..|calls| - 1] == old(calls);
    }

    // memcpy to _pos
    method MemCopy(bytes: seq<byte>)
      requires Sound() && |bytes| <= Room()
      modifies this`pos, list.TailRaw()
      ensures Sound() && Total() == old(Total()) + bytes && Room() == old(Room()) - |bytes|
      ensures list.Flat() == old(list.Flat()) && Pending() == old(Pending()) + bytes
      ensures forall p: Ptr :: old(allocated(p)) && old(p.Ok()) ==> p.Ok() && p.Bytes() == old(p.Bytes())
      ensures forall b: List :: old(allocated(b)) && b != list && old(b.Valid()) ==>
        b.Valid() && b.Flat() == old(b.Flat())
    {
      hide Concat, Fold;
      var t := list.buffers[list.tailCache];
      t.raw.Scribble(pos, bytes);
      pos := pos + |bytes|;
      forall b: List | old(allocated(b)) && old(b.Valid())
        ensures b.Valid() && b.Flat() == old(b.Flat())
      {
        List.OtherKept(b);
      }
      assert Pending() == old(Pending()) + bytes;
    }

    // flush_and_continue, and all that the destructor does.
    method Flush()
      requires Sound()
      modifies this`pos, list, list.TailRaw()
      ensures Sound() && Pending() == [] && list.Flat() == old(Total()) && Room() == old(Room())
      ensures list.tailCache == old(list.tailCache) && |list.buffers| == |old(list.buffers)|
      ensures forall p: Ptr :: old(allocated(p)) && old(p.Ok()) ==> p.Ok() && p.Bytes() == old(p.Bytes())
      ensures forall b: List :: old(allocated(b)) && b != list && old(b.Valid()) ==>
        b.Valid() && b.Flat() == old(b.Flat())
    {
      hide Concat, Fold;
      var t := list.buffers[list.tailCache];
      var step := pos - t.End();
      ghost var pending := Pending();
      ghost var hole := list.ExposeInPlace(step);
      assert hole == pending;
    }

    // After something has joined the list, writing goes on where it stopped: the
    // cached node is continued behind what has joined.
    method Continue(n: nat)
      requires list.Valid() && list.tailCache >= 0 && pos == list.buffers[list.tailCache].End()
      modifies this`outOfBand, list
      ensures Sound() && Pending() == [] && list.Flat() == old(list.Flat()) && outOfBand == old(outOfBand) + n
      ensures Room() == |old(list.buffers[list.tailCache].raw.data)| - old(pos)
      ensures old(list.buffers) <= list.buffers
      ensures forall b: List :: old(allocated(b)) && b != list && old(b.Valid()) ==>
        b.Valid() && b.Flat() == old(b.Flat())
    {
      hide Concat, Fold, Raw.Coherent;
      list.ObtainContiguousSpace(0);
      label obtained:
      outOfBand := outOfBand + n;
      forall b: List | old(allocated(b)) && old@obtained(b.Valid())
        ensures b.Valid() && b.Flat() == old@obtained(b.Flat())
      {
        ListKept@obtained(b);
      }
    }

    // append(const ptr&)
    method AppendPtr(p: Ptr)
      requires Valid() && p.Ok() && (deepCopy ==> p.len <= Room())
      modifies this, list, list.TailRaw()
      ensures Valid() && Total() == old(Total()) + old(p.Bytes())
      ensures Room() == old(Room()) - if deepCopy then p.len else 0
      ensures calls == old(calls) + [if deepCopy then InPlace(p.len) else JoinPtr(p.len)]
      ensures !deepCopy && p.len > 0 ==>
        |old(list.buffers)| < |list.buffers| && list.buffers[|old(list.buffers)|] == p
      ensures forall b: List :: old(allocated(b)) && b != list && old(b.Valid()) ==>
        b.Valid() && b.Flat() == old(b.Flat())
    {
      hide Concat, Fold, List.Valid, List.Flat, Raw.Coherent, Sound;
      ghost var bytes, total := p.Bytes(), Total();
      if p.len == 0 {
        assert total + bytes == total;
      } else if deepCopy {
        MemCopy(p.raw.data[p.off..p.off + p.len]);
      } else {
        Flush();
        Shallow(p);
      }
      Log(if deepCopy then InPlace(p.len) else JoinPtr(p.len));
    }

    method Shallow(p: Ptr)
      requires Sound() && Pending() == [] && p.Ok() && p.len > 0
      modifies this`outOfBand, list
      ensures Sound() && Pending() == [] && list.Flat() == old(list.Flat()) + old(p.Bytes())
      ensures outOfBand == old(outOfBand) + p.len && Room() == old(Room())
      ensures |old(list.buffers)| < |list.buffers| && list.buffers[|old(list.buffers)|] == p
      ensures forall b: List :: old(allocated(b)) && b != list && old(b.Valid()) ==>
        b.Valid() && b.Flat() == old(b.Flat())
    {
      hide Concat, Fold, Raw.Coherent;
      AtTail();
      list.PushBack(p);
      forall b: List | old(allocated(b)) && b != list && old(b.Valid())
        ensures b.Valid() && b.Flat() == old(b.Flat())
      {
        ListKept(b);
      }
      Continue(p.len);
    }

    lemma AtTail()
      requires Sound() && Pending() == []
      ensures pos == list.buffers[list.tailCache].End()
    {
    }

    // append(const buffer_list&)
    method AppendList(other: List)
      requires Valid() && other.Valid() && other != list && (deepCopy ==> other.len <= Room())
      modifies this, list, list.TailRaw()
      ensures Valid() && Total() == old(Total()) + old(other.Flat())
      ensures Room() == old(Room()) - if deepCopy then other.len else 0
      ensures calls == old(calls) + [if deepCopy then InPlace(other.len) else JoinList(other.len)]
      ensures var n := |old(list.buffers)|; var m := |old(other.buffers)|;
        !deepCopy ==> n + m <= |list.buffers| && list.buffers[n..n + m] == old(other.buffers)
      ensures forall b: List :: old(allocated(b)) && b != list && old(b.Valid()) ==>
        b.Valid() && b.Flat() == old(b.Flat())
    {
      hide Concat, Fold, List.Valid, List.Flat, Raw.Coherent, Sound;
      other.FlatIsParts();
      if deepCopy {
        CopyNodes(other);
      } else {
        Flush();
        ShallowList(other);
      }
      Log(if deepCopy then InPlace(other.len) else JoinList(other.len));
    }

    method ShallowList(other: List)
      requires Sound() && Pending() == [] && other.Valid() && other != list
      modifies this`outOfBand, list
      ensures Sound() && Pending() == [] && list.Flat() == old(list.Flat()) + old(other.Flat())
      ensures outOfBand == old(outOfBand) + old(other.len) && Room() == old(Room())
      ensures var n := |old(list.buffers)|; var m := |old(other.buffers)|;
        n + m <= |list.buffers| && list.buffers[n..n + m] == old(other.buffers)
      ensures forall b: List :: old(allocated(b)) && b != list && old(b.Valid()) ==>
        b.Valid() && b.Flat() == old(b.Flat())
    {
      hide Concat, Fold, Raw.Coherent;
      AtTail();
      list.AppendList(other);
      Continue(other.len);
    }

    // The deep copy, node by node.
    method CopyNodes(other: List)
      requires Sound() && other.Valid() && other != list && other.len <= Room()
      modifies this`pos, list.TailRaw()
      ensures Sound() && Total() == old(Total()) + old(other.Flat()) && Room() == old(Room()) - other.len
      ensures |Pending()| == |old(Pending())| + other.len
      ensures forall b: List :: old(allocated(b)) && b != list && old(b.Valid()) ==>
        b.Valid() && b.Flat() == old(b.Flat())
    {
      hide Concat, Fold, Raw.Coherent;
      ghost var c, total := other.Parts(), Total();
      other.FlatIsParts();
      ConcatEmpty<byte>();
      assert c[..0] == [] && c[..|c|] == c && total + [] == total;
      for i := 0 to |other.buffers|
        invariant Sound() && other.Valid() && other.Parts() == c && Total() == total + Concat(c[..i])
        invariant list.TailRaw() == old(list.TailRaw())
        invariant |Pending()| == |old(Pending())| + |Concat(c[..i])| && Room() + |Concat(c[..i])| == old(Room())
        invariant forall b: List :: old(allocated(b)) && b != list && old(b.Valid()) ==>
          b.Valid() && b.Flat() == old(b.Flat())
      {
        ConcatAt(c, i);
        Assoc(total, Concat(c[..i]), c[i]);
        var p := other.buffers[i];
        var bytes := p.raw.data[p.off..p.off + p.len];
        assert bytes == c[i];
        label before:
        MemCopy(bytes);
        WindowsKept@before(other);
      }
    }

    // get_logical_offset
    function LogicalOffset(): nat
      requires Sound()
      reads this, list, RawsOf(list.buffers)
    {
      outOfBand + (pos - list.buffers[list.tailCache].End())
    }

    // The logical offset is the number of bytes appended so far exactly when no
    // call joined a ptr with bytes, or a list, over pending bytes; else it is less.
    lemma LogicalOffsetForgets()
      requires Valid()
      ensures LogicalOffset() == |Total()| - start <==> !JoinedOverPending(calls)
      ensures LogicalOffset() <= |Total()| - start
    {
      hide Concat, Fold, List.Valid, List.Flat;
      FlushedOrNot(calls);
    }
  }

  // One byte in place, then a list of one byte: two bytes appended, an offset of one.
  method OffsetFallsBehind(list: List, c: byte, other: List) returns (offset: nat, ghost appended: int)
    requires list.Valid() && other.Valid() && other != list && other.len == 1
    modifies list, set r: Raw {:trigger r.slot} | allocated(r)
    ensures offset == 1 && appended == 2
  {
    hide Concat, Fold, List.Valid, List.Flat, Raw.Coherent;
    var appender := new ContiguousAppender(list, 1, false);
    appender.Append([c]);
    assert PendingAfter([InPlace(1)]) == 1;
    appender.AppendList(other);
    offset := appender.LogicalOffset();
    appended := |appender.Total()| - appender.start;
    assert appender.calls == [InPlace(1), JoinList(1)];
  }

  const PAGE_SIZE: nat := 4096

  // Bytes go into page-aligned raws of its own; a raw joins the list when it is
  // full, and what there is of it at a flush.
  class PageAlignedAppender {
    const list: List
    const minAlloc: nat
    // _buffer: a window from the first byte that the list does not have to the
    // end of the raw; none while _pos is null
    var buffer: Option<Ptr>
    // _pos, as an offset in the raw
    var pos: nat

    ghost predicate Valid()
      reads this, list, RawsOf(list.buffers), if buffer.Some? then {buffer.value.raw} else {}
    {
      Sound() && (buffer.Some? ==> pos < buffer.value.End())
    }

    // As in the middle of append, where the raw may be full.
    ghost predicate Sound()
      reads this, list, RawsOf(list.buffers), if buffer.Some? then {buffer.value.raw} else {}
    {
      && list.Valid()
      && (buffer.Some? ==>
        var r := buffer.value.raw;
        && r.Valid() && r.owner == this && r.owner != list
        && buffer.value.off <= pos == r.used <= |r.data| == buffer.value.End()
        && r.addr % PAGE_SIZE == 0)
    }

    // Bytes that the list does not have yet.
    ghost function Pending(): seq<byte>
      requires Sound()
      reads this, list, RawsOf(list.buffers), if buffer.Some? then {buffer.value.raw} else {}
    {
      if buffer.Some? then buffer.value.raw.data[buffer.value.off..pos] else []
    }

    ghost function Total(): seq<byte>
      requires Sound()
      reads this, list, RawsOf(list.buffers), if buffer.Some? then {buffer.value.raw} else {}
    {
      list.Flat() + Pending()
    }

    constructor (list: List, minPages: nat)
      requires list.Valid()
      ensures this.list == list && minAlloc == minPages * PAGE_SIZE && Valid()
      ensures Total() == old(list.Flat()) && Pending() == []
    {
      this.list, minAlloc := list, minPages * PAGE_SIZE;
      buffer, pos := None, 0;
      new;
      ListKept(list);
    }

    // flush: what is pending joins the list, and writing goes on behind it in the
    // same raw.
    method Flush()
      requires Valid()
      modifies this, list
      ensures Valid() && Pending() == [] && list.Flat() == old(Total()) && pos == old(pos)
      ensures buffer == if old(buffer).None? then None else Some(Rest(old(buffer).value, old(pos)))
      ensures forall b: List :: old(allocated(b)) && b != list && old(b.Valid()) ==>
        b.Valid() && b.Flat() == old(b.Flat())
    {
      hide Concat, Fold, Raw.Coherent;
      if buffer.Some? && pos != buffer.value.off {
        Join();
        label joined:
        buffer := Some(Rest(buffer.value, pos));
        forall b: List | old(allocated(b)) && old@joined(b.Valid())
          ensures b.Valid() && b.Flat() == old@joined(b.Flat())
        {
          ListKept@joined(b);
        }
      }
    }

    // What is pending joins the list.
    method Join()
      requires Sound() && buffer.Some?
      modifies list
      ensures list.Valid() && list.Flat() == old(Total())
      ensures forall b: List :: old(allocated(b)) && b != list && old(b.Valid()) ==>
        b.Valid() && b.Flat() == old(b.Flat())
    {
      hide Concat, Fold, Raw.Coherent;
      var b := buffer.value;
      var written := Ptr(b.raw, b.off, pos - b.off);
      assert written.Ok() && written.Bytes() == Pending();
      list.AppendSub(written, 0, written.len);
    }

    ghost function Own(): set<Raw>
      reads this
    {
      if buffer.Some? then {buffer.value.raw} else {}
    }

    // append
    method Append(bytes: seq<byte>)
      requires Valid()
      modifies this, list, Own()
      ensures Valid() && Total() == old(Total()) + bytes
      ensures buffer.Some? ==> |Pending()| < |buffer.value.raw.data|
      ensures forall b: List :: old(allocated(b)) && b != list && old(b.Valid()) ==>
        b.Valid() && b.Flat() == old(b.Flat())
    {
      hide Concat, Fold, Raw.Coherent, PageAlignedAppender.Sound, PageAlignedAppender.Total;
      hide PageAlignedAppender.Pending;
      ghost var total := Total();
      var at: nat := 0;
      assert total + bytes[..0] == total;
      while at < |bytes|
        invariant at <= |bytes| && Valid() && Total() == total + bytes[..at]
        invariant Own() <= old(Own()) || fresh(Own())
        invariant forall b: List :: old(allocated(b)) && b != list && old(b.Valid()) ==>
          b.Valid() && b.Flat() == old(b.Flat())
      {
        if buffer.None? {
          NewPage(|bytes| - at);
        }
        var n := Fill(bytes[at..]);
        BytesGo(total, bytes, at, n);
        at := at + n;
      }
      assert bytes[..|bytes|] == bytes;
      RoomLeft();
    }

    lemma RoomLeft()
      requires Valid()
      ensures buffer.Some? ==> |Pending()| < |buffer.value.raw.data|
    {
    }

    // A new raw, big enough for n bytes and for min_pages.
    method NewPage(n: nat)
      requires Valid() && buffer.None? && n > 0
      modifies this
      ensures Valid() && buffer.Some? && fresh(Own()) && Total() == old(Total()) && Pending() == []
      ensures buffer.value.off == 0 && n <= buffer.value.len && minAlloc <= buffer.value.len
      ensures buffer.value.len == minAlloc || (buffer.value.len < n + PAGE_SIZE && buffer.value.len % PAGE_SIZE == 0)
      ensures list.Flat() == old(list.Flat())
      ensures forall b: List :: old(allocated(b)) && b != list && old(b.Valid()) ==>
        b.Valid() && b.Flat() == old(b.Flat())
    {
      hide Concat, Fold;
      var alloc := RoundUpTo(n, PAGE_SIZE);
      RoundUpFacts(n, PAGE_SIZE);
      if alloc < minAlloc {
        alloc := minAlloc;
      }
      var r := new Raw(alloc, PAGE_SIZE);
      r.owner := this;
      buffer, pos := Some(Ptr(r, 0, alloc)), 0;
      forall b: List | old(allocated(b)) && old(b.Valid())
        ensures b.Valid() && b.Flat() == old(b.Flat())
      {
        ListKept(b);
      }
    }

    // As many bytes as the raw has room for; a full raw joins the list.
    method Fill(bytes: seq<byte>) returns (n: nat)
      requires Valid() && buffer.Some? && bytes != []
      modifies this, list, Own()
      ensures 0 < n <= |bytes| && Valid() && Total() == old(Total()) + bytes[..n]
      ensures Own() <= old(Own())
      ensures forall b: List :: old(allocated(b)) && b != list && old(b.Valid()) ==>
        b.Valid() && b.Flat() == old(b.Flat())
    {
      hide Concat, Fold, Raw.Coherent, PageAlignedAppender.Sound, PageAlignedAppender.Total;
      hide PageAlignedAppender.Pending;
      n := buffer.value.End() - pos;
      if |bytes| < n {
        n := |bytes|;
      }
      Write(bytes[..n]);
      if pos == buffer.value.End() {
        Leave();
      }
    }

    // memcpy to _pos
    method Write(bytes: seq<byte>)
      requires Sound() && buffer.Some? && pos + |bytes| <= buffer.value.End()
      modifies this, Own()
      ensures Sound() && buffer == old(buffer) && pos == old(pos) + |bytes|
      ensures Total() == old(Total()) + bytes
      ensures forall b: List :: old(allocated(b)) && b != list && old(b.Valid()) ==>
        b.Valid() && b.Flat() == old(b.Flat())
    {
      hide Concat, Fold, Raw.Coherent;
      var b := buffer.value;
      ghost var before := Ptr(b.raw, b.off, pos - b.off);
      assert before.Ok() && before.Bytes() == Pending();
      b.raw.Grow(pos, bytes);
      pos := pos + |bytes|;
      forall b: List | old(allocated(b)) && old(b.Valid())
        ensures b.Valid() && b.Flat() == old(b.Flat())
      {
        List.OtherKept(b);
      }
      assert Pending() == old(Pending()) + bytes;
    }

    // The whole window joins the list.
    method Leave()
      requires Sound() && buffer.Some? && pos == buffer.value.End()
      modifies this, list
      ensures Valid() && buffer.None? && Total() == old(Total())
      ensures forall b: List :: old(allocated(b)) && b != list && old(b.Valid()) ==>
        b.Valid() && b.Flat() == old(b.Flat())
    {
      hide Concat, Fold, Raw.Coherent;
      Join();
      label joined:
      buffer := None;
      forall b: List | old(allocated(b)) && old@joined(b.Valid())
        ensures b.Valid() && b.Flat() == old@joined(b.Flat())
      {
        ListKept@joined(b);
      }
    }
  }

  // A window from place at on.
  function Rest(p: Ptr, at: nat): Ptr
    requires p.off <= at <= p.End()
  {
    Ptr(p.raw, at, p.End() - at)
  }

  lemma BytesGo(total: seq<byte>, bytes: seq<byte>, at: nat, n: nat)
    requires at + n <= |bytes|
    ensures total + bytes[..at] + bytes[at..][..n] == total + bytes[..at + n]
  {
  }
}
