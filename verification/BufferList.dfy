// buffer::list, a rope of windows onto shared raws.
module BufferList {
  import opened Bits
  import opened Crc
  import opened Crc32c
  import opened Rope
  import opened BufferRaw
  import opened BufferCells

  const ALLOC_UNIT: nat := 4096

  // sizeof(raw_combined), which an allocation unit must exceed.
  type HeaderSize = h: nat | 0 < h < ALLOC_UNIT witness 1

  // round_up_to
  function RoundUpTo(n: nat, d: nat): (r: nat)
    requires d > 0
  {
    if n % d != 0 then n + d - n % d else n
  }

  // The capacity of new append space: with the header, the fewest whole units that
  // hold the bytes wanted, in words of eight.
  ghost predicate IsRefill(capacity: nat, want: nat, header: nat) {
    && (capacity + header) % ALLOC_UNIT == 0
    && exists words: nat :: want <= 8 * words < want + 8 && 8 * words <= capacity < 8 * words + ALLOC_UNIT
  }

  class List {
    const header: HeaderSize
    // _buffers, in chain order
    var buffers: seq<Ptr>
    // _tail_pnode_cache: the index of the cached node, or -1 for always_empty_bptr
    var tailCache: int
    var len: nat
    var num: nat

    ghost predicate Valid()
      reads this, RawsOf(buffers)
    {
      Shape() && TailOwnedBy(this)
    }

    // The running length and node count are exact.
    ghost predicate Shape()
      reads this, RawsOf(buffers)
    {
      && AllOk(buffers)
      && len == |Concat(Chunks(buffers))|
      && num == |buffers|
      && -1 <= tailCache < |buffers|
    }

    // The bytes of the list.
    ghost function Flat(): seq<byte>
      requires Valid()
      reads this, RawsOf(buffers)
    {
      Concat(Parts())
    }

    // The bytes of each node.
    ghost function Parts(): (c: seq<seq<byte>>)
      requires Valid()
      reads this, RawsOf(buffers)
      ensures |c| == |buffers|
    {
      Chunks(buffers)
    }

    lemma FlatIsParts()
      requires Valid()
      ensures Flat() == Concat(Parts()) && len == |Flat()| && |Parts()| == |buffers|
    {
    }

    // A tail cache with room is the only place where the raw may grow, and the
    // owner is the only list that may grow it.
    ghost predicate TailOwnedBy(owner: List)
      requires AllOk(buffers) && -1 <= tailCache < |buffers|
      reads this, RawsOf(buffers)
    {
      tailCache >= 0 ==>
        var t := buffers[tailCache];
        t.Spare() > 0 ==> t.raw.owner == owner && t.End() == t.raw.used
    }

    // get_append_buffer_unused_tail_length
    function Gap(): nat
      requires Valid()
      reads this, RawsOf(buffers)
    {
      if tailCache < 0 then 0 else buffers[tailCache].Spare()
    }

    ghost function TailRaw(): set<Raw>
      reads this
    {
      if 0 <= tailCache < |buffers| then {buffers[tailCache].raw} else {}
    }

    constructor (header: HeaderSize)
      ensures Valid() && Flat() == [] && buffers == [] && tailCache == -1 && this.header == header
      ensures forall b: List :: old(allocated(b)) && old(b.Valid()) ==> b.Valid() && b.Flat() == old(b.Flat())
    {
      this.header := header;
      buffers, tailCache, len, num := [], -1, 0, 0;
      new;
      forall b: List | old(allocated(b)) && old(b.Valid())
        ensures b.Valid() && b.Flat() == old(b.Flat())
      {
        OtherKept(b);
      }
    }

    // ----- The tail cache -----

    // set_length on the last node, with _len.
    method WidenLast(n: nat, ghost added: seq<byte>)
      requires Shape() && buffers != []
      requires var t := buffers[|buffers| - 1];
        t.End() + n <= t.raw.used && added == t.raw.data[t.End()..t.End() + n]
      modifies this`buffers, this`len
      ensures Shape() && Concat(Chunks(buffers)) == old(Concat(Chunks(buffers))) + added
      ensures |buffers| == |old(buffers)|
      ensures var last := |buffers| - 1; var t := old(buffers)[last];
        buffers == old(buffers)[last := t.(len := t.len + n)]
      ensures forall p: Ptr :: old(allocated(p)) && old(p.Ok()) ==> p.Ok() && p.Bytes() == old(p.Bytes())
      ensures forall b: List :: old(allocated(b)) && b != this && old(b.Valid()) ==>
        b.Valid() && b.Flat() == old(b.Flat())
    {
      hide Concat, Fold, Raw.Coherent;
      var last := |buffers| - 1;
      var t := buffers[last];
      ghost var before := Chunks(buffers);
      buffers := buffers[last := t.(len := t.len + n)];
      len := len + n;
      assert buffers[last].Bytes() == before[last] + added;
      assert Chunks(buffers) == before[last := before[last] + added];
      LastChunkGrows(before, added);
      forall b: List | old(allocated(b)) && b != this && old(b.Valid())
        ensures b.Valid() && b.Flat() == old(b.Flat())
      {
        OtherKept(b);
      }
    }

    // ptr::append on the cached node, which is the last one.
    method AppendInPlace(src: seq<byte>)
      requires Valid()
      requires tailCache == |buffers| - 1 && 0 < |src| <= Gap()
      modifies this`buffers, this`len, TailRaw()
      ensures Valid() && tailCache == |buffers| - 1
      ensures Flat() == old(Flat()) + src
      ensures var t := old(buffers)[tailCache]; buffers == old(buffers)[tailCache := t.(len := t.len + |src|)]
      ensures Gap() == old(Gap()) - |src|
      ensures CellsOf(buffers) ==
        old(CellsOf(buffers)) + CellsIn(Ptr(old(buffers[tailCache].raw), old(buffers[tailCache].End()), |src|))
      ensures CellsOf(old(buffers)) <= CellsOf(buffers)
      ensures forall p: Ptr, k :: old(allocated(p)) && old(p.Ok()) ==>
        |CellsOf(old(buffers))| <= k < |CellsOf(buffers)| ==> !Shows(p, CellsOf(buffers)[k])
      ensures forall k, l :: |CellsOf(old(buffers))| <= k < l < |CellsOf(buffers)| ==>
        CellsOf(buffers)[k] != CellsOf(buffers)[l]
      ensures forall p: Ptr :: old(allocated(p)) && old(p.Ok()) ==> p.Ok() && p.Bytes() == old(p.Bytes())
      ensures forall b: List :: old(allocated(b)) && b != this && old(b.Valid()) ==>
        b.Valid() && b.Flat() == old(b.Flat())
      ensures TailRaw() == old(TailRaw())
    {
      hide Concat, Fold, Raw.Coherent, CellsOf;
      LastCellsGrow(buffers, |src|);
      WriteTail(src);
      WidenLast(|src|, src);
    }

    // Bytes are written behind the cached node; the list does not show them yet.
    method WriteTail(src: seq<byte>)
      requires Valid() && tailCache >= 0 && 0 < |src| <= Gap()
      modifies TailRaw()
      ensures Shape() && Chunks(buffers) == old(Chunks(buffers))
      ensures var t := buffers[tailCache];
        t.raw.owner == this && t.End() + |src| == t.raw.used && src == t.raw.data[t.End()..t.raw.used]
      ensures |buffers[tailCache].raw.data| == old(|buffers[tailCache].raw.data|)
      ensures forall p: Ptr :: old(allocated(p)) && old(p.Ok()) ==> p.Ok() && p.Bytes() == old(p.Bytes())
      ensures forall b: List :: old(allocated(b)) && b != this && old(b.Valid()) ==>
        b.Valid() && b.Flat() == old(b.Flat())
    {
      hide Concat, Fold, Raw.Coherent;
      ghost var before := Chunks(buffers);
      var t := buffers[tailCache];
      t.raw.Grow(t.End(), src);
      assert Chunks(buffers) == before;
      forall b: List | old(allocated(b)) && b != this && old(b.Valid())
        ensures b.Valid() && b.Flat() == old(b.Flat())
      {
        OtherKept(b);
      }
    }

    // set_length on the cached node, which is the last one: n bytes of the raw
    // join the list as they are.
    method ExposeInPlace(n: nat) returns (ghost hole: seq<byte>)
      requires Valid()
      requires 0 <= tailCache == |buffers| - 1 && n <= Gap()
      modifies this`buffers, this`len, TailRaw()`used
      ensures Valid() && tailCache == |buffers| - 1
      ensures |hole| == n && Flat() == old(Flat()) + hole
      ensures var t := old(buffers)[tailCache];
        && buffers == old(buffers)[tailCache := t.(len := t.len + n)] && t.raw.data == old(t.raw.data)
        && t.End() + n <= |t.raw.data| && hole == t.raw.data[t.End()..t.End() + n]
        && (n > 0 ==> old(t.raw.used) == t.End())
      ensures Gap() == old(Gap()) - n
      ensures forall p: Ptr :: old(allocated(p)) && old(p.Ok()) ==> p.Ok() && p.Bytes() == old(p.Bytes())
      ensures forall b: List :: old(allocated(b)) && b != this && old(b.Valid()) ==>
        b.Valid() && b.Flat() == old(b.Flat())
      ensures TailRaw() == old(TailRaw())
    {
      hide Concat, Fold, Raw.Coherent;
      hole := ExposeTail(n);
      WidenLast(n, hole);
    }

    // Bytes behind the cached node are handed out; the list does not show them yet.
    method ExposeTail(n: nat) returns (ghost hole: seq<byte>)
      requires Valid() && tailCache >= 0 && n <= Gap()
      modifies TailRaw()`used
      ensures Shape() && Chunks(buffers) == old(Chunks(buffers))
      ensures var t := buffers[tailCache];
        && t.raw.data == old(t.raw.data) && t.End() + n <= t.raw.used && hole == t.raw.data[t.End()..t.End() + n]
        && (t.Spare() > 0 ==> t.raw.owner == this && old(t.raw.used) == t.End() && t.End() + n == t.raw.used)
      ensures forall p: Ptr :: old(allocated(p)) && old(p.Ok()) ==> p.Ok() && p.Bytes() == old(p.Bytes())
      ensures forall b: List :: old(allocated(b)) && b != this && old(b.Valid()) ==>
        b.Valid() && b.Flat() == old(b.Flat())
    {
      hide Concat, Fold, Raw.Coherent;
      ghost var before := Chunks(buffers);
      var t := buffers[tailCache];
      hole := t.raw.data[t.End()..t.End() + n];
      if n > 0 {
        t.raw.Expose(t.End(), n);
      }
      assert Chunks(buffers) == before;
      forall b: List | old(allocated(b)) && b != this && old(b.Valid())
        ensures b.Valid() && b.Flat() == old(b.Flat())
      {
        OtherKept(b);
      }
    }

    // The cached node becomes node i, or none.
    method SetTailCache(i: int)
      requires Valid() && -1 <= i < |buffers|
      requires i >= 0 ==>
        var t := buffers[i]; t.Spare() > 0 ==> t.raw.owner == this && t.End() == t.raw.used
      modifies this`tailCache
      ensures Valid() && tailCache == i && Flat() == old(Flat())
      ensures forall p: Ptr :: old(allocated(p)) && old(p.Ok()) ==> p.Ok() && p.Bytes() == old(p.Bytes())
      ensures forall b: List :: old(allocated(b)) && b != this && old(b.Valid()) ==>
        b.Valid() && b.Flat() == old(b.Flat())
    {
      hide Concat, Fold, Raw.Coherent;
      ghost var before := Chunks(buffers);
      tailCache := i;
      assert Chunks(buffers) == before;
      forall b: List | old(allocated(b)) && b != this && old(b.Valid())
        ensures b.Valid() && b.Flat() == old(b.Flat())
      {
        OtherKept(b);
      }
    }

    // When other nodes follow the cached one, continue it in a new last node.
    method SyncTail()
      requires Valid() && tailCache >= 0
      modifies this
      ensures Valid() && 0 <= tailCache == |buffers| - 1
      ensures buffers[tailCache].End() == old(buffers[tailCache].End())
      ensures buffers[tailCache].raw == old(buffers[tailCache].raw)
      ensures Flat() == old(Flat()) && Gap() == old(Gap()) && TailRaw() == old(TailRaw())
      ensures var t := old(buffers[tailCache]);
        buffers == old(buffers) + if old(tailCache) == |old(buffers)| - 1 then [] else [Ptr(t.raw, t.End(), 0)]
      ensures forall p: Ptr :: old(allocated(p)) && old(p.Ok()) ==> p.Ok() && p.Bytes() == old(p.Bytes())
      ensures forall b: List :: old(allocated(b)) && b != this && old(b.Valid()) ==>
        b.Valid() && b.Flat() == old(b.Flat())
    {
      hide Concat, Fold, Raw.Coherent;
      if tailCache != |buffers| - 1 {
        var t := buffers[tailCache];
        var p := Ptr(t.raw, t.End(), 0);
        assert p.Bytes() == [];
        AddNode(p);
        SetTailCache(|buffers| - 1);
      }
    }

    // _buffers.push_back of a new node, with _len and _num.
    method AddNode(p: Ptr)
      requires Valid() && p.Ok()
      modifies this`buffers, this`len, this`num
      ensures Valid() && buffers == old(buffers) + [p]
      ensures Flat() == old(Flat()) + p.Bytes()
      ensures forall p: Ptr :: old(allocated(p)) && old(p.Ok()) ==> p.Ok() && p.Bytes() == old(p.Bytes())
      ensures forall b: List :: old(allocated(b)) && b != this && old(b.Valid()) ==>
        b.Valid() && b.Flat() == old(b.Flat())
    {
      hide Concat, Fold, Raw.Coherent;
      ghost var before := Chunks(buffers);
      buffers := buffers + [p];
      len := len + p.len;
      num := num + 1;
      assert Chunks(buffers) == before + [p.Bytes()];
      ConcatSnoc(before, p.Bytes());
      forall b: List | old(allocated(b)) && b != this && old(b.Valid())
        ensures b.Valid() && b.Flat() == old(b.Flat())
      {
        OtherKept(b);
      }
    }

    // A new raw with room for capacity bytes becomes the cached last node.
    method AddTail(capacity: nat, align: nat)
      requires Valid() && align > 0
      modifies this
      ensures Valid() && 0 <= tailCache == |buffers| - 1
      ensures fresh(TailRaw()) && Gap() == capacity
      ensures Flat() == old(Flat())
      ensures buffers == old(buffers) + [Ptr(buffers[tailCache].raw, 0, 0)] && buffers[tailCache].IsAligned(align)
      ensures buffers[tailCache].raw.slot.NoCrc?
      ensures forall p: Ptr :: old(allocated(p)) && old(p.Ok()) ==> p.Ok() && p.Bytes() == old(p.Bytes())
      ensures forall b: List :: old(allocated(b)) && b != this && old(b.Valid()) ==>
        b.Valid() && b.Flat() == old(b.Flat())
    {
      hide Concat, Fold;
      var r := new Raw(capacity, align);
      var p := Ptr(r, 0, 0);
      r.owner := this;
      assert r !in RawsOf(buffers) && Valid();
      forall b: List | old(allocated(b)) && b != this && old(b.Valid())
        ensures b.Valid() && b.Flat() == old(b.Flat())
      {
        OtherKept(b);
      }
      assert p.Bytes() == [];
      AddNode(p);
      SetTailCache(|buffers| - 1);
    }

    // refill_append_space
    method RefillAppendSpace(want: nat)
      requires Valid()
      modifies this
      ensures Valid() && 0 <= tailCache == |buffers| - 1
      ensures fresh(TailRaw()) && Gap() >= want && buffers[tailCache].raw.slot.NoCrc?
      ensures Flat() == old(Flat()) && buffers == old(buffers) + [Ptr(buffers[tailCache].raw, 0, 0)]
      ensures IsRefill(Gap(), want, header)
      ensures forall p: Ptr :: old(allocated(p)) && old(p.Ok()) ==> p.Ok() && p.Bytes() == old(p.Bytes())
      ensures forall b: List :: old(allocated(b)) && b != this && old(b.Valid()) ==>
        b.Valid() && b.Flat() == old(b.Flat())
    {
      hide List.Valid, List.Shape, Ptr.Ok, Ptr.Bytes, Concat, TailOwnedBy, List.Flat;
      RoundUpFacts(want, 8);
      RoundUpFacts(RoundUpTo(want, 8) + header, ALLOC_UNIT);
      hide RoundUpTo;
      var need := RoundUpTo(want, 8) + header;
      var alen := RoundUpTo(need, ALLOC_UNIT) - header;
      assert RoundUpTo(want, 8) == 8 * (RoundUpTo(want, 8) / 8);
      AddTail(alen, 8);
    }

    // reserve
    method Reserve(preAllocSize: nat)
      requires Valid()
      modifies this
      ensures Valid() && Flat() == old(Flat()) && Gap() >= preAllocSize
      ensures old(Gap()) >= preAllocSize ==> buffers == old(buffers) && tailCache == old(tailCache)
      ensures old(Gap()) < preAllocSize ==>
        && tailCache == |old(buffers)| && buffers == old(buffers) + [Ptr(buffers[tailCache].raw, 0, 0)]
        && fresh(TailRaw()) && buffers[tailCache].IsAligned(ALLOC_UNIT) && Gap() == preAllocSize
      ensures forall p: Ptr :: old(allocated(p)) && old(p.Ok()) ==> p.Ok() && p.Bytes() == old(p.Bytes())
      ensures forall b: List :: old(allocated(b)) && b != this && old(b.Valid()) ==>
        b.Valid() && b.Flat() == old(b.Flat())
      ensures TailRaw() == old(TailRaw()) || fresh(TailRaw())
    {
      hide Concat, Fold, Raw.Coherent;
      if Gap() < preAllocSize {
        AddTail(preAllocSize, ALLOC_UNIT);
      }
    }

    // obtain_contiguous_space: room for n bytes at the end of the last node,
    // which is the cached one.
    method ObtainContiguousSpace(n: nat)
      requires Valid() && (n > 0 || tailCache >= 0)
      modifies this
      ensures Valid() && 0 <= tailCache == |buffers| - 1 && Gap() >= n && Flat() == old(Flat())
      ensures old(Gap()) >= n ==>
        && buffers[tailCache].End() == old(buffers[tailCache].End())
        && buffers[tailCache].raw == old(buffers[tailCache].raw)
      ensures old(Gap()) < n ==>
        buffers == old(buffers) + [Ptr(buffers[tailCache].raw, 0, 0)] && fresh(TailRaw()) && Gap() == n
      ensures old(buffers) <= buffers
      ensures forall p: Ptr :: old(allocated(p)) && old(p.Ok()) ==> p.Ok() && p.Bytes() == old(p.Bytes())
      ensures forall b: List :: old(allocated(b)) && b != this && old(b.Valid()) ==>
        b.Valid() && b.Flat() == old(b.Flat())
      ensures TailRaw() == old(TailRaw()) || fresh(TailRaw())
    {
      hide Concat, Fold, Raw.Coherent;
      if Gap() < n {
        AddTail(n, 8);
      } else {
        SyncTail();
      }
    }

    // ----- Appending -----

    // append(char)
    method AppendChar(c: byte)
      requires Valid()
      modifies this, TailRaw()
      ensures Valid() && Flat() == old(Flat()) + [c] && tailCache >= 0
      ensures if old(Gap()) > 0 then TailRaw() == old(TailRaw())
              else fresh(TailRaw()) && Gap() == ALLOC_UNIT - header - 1
      ensures CellsOf(old(buffers)) <= CellsOf(buffers)
      ensures forall p: Ptr, k :: old(allocated(p)) && old(p.Ok()) ==>
        |CellsOf(old(buffers))| <= k < |CellsOf(buffers)| ==> !Shows(p, CellsOf(buffers)[k])
      ensures forall k, l :: |CellsOf(old(buffers))| <= k < l < |CellsOf(buffers)| ==>
        CellsOf(buffers)[k] != CellsOf(buffers)[l]
      ensures forall p: Ptr :: old(allocated(p)) && old(p.Ok()) ==> p.Ok() && p.Bytes() == old(p.Bytes())
      ensures forall b: List :: old(allocated(b)) && b != this && old(b.Valid()) ==>
        b.Valid() && b.Flat() == old(b.Flat())
      ensures TailRaw() == old(TailRaw()) || fresh(TailRaw())
    {
      hide List.Valid, List.Shape, Ptr.Ok, Ptr.Bytes, Concat, TailOwnedBy, List.Flat, CellsOf;
      if Gap() == 0 {
        AddTail(ALLOC_UNIT - header, 8);
      } else {
        SyncTail();
      }
      EmptyNode(old(buffers), buffers);
      LastCellsGrow(buffers, 1);
      AppendInPlace([c]);
    }

    // append(const char*, len)
    method AppendData(data: seq<byte>)
      requires Valid()
      modifies this, TailRaw()
      ensures Valid() && Flat() == old(Flat()) + data
      ensures CellsOf(old(buffers)) <= CellsOf(buffers)
      ensures forall p: Ptr, k :: old(allocated(p)) && old(p.Ok()) ==>
        |CellsOf(old(buffers))| <= k < |CellsOf(buffers)| ==> !Shows(p, CellsOf(buffers)[k])
      ensures forall k, l :: |CellsOf(old(buffers))| <= k < l < |CellsOf(buffers)| ==>
        CellsOf(buffers)[k] != CellsOf(buffers)[l]
      ensures forall p: Ptr :: old(allocated(p)) && old(p.Ok()) ==> p.Ok() && p.Bytes() == old(p.Bytes())
      ensures forall b: List :: old(allocated(b)) && b != this && old(b.Valid()) ==>
        b.Valid() && b.Flat() == old(b.Flat())
      ensures TailRaw() == old(TailRaw()) || fresh(TailRaw())
      ensures FillsGap(old(buffers), old(tailCache), old(Gap()), |data|)
      ensures |data| > old(Gap()) ==>
        && fresh(TailRaw()) && tailCache == |buffers| - 1
        && IsRefill(Gap() + |data| - old(Gap()), |data| - old(Gap()), header)
    {
      hide List.Valid, List.Shape, Ptr.Ok, Ptr.Bytes, Concat, TailOwnedBy, List.Flat, CellsOf;
      CacheInside();
      var first := if |data| < Gap() then |data| else Gap();
      if first > 0 {
        FillGap(data[..first]);
      }
      FillsSoFar(old(buffers), old(tailCache), first);
      assert data == data[..first] + data[first..];
      if first < |data| {
        Sides();
        ghost var mid := buffers;
        FillNew(data[first..]);
        SeenNotNew(mid, CellsOf(buffers));
      }
    }

    // append_zero
    method AppendZero(n: nat)
      requires Valid()
      modifies this, TailRaw()
      ensures Valid() && Flat() == old(Flat()) + ZeroBytes(n)
      ensures CellsOf(old(buffers)) <= CellsOf(buffers)
      ensures forall p: Ptr, k :: old(allocated(p)) && old(p.Ok()) ==>
        |CellsOf(old(buffers))| <= k < |CellsOf(buffers)| ==> !Shows(p, CellsOf(buffers)[k])
      ensures forall k, l :: |CellsOf(old(buffers))| <= k < l < |CellsOf(buffers)| ==>
        CellsOf(buffers)[k] != CellsOf(buffers)[l]
      ensures forall p: Ptr :: old(allocated(p)) && old(p.Ok()) ==> p.Ok() && p.Bytes() == old(p.Bytes())
      ensures forall b: List :: old(allocated(b)) && b != this && old(b.Valid()) ==>
        b.Valid() && b.Flat() == old(b.Flat())
      ensures TailRaw() == old(TailRaw()) || fresh(TailRaw())
      ensures FillsGap(old(buffers), old(tailCache), old(Gap()), n)
      ensures n > old(Gap()) ==>
        && fresh(TailRaw()) && tailCache == |buffers| - 1
        && IsRefill(Gap() + n - old(Gap()), n - old(Gap()), header)
    {
      hide List.Valid, List.Shape, Ptr.Ok, Ptr.Bytes, Concat, TailOwnedBy, List.Flat, CellsOf;
      CacheInside();
      var first := if n < Gap() then n else Gap();
      if first > 0 {
        FillGap(ZeroBytes(first));
      }
      FillsSoFar(old(buffers), old(tailCache), first);
      assert ZeroBytes(n) == ZeroBytes(first) + ZeroBytes(n - first);
      if first < n {
        Sides();
        ghost var mid := buffers;
        FillNew(ZeroBytes(n - first));
        SeenNotNew(mid, CellsOf(buffers));
      }
    }

    // Of n bytes appended, as many as the cached node had room for went there; a
    // cached node that is not the last takes a new node for them, and so does the
    // rest.
    ghost predicate FillsGap(was: seq<Ptr>, cache: int, gap: nat, n: nat)
      requires -1 <= cache < |was|
      reads this
    {
      var first := if n < gap then n else gap;
      && (cache >= 0 ==> CellsOf(was) + CellsIn(Ptr(was[cache].raw, was[cache].End(), first)) <= CellsOf(buffers))
      && |buffers| == |was| + (if first > 0 && cache != |was| - 1 then 1 else 0) + if gap < n then 1 else 0
    }

    lemma CacheInside()
      requires Valid()
      ensures -1 <= tailCache < |buffers|
    {
    }

    lemma FillsSoFar(was: seq<Ptr>, cache: int, first: nat)
      requires -1 <= cache < |was|
      requires if first == 0 then buffers == was
               else
                 cache >= 0 &&
                 CellsOf(buffers) == CellsOf(was) + CellsIn(Ptr(was[cache].raw, was[cache].End(), first))
      ensures cache >= 0 ==>
        CellsOf(was) + CellsIn(Ptr(was[cache].raw, was[cache].End(), first)) == CellsOf(buffers)
    {
    }

    // Bytes that the cached node has room for.
    method FillGap(data: seq<byte>)
      requires Valid() && 0 < |data| <= Gap()
      modifies this, TailRaw()
      ensures Valid() && Flat() == old(Flat()) + data
      ensures old(tailCache) >= 0 && 0 <= tailCache == |buffers| - 1 && Gap() == old(Gap()) - |data|
      ensures CellsOf(buffers) ==
        old(CellsOf(buffers)) + CellsIn(Ptr(old(buffers[tailCache].raw), old(buffers[tailCache].End()), |data|))
      ensures |buffers| == |old(buffers)| + if old(tailCache) == |old(buffers)| - 1 then 0 else 1
      ensures CellsOf(old(buffers)) <= CellsOf(buffers)
      ensures forall p: Ptr, k :: old(allocated(p)) && old(p.Ok()) ==>
        |CellsOf(old(buffers))| <= k < |CellsOf(buffers)| ==> !Shows(p, CellsOf(buffers)[k])
      ensures forall k, l :: |CellsOf(old(buffers))| <= k < l < |CellsOf(buffers)| ==>
        CellsOf(buffers)[k] != CellsOf(buffers)[l]
      ensures forall p: Ptr :: old(allocated(p)) && old(p.Ok()) ==> p.Ok() && p.Bytes() == old(p.Bytes())
      ensures forall b: List :: old(allocated(b)) && b != this && old(b.Valid()) ==>
        b.Valid() && b.Flat() == old(b.Flat())
      ensures TailRaw() == old(TailRaw())
    {
      hide List.Valid, List.Shape, Ptr.Ok, Ptr.Bytes, Concat, TailOwnedBy, List.Flat, CellsOf;
      SyncTail();
      EmptyNode(old(buffers), buffers);
      AppendInPlace(data);
    }

    // Bytes in new append space.
    method FillNew(data: seq<byte>)
      requires Valid() && data != []
      modifies this
      ensures Valid() && Flat() == old(Flat()) + data
      ensures 0 <= tailCache == |buffers| - 1 && IsRefill(Gap() + |data|, |data|, header)
      ensures |buffers| == |old(buffers)| + 1
      ensures CellsOf(old(buffers)) <= CellsOf(buffers)
      ensures forall p: Ptr, k :: old(allocated(p)) && old(p.Ok()) ==>
        |CellsOf(old(buffers))| <= k < |CellsOf(buffers)| ==> !Shows(p, CellsOf(buffers)[k])
      ensures forall k, l :: |CellsOf(old(buffers))| <= k < l < |CellsOf(buffers)| ==>
        CellsOf(buffers)[k] != CellsOf(buffers)[l]
      ensures forall p: Ptr :: old(allocated(p)) && old(p.Ok()) ==> p.Ok() && p.Bytes() == old(p.Bytes())
      ensures forall b: List :: old(allocated(b)) && b != this && old(b.Valid()) ==>
        b.Valid() && b.Flat() == old(b.Flat())
      ensures fresh(TailRaw())
    {
      hide List.Valid, List.Shape, Ptr.Ok, Ptr.Bytes, Concat, TailOwnedBy, List.Flat, CellsOf;
      RefillAppendSpace(|data|);
      EmptyNode(old(buffers), buffers);
      AppendInPlace(data);
    }

    lemma CachedRaw()
      requires Valid() && tailCache >= 0
      ensures var t := buffers[tailCache];
        && t.raw.Valid() && t.End() <= t.raw.used && (t.raw.slot.NoCrc? || t.raw.slot.to <= t.raw.used)
    {
    }

    // append_hole: n bytes whose values are left to a filler, in a place that no
    // window showed before.
    method AppendHole(n: nat) returns (ghost hole: seq<byte>, raw: Raw, pos: nat)
      requires Valid() && (n > 0 || tailCache >= 0)
      modifies this, TailRaw()
      ensures Valid() && |hole| == n && Flat() == old(Flat()) + hole
      ensures CellsOf(buffers) == old(CellsOf(buffers)) + CellsIn(Ptr(raw, pos, n))
      ensures 0 <= tailCache == |buffers| - 1
      ensures if n <= old(Gap()) then tailCache >= 0 && old(tailCache) >= 0 &&
                raw == old(buffers[tailCache].raw) && pos == old(buffers[tailCache].End())
              else pos == 0 && fresh(raw) && IsRefill(Gap() + n, n, header)
      ensures Ptr(raw, pos, n).Ok() && Untouched(raw.slot, pos, n)
      ensures CellsOf(old(buffers)) <= CellsOf(buffers)
      ensures forall p: Ptr, k :: old(allocated(p)) && old(p.Ok()) ==>
        |CellsOf(old(buffers))| <= k < |CellsOf(buffers)| ==> !Shows(p, CellsOf(buffers)[k])
      ensures forall k, l :: |CellsOf(old(buffers))| <= k < l < |CellsOf(buffers)| ==>
        CellsOf(buffers)[k] != CellsOf(buffers)[l]
      ensures forall p: Ptr :: old(allocated(p)) && old(p.Ok()) ==> p.Ok() && p.Bytes() == old(p.Bytes())
      ensures forall b: List :: old(allocated(b)) && b != this && old(b.Valid()) ==>
        b.Valid() && b.Flat() == old(b.Flat())
      ensures TailRaw() == old(TailRaw()) || fresh(TailRaw())
    {
      hide List.Valid, List.Shape, Ptr.Bytes, Concat, TailOwnedBy, List.Flat, CellsOf, Raw.Coherent;
      ghost var was := buffers;
      if Gap() < n {
        RefillAppendSpace(n);
      } else {
        SyncTail();
      }
      ghost var mid := buffers;
      EmptyNode(was, mid);
      raw, pos := buffers[tailCache].raw, buffers[tailCache].End();
      LastCellsGrow(mid, n);
      CachedRaw();
      hole := ExposeInPlace(n);
      CachedRaw();
    }

    // append(const ptr&) and push_back(const ptr&)
    method PushBack(p: Ptr)
      requires Valid() && p.Ok()
      modifies this
      ensures Valid() && Flat() == old(Flat()) + p.Bytes()
      ensures tailCache == old(tailCache) && buffers == if p.len > 0 then old(buffers) + [p] else old(buffers)
    {
      assert p.len == 0 ==> p.Bytes() == [];
      if p.len > 0 {
        AddNode(p);
      }
    }

    // push_back(ptr&&)
    method PushBackMoved(p: Ptr)
      requires Valid() && p.Ok()
      modifies this
      ensures Valid() && Flat() == old(Flat()) + p.Bytes()
      ensures if p.len > 0 then tailCache == -1 && buffers == old(buffers) + [p]
              else tailCache == old(tailCache) && buffers == old(buffers)
    {
      assert p.len == 0 ==> p.Bytes() == [];
      if p.len > 0 {
        AddNode(p);
        SetTailCache(-1);
      }
    }

    // set_length on the last node over bytes that have been handed out.
    method ExtendLast(n: nat, ghost added: seq<byte>)
      requires Valid() && buffers != []
      requires var t := buffers[|buffers| - 1];
        t.End() + n <= t.raw.used && added == t.raw.data[t.End()..t.End() + n]
      modifies this`buffers, this`len
      ensures Valid() && Flat() == old(Flat()) + added
      ensures var last := |old(buffers)| - 1; var t := old(buffers)[last];
        buffers == old(buffers)[last := t.(len := t.len + n)]
      ensures forall p: Ptr :: old(allocated(p)) && old(p.Ok()) ==> p.Ok() && p.Bytes() == old(p.Bytes())
      ensures forall b: List :: old(allocated(b)) && b != this && old(b.Valid()) ==>
        b.Valid() && b.Flat() == old(b.Flat())
    {
      hide Concat, Fold, Raw.Coherent;
      WidenLast(n, added);
    }

    // append(const ptr&, off, len): extends the last window when p continues it.
    method AppendSub(p: Ptr, off: nat, n: nat)
      requires Valid() && p.Ok() && off + n <= p.len
      modifies this
      ensures Valid() && tailCache == old(tailCache)
      ensures Flat() == old(Flat()) + p.Bytes()[off..off + n]
      ensures buffers == Joined(old(buffers), Ptr(p.raw, p.off + off, n))
      ensures var k := |old(buffers)| - 1;
        if k >= 0 && old(buffers)[k].raw == p.raw && old(buffers)[k].End() == p.off + off then
          |buffers| == k + 1 && buffers[..k] == old(buffers)[..k] &&
          buffers[k] == Ptr(p.raw, old(buffers)[k].off, old(buffers)[k].len + n)
        else
          buffers == old(buffers) + [Ptr(p.raw, p.off + off, n)]
      ensures forall p: Ptr :: old(allocated(p)) && old(p.Ok()) ==> p.Ok() && p.Bytes() == old(p.Bytes())
      ensures forall b: List :: old(allocated(b)) && b != this && old(b.Valid()) ==>
        b.Valid() && b.Flat() == old(b.Flat())
    {
      hide Concat, Fold, List.Flat, List.TailOwnedBy;
      var q := Ptr(p.raw, p.off + off, n);
      SubWindow(p, off, n);
      if buffers != [] {
        var last := |buffers| - 1;
        var t := buffers[last];
        if t.raw == p.raw && t.End() == q.off {
          ExtendLast(n, q.Bytes());
          return;
        }
      }
      AddNode(q);
    }

    // append(const buffer_list&)
    method AppendList(other: List)
      requires Valid() && other.Valid() && other != this
      modifies this`buffers, this`len, this`num
      ensures Valid() && tailCache == old(tailCache)
      ensures Flat() == old(Flat()) + old(other.Flat()) && buffers == old(buffers) + old(other.buffers)
      ensures forall p: Ptr :: old(allocated(p)) && old(p.Ok()) ==> p.Ok() && p.Bytes() == old(p.Bytes())
      ensures forall b: List :: old(allocated(b)) && b != this && old(b.Valid()) ==>
        b.Valid() && b.Flat() == old(b.Flat())
    {
      hide Concat, Fold, Raw.Coherent;
      ghost var before, theirs := Chunks(buffers), Chunks(other.buffers);
      buffers := buffers + other.buffers;
      len := len + other.len;
      num := num + other.num;
      assert Chunks(buffers) == before + theirs;
      ConcatAppend(before, theirs);
      forall b: List | old(allocated(b)) && b != this && old(b.Valid())
        ensures b.Valid() && b.Flat() == old(b.Flat())
      {
        OtherKept(b);
      }
    }

    // ----- Copying, moving and claiming -----

    method Clear()
      modifies this
      ensures Valid() && Flat() == [] && tailCache == -1 && buffers == [] && num == 0
      ensures forall p: Ptr :: old(allocated(p)) && old(p.Ok()) ==> p.Ok() && p.Bytes() == old(p.Bytes())
      ensures forall b: List :: old(allocated(b)) && b != this && old(b.Valid()) ==>
        b.Valid() && b.Flat() == old(b.Flat())
    {
      hide Fold;
      tailCache, buffers, len, num := -1, [], 0, 0;
      forall b: List | old(allocated(b)) && b != this && old(b.Valid())
        ensures b.Valid() && b.Flat() == old(b.Flat())
      {
        OtherKept(b);
      }
    }

    // operator=(const list&) and share: the same windows, and no tail cache.
    method CopyFrom(other: List)
      requires other.Valid() && other != this
      modifies this
      ensures Valid() && tailCache == -1 && buffers == other.buffers
      ensures other.Valid() && Flat() == other.Flat() == old(other.Flat())
    {
      hide Concat, Fold, Raw.Coherent;
      ghost var theirs := Chunks(other.buffers);
      tailCache := -1;
      buffers := other.buffers;
      len := other.len;
      num := other.num;
      assert Chunks(buffers) == theirs && Chunks(other.buffers) == theirs;
    }

    // The right to grow the tail passes to another list.
    ghost method HandOver(to: List)
      requires Valid()
      modifies TailRaw()
      ensures AllOk(buffers) && Shape() && Chunks(buffers) == old(Chunks(buffers)) && TailOwnedBy(to)
      ensures forall p: Ptr :: old(allocated(p)) && old(p.Ok()) ==> p.Ok() && p.Bytes() == old(p.Bytes())
      ensures forall b: List :: old(allocated(b)) && b != this && old(b.Valid()) ==>
        b.Valid() && b.Flat() == old(b.Flat())
    {
      hide Concat, Fold;
      ghost var before := Chunks(buffers);
      if tailCache >= 0 && buffers[tailCache].Spare() > 0 {
        buffers[tailCache].raw.owner := to;
      }
      assert Chunks(buffers) == before;
      forall b: List | old(allocated(b)) && b != this && old(b.Valid())
        ensures b.Valid() && b.Flat() == old(b.Flat())
      {
        OtherKept(b);
      }
    }

    // operator=(list&&): the nodes, and the tail cache with them.
    method MoveFrom(other: List)
      requires other.Valid() && other != this
      modifies this, other, other.TailRaw()
      ensures Valid() && Flat() == old(other.Flat())
      ensures other.Valid() && other.Flat() == [] && other.tailCache == -1 && other.buffers == []
      ensures tailCache == old(other.tailCache) && buffers == old(other.buffers)
      ensures forall p: Ptr :: old(allocated(p)) && old(p.Ok()) ==> p.Ok() && p.Bytes() == old(p.Bytes())
      ensures forall b: List :: old(allocated(b)) && b != this && b != other && old(b.Valid()) ==>
        b.Valid() && b.Flat() == old(b.Flat())
    {
      hide Concat, Fold, List.Valid, List.Shape, List.TailOwnedBy, List.Flat;
      other.Sides();
      other.HandOver(this);
      TakeOver(other);
    }

    lemma Sides()
      requires Valid()
      ensures Shape() && TailOwnedBy(this) && Flat() == Concat(Chunks(buffers)) && AllOk(buffers)
    {
    }

    // The fields pass over from a list whose tail is this list's already.
    method TakeOver(other: List)
      requires AllOk(other.buffers) && other.Shape() && other.TailOwnedBy(this) && other != this
      modifies this, other
      ensures Valid() && Flat() == old(Concat(Chunks(other.buffers)))
      ensures other.Valid() && other.Flat() == [] && other.tailCache == -1 && other.buffers == []
      ensures tailCache == old(other.tailCache) && buffers == old(other.buffers)
      ensures forall p: Ptr :: old(allocated(p)) && old(p.Ok()) ==> p.Ok() && p.Bytes() == old(p.Bytes())
      ensures forall b: List :: old(allocated(b)) && b != this && b != other && old(b.Valid()) ==>
        b.Valid() && b.Flat() == old(b.Flat())
    {
      hide Concat, Fold, Raw.Coherent;
      ghost var theirs := Chunks(other.buffers);
      buffers, tailCache, len, num := other.buffers, other.tailCache, other.len, other.num;
      other.Clear();
      assert Chunks(buffers) == theirs;
      forall b: List | old(allocated(b)) && b != this && b != other && old(b.Valid())
        ensures b.Valid() && b.Flat() == old(b.Flat())
      {
        ListKept(b);
      }
    }

    // claim_append: the other list's nodes are relinked after this list's.
    method ClaimAppend(other: List)
      requires Valid() && other.Valid() && other != this
      modifies this, other
      ensures Valid() && Flat() == old(Flat()) + old(other.Flat())
      ensures tailCache == old(tailCache) && buffers == old(buffers) + old(other.buffers)
      ensures other.Valid() && other.Flat() == [] && other.tailCache == -1 && other.buffers == []
    {
      hide Concat, Fold, Raw.Coherent;
      AppendList(other);
      ghost var mine := Chunks(buffers);
      other.Clear();
      assert Chunks(buffers) == mine;
    }

    // claim_append_piecewise: window by window, merging contiguous ones.
    method ClaimAppendPiecewise(other: List)
      requires Valid() && other.Valid() && other != this
      modifies this, other
      ensures Valid() && Flat() == old(Flat()) + old(other.Flat())
      ensures CellsOf(buffers) == old(CellsOf(buffers)) + old(CellsOf(other.buffers))
      ensures tailCache == old(tailCache)
      ensures other.Valid() && other.Flat() == [] && other.tailCache == -1 && other.buffers == []
      ensures buffers == JoinedAll(old(buffers), old(other.buffers))
    {
      hide Concat, Fold, Raw.Coherent, CellsOf, Reads;
      FlatIsCells();
      other.FlatIsCells();
      ghost var mine, theirs, f, g := CellsOf(buffers), CellsOf(other.buffers), Flat(), other.Flat();
      JoinedAllCells(buffers, other.buffers);
      TakePieces(other);
      ReadsKept(mine, f);
      ReadsKept(theirs, g);
      ReadsBoth(mine, f, theirs, g);
      ReadBack(f + g);
    }

    // Its loop, and the other list's clear.
    method TakePieces(other: List)
      requires Valid() && other.Valid() && other != this
      modifies this, other
      ensures Valid() && tailCache == old(tailCache)
      ensures buffers == JoinedAll(old(buffers), old(other.buffers))
      ensures other.Valid() && other.Flat() == [] && other.tailCache == -1 && other.buffers == []
    {
      hide Concat, Fold, Raw.Coherent, Joined;
      for i := 0 to |other.buffers|
        invariant Valid() && other.Valid() && tailCache == old(tailCache)
        invariant other.buffers == old(other.buffers)
        invariant buffers == JoinedAll(old(buffers), other.buffers[..i])
      {
        var p := other.buffers[i];
        assert Ptr(p.raw, p.off + 0, p.len) == p;
        AppendSub(p, 0, p.len);
        assert other.buffers[..i + 1][..i] == other.buffers[..i];
      }
      assert other.buffers[..|other.buffers|] == other.buffers;
      label before:
      other.Clear();
      OtherKept@before(this);
    }

    // ----- Cutting -----

    // insert_after the node before i.
    method InsertAt(i: nat, p: Ptr)
      requires Valid() && tailCache == -1 && i <= |buffers| && p.Ok()
      modifies this`buffers, this`len, this`num
      ensures Valid() && buffers == old(buffers)[..i] + [p] + old(buffers)[i..]
      ensures Chunks(buffers) == old(Chunks(buffers))[..i] + [p.Bytes()] + old(Chunks(buffers))[i..]
      ensures forall p: Ptr :: old(allocated(p)) && old(p.Ok()) ==> p.Ok() && p.Bytes() == old(p.Bytes())
      ensures forall b: List :: old(allocated(b)) && b != this && old(b.Valid()) ==>
        b.Valid() && b.Flat() == old(b.Flat())
    {
      hide Concat, Fold, Raw.Coherent;
      ghost var before := Chunks(buffers);
      buffers := buffers[..i] + [p] + buffers[i..];
      len := len + p.len;
      num := num + 1;
      assert Chunks(buffers) == before[..i] + [p.Bytes()] + before[i..];
      InsertedLength(before, i, p.Bytes());
      forall b: List | old(allocated(b)) && b != this && old(b.Valid())
        ensures b.Valid() && b.Flat() == old(b.Flat())
      {
        OtherKept(b);
      }
    }

    // erase_after the node before i.
    method EraseAt(i: nat)
      requires Valid() && tailCache == -1 && i < |buffers|
      modifies this`buffers, this`len, this`num
      ensures Valid() && buffers == old(buffers)[..i] + old(buffers)[i + 1..]
      ensures Chunks(buffers) == old(Chunks(buffers))[..i] + old(Chunks(buffers))[i + 1..]
      ensures forall p: Ptr :: old(allocated(p)) && old(p.Ok()) ==> p.Ok() && p.Bytes() == old(p.Bytes())
      ensures forall b: List :: old(allocated(b)) && b != this && old(b.Valid()) ==>
        b.Valid() && b.Flat() == old(b.Flat())
    {
      hide Concat, Fold, Raw.Coherent;
      ghost var before := Chunks(buffers);
      len := len - WindowLength(i);
      buffers := buffers[..i] + buffers[i + 1..];
      num := num - 1;
      assert Chunks(buffers) == before[..i] + before[i + 1..];
      ConcatAt(before, i);
      ConcatAppend(before[..i], before[i + 1..]);
      forall b: List | old(allocated(b)) && b != this && old(b.Valid())
        ensures b.Valid() && b.Flat() == old(b.Flat())
      {
        OtherKept(b);
      }
    }

    // A node's length never exceeds the list's.
    function WindowLength(i: nat): (n: nat)
      requires Shape() && i < |buffers|
      reads this, RawsOf(buffers)
      ensures n == buffers[i].len && n <= len
    {
      ConcatAt(Chunks(buffers), i);
      buffers[i].len
    }

    // set_offset and set_length on node i: its first cut bytes are dropped.
    method NarrowAt(i: nat, cut: nat)
      requires Valid() && tailCache == -1 && i < |buffers| && cut <= buffers[i].len
      modifies this`buffers, this`len
      ensures Valid()
      ensures var p := old(buffers)[i]; buffers == old(buffers)[i := Ptr(p.raw, p.off + cut, p.len - cut)]
      ensures forall p: Ptr :: old(allocated(p)) && old(p.Ok()) ==> p.Ok() && p.Bytes() == old(p.Bytes())
      ensures forall b: List :: old(allocated(b)) && b != this && old(b.Valid()) ==>
        b.Valid() && b.Flat() == old(b.Flat())
    {
      hide Concat, Fold, Raw.Coherent;
      ghost var before := Chunks(buffers);
      var p := buffers[i];
      var q := Ptr(p.raw, p.off + cut, p.len - cut);
      SubWindow(p, cut, p.len - cut);
      len := len - (WindowLength(i) - q.len);
      buffers := buffers[i := q];
      assert Chunks(buffers) == before[i := before[i][cut..]];
      ConcatAt(before, i);
      ConcatReplace(before, i, before[i][cut..]);
      forall b: List | old(allocated(b)) && b != this && old(b.Valid())
        ensures b.Valid() && b.Flat() == old(b.Flat())
      {
        OtherKept(b);
      }
    }

    // splice: cut off..off + n out, appending it to claim if there is one.
    method Splice(off: nat, n: nat, claim: List?) returns (outcome: Outcome)
      requires Valid()
      requires claim != null ==> claim != this && claim.Valid()
      modifies this, claim
      ensures outcome == CutOutcome(off, n, old(len))
      ensures n == 0 || outcome == EndOfBuffer ==> unchanged(this) && (claim != null ==> unchanged(claim))
      ensures n > 0 && outcome == Done ==>
        && Valid() && tailCache == -1 && Flat() == old(Flat())[..off] + old(Flat())[off + n..]
        && CellsOf(buffers) == old(Cells())[..off] + old(Cells())[off + n..]
      ensures claim != null && n > 0 && outcome == Done ==>
        && claim.Valid() && claim.tailCache == old(claim.tailCache)
        && claim.Flat() == old(claim.Flat()) + old(Flat())[off..off + n]
        && CellsOf(claim.buffers) == old(claim.Cells()) + old(Cells())[off..off + n]
    {
      hide Concat, Fold, List.Valid, List.Shape, List.Flat, CellRows, Reads;
      if n == 0 {
        return Done;
      }
      if off >= len {
        return EndOfBuffer;
      }
      FlatIsCells();
      if claim != null {
        claim.FlatIsCells();
      }
      assert claim == null ==> Reads([], []) by {
        NoneRead();
      }
      ghost var rows, cells, flat := CellRows(buffers), CellsOf(buffers), Flat();
      ghost var had, cache, first := if claim == null then [] else CellsOf(claim.buffers),
        if claim == null then -1 else claim.tailCache, if claim == null then [] else claim.Flat();
      var cur, rest, j, pre := OpenCut(off);
      outcome := CutLoop(claim, cur, rest, n, rows, j, pre, off, had, cache);
      if outcome == Done {
        ReadsKept(cells, flat);
        ReadsKept(had, first);
        ReadsPart(cells, flat, 0, off);
        ReadsPart(cells, flat, off + n, |cells|);
        ReadsPart(cells, flat, off, off + n);
        assert cells[0..off] == cells[..off] && flat[0..off] == flat[..off];
        assert cells[off + n..|cells|] == cells[off + n..] && flat[off + n..|cells|] == flat[off + n..];
        ReadsBoth(cells[..off], flat[..off], cells[off + n..], flat[off + n..]);
        ReadBack(flat[..off] + flat[off + n..]);
        if claim != null {
          ReadsBoth(had, first, cells[off..off + n], flat[off..off + n]);
          claim.ReadBack(first + flat[off..off + n]);
        }
      }
    }

    // The flat bytes are what the cells hold.
    lemma FlatIsCells()
      requires Valid()
      ensures Reads(CellsOf(buffers), Flat()) && len == |Flat()| == |CellsOf(buffers)| && Cells() == CellsOf(buffers)
    {
      hide Concat, Fold, CellsOf, Reads;
      WindowsRead(buffers);
      CellsMatch(buffers);
    }

    lemma ReadBack(flat: seq<byte>)
      requires Valid() && Reads(CellsOf(buffers), flat)
      ensures Flat() == flat
    {
      hide Concat, CellsOf, Reads;
      FlatIsCells();
      ReadsOnce(CellsOf(buffers), Flat(), flat);
    }

    // Part of a node among the bytes of the list.
    lemma NodePart(i: nat, off: nat, n: nat)
      requires Valid() && i < |buffers| && off + n <= buffers[i].len
      ensures var at := PlaceOf(buffers, i) + off;
        at + n <= |Flat()| && buffers[i].Bytes()[off..off + n] == Flat()[at..at + n]
    {
      hide Concat, Fold, Raw.Coherent;
      PlaceIsStart(buffers, i);
      NodeSlice(Parts(), i, off, n);
    }

    // The second half of splice: node after node until nothing is due.
    method CutLoop(claim: List?, cur: nat, rest0: nat, n: nat,
                   ghost c: seq<seq<Cell>>, ghost j0: nat, ghost pre: seq<seq<Cell>>, ghost off: nat,
                   ghost had: seq<Cell>, ghost cache: int)
      returns (outcome: Outcome)
      requires Valid() && tailCache == -1
      requires claim != this && Holds(claim, cache, had)
      requires n > 0 && j0 < |c| && rest0 <= |c[j0]| && cur == |pre| && CellRows(buffers) == pre + c[j0..]
      requires StartOf(c, j0) + rest0 == off && off <= |Concat(c)| && Concat(pre) == Concat(c)[..off]
      modifies this, claim
      ensures outcome == if off + n <= |Concat(c)| then Done else PastEnd
      ensures outcome == Done ==>
        Valid() && tailCache == -1 && CellsOf(buffers) == Concat(c)[..off] + Concat(c)[off + n..]
      ensures outcome == Done ==> Holds(claim, cache, had + Concat(c)[off..off + n])
    {
      hide Concat, Fold, List.Valid, List.Shape, List.Flat, CellRows, List.Holds, StillDue, Gotten, StartOf;
      var left: nat, rest: nat := n, rest0;
      ghost var j: nat, got := j0, had;
      CutStarts(c, j, rest, n, off, had);
      while left > 0
        invariant left <= n && cur == |pre| && j <= |c|
        invariant Valid() && tailCache == -1 && CellRows(buffers) == pre + c[j..]
        invariant StillDue(c, j, rest, left, n, off)
        invariant off + n - left <= |Concat(c)| && got == Gotten(c, left, n, off, had)
        invariant Holds(claim, cache, got)
        decreases |c| - j
      {
        CutStands(c, j, rest, left, n, off, had);
        assert |CellRows(buffers)| == |buffers|;
        if cur == |buffers| {
          return PastEnd;
        }
        var take, last := CutStep(claim, cur, rest, left, c, j, pre, got, cache);
        CutGoesOn(c, j, rest, left, n, off, had, take);
        got := got + c[j][rest..rest + take];
        if last {
          CutLeaves(c, j, pre, rest + left, off, n);
          return Done;
        }
        left, rest, j := left - take, 0, j + 1;
      }
      CutStands(c, j, rest, left, n, off, had);
      CutLeavesAll(c, j, pre, off, n);
      return Done;
    }

    // A claiming list, if there is one, is sound and shows these cells.
    static ghost predicate Holds(claim: List?, cache: int, cells: seq<Cell>)
      reads claim, if claim != null then RawsOf(claim.buffers) else {}
    {
      claim != null ==> claim.Valid() && claim.tailCache == cache && CellsOf(claim.buffers) == cells
    }

    // The first half of splice: the part of the start node before position off
    // becomes a node of its own, and the tail cache is dropped.  The rows of cells
    // are then pre and the old rows from j on.
    method OpenCut(off: nat) returns (cur: nat, rest: nat, ghost j: nat, ghost pre: seq<seq<Cell>>)
      requires Valid() && off < len
      modifies this
      ensures Valid() && tailCache == -1
      ensures var c := old(CellRows(buffers));
        && cur == |pre| && j < |c| && rest <= |c[j]|
        && CellRows(buffers) == pre + c[j..]
        && StartOf(c, j) + rest == off && off <= |Concat(c)| && Concat(pre) == Concat(c)[..off]
      ensures forall p: Ptr :: old(allocated(p)) && old(p.Ok()) ==> p.Ok() && p.Bytes() == old(p.Bytes())
      ensures forall b: List :: old(allocated(b)) && b != this && old(b.Valid()) ==>
        b.Valid() && b.Flat() == old(b.Flat())
    {
      hide Concat, Fold, Raw.Coherent, CellsIn;
      ghost var c := CellRows(buffers);
      cur, rest := Skip(off);
      j, pre := cur, c[..cur];
      NodeSlice(c, cur, rest, 0);
      SetTailCache(-1);
      assert c == pre + c[j..];
      if rest > 0 {
        SplitHead(cur, rest);
        pre := pre + [c[cur][..rest]];
        ConcatSnoc(c[..cur], c[cur][..rest]);
        cur := cur + 1;
      }
    }

    // The first n bytes of node i become a node of their own before it.
    method SplitHead(i: nat, n: nat)
      requires Valid() && tailCache == -1 && i < |buffers| && n <= buffers[i].len
      modifies this
      ensures Valid() && tailCache == -1
      ensures var c := old(CellRows(buffers)); CellRows(buffers) == c[..i] + [c[i][..n]] + c[i..]
      ensures forall p: Ptr :: old(allocated(p)) && old(p.Ok()) ==> p.Ok() && p.Bytes() == old(p.Bytes())
      ensures forall b: List :: old(allocated(b)) && b != this && old(b.Valid()) ==>
        b.Valid() && b.Flat() == old(b.Flat())
    {
      hide Concat, Fold, Raw.Coherent;
      ghost var c := CellRows(buffers);
      var p := buffers[i];
      SubWindow(p, 0, n);
      var q := Ptr(p.raw, p.off + 0, n);
      assert CellsIn(q) == c[i][..n];
      InsertAt(i, q);
    }

    // One round of splice on node cur: hand the due part to claim, then narrow
    // the node or take it out.
    method CutStep(claim: List?, cur: nat, rest: nat, left: nat,
                   ghost c: seq<seq<Cell>>, ghost j: nat, ghost pre: seq<seq<Cell>>,
                   ghost had: seq<Cell>, ghost cache: int)
      returns (take: nat, last: bool)
      requires Valid() && tailCache == -1
      requires claim != this && Holds(claim, cache, had)
      requires j < |c| && rest <= |c[j]| && cur == |pre| && CellRows(buffers) == pre + c[j..]
      modifies this, claim
      ensures last <==> rest + left < |c[j]|
      ensures take == if last then left else |c[j]| - rest
      ensures Valid() && tailCache == -1
      ensures CellRows(buffers) ==
              if last then (pre + c[j..])[|pre| := c[j][rest + left..]] else pre + c[j + 1..]
      ensures Holds(claim, cache, had + c[j][rest..rest + take])
    {
      hide Concat, Fold, Raw.Coherent, CellsOf, List.Holds;
      assert CellRows(buffers)[cur] == c[j];
      var p := buffers[cur];
      last := rest + left < p.len;
      take := if last then left else p.len - rest;
      HandPart(claim, cur, rest, take, had, cache);
      assert CellsIn(Ptr(p.raw, p.off + rest, take)) == c[j][rest..rest + take];
      TakeOut(claim, cur, if last then rest + left else p.len, last, had + c[j][rest..rest + take], cache);
      assert (pre + c[j..])[..cur] + (pre + c[j..])[cur + 1..] == pre + c[j + 1..];
    }

    // The due part of node i joins claim.
    method HandPart(claim: List?, i: nat, rest: nat, take: nat, ghost had: seq<Cell>, ghost cache: int)
      requires Valid() && i < |buffers| && rest + take <= buffers[i].len
      requires claim != this && Holds(claim, cache, had)
      modifies claim
      ensures Valid()
      ensures Holds(claim, cache, had + CellsIn(Ptr(buffers[i].raw, buffers[i].off + rest, take)))
    {
      hide Concat, Fold, Raw.Coherent, Joined, CellsOf;
      if claim != null {
        JoinedCells(claim.buffers, Ptr(buffers[i].raw, buffers[i].off + rest, take));
        claim.AppendSub(buffers[i], rest, take);
      }
    }

    // Node i loses its first cut bytes, or all of it goes.
    method TakeOut(ghost claim: List?, i: nat, cut: nat, last: bool, ghost had: seq<Cell>, ghost cache: int)
      requires Valid() && tailCache == -1 && i < |buffers| && cut <= buffers[i].len
      requires claim != this && Holds(claim, cache, had)
      modifies this
      ensures Valid() && tailCache == -1 && Holds(claim, cache, had)
      ensures var c := old(CellRows(buffers));
        CellRows(buffers) == if last then c[i := c[i][cut..]] else c[..i] + c[i + 1..]
    {
      hide Concat, Fold, Raw.Coherent, CellsOf;
      ghost var c := CellRows(buffers);
      if last {
        NarrowAt(i, cut);
        assert CellsIn(buffers[i]) == c[i][cut..];
      } else {
        EraseAt(i);
      }
    }

    // The node that holds position off, and the offset in it.
    method Skip(off: nat) returns (cur: nat, rest: nat)
      requires Valid() && off <= len
      ensures Valid() && unchanged(this) && Flat() == old(Flat())
      ensures cur <= |buffers| && (off < len ==> cur < |buffers|)
      ensures StartOf(CellRows(buffers), cur) + rest == off
      ensures rest == 0 || (cur < |buffers| && rest < buffers[cur].len)
      ensures forall p: Ptr :: old(allocated(p)) && old(p.Ok()) ==> p.Ok() && p.Bytes() == old(p.Bytes())
      ensures forall b: List :: old(allocated(b)) && b != this && old(b.Valid()) ==>
        b.Valid() && b.Flat() == old(b.Flat())
    {
      hide Concat, Fold, Raw.Coherent;
      CellsMatch(buffers);
      ghost var c := CellRows(buffers);
      cur, rest := 0, off;
      ConcatEmpty<Cell>();
      assert c[..0] == [] && c[..|c|] == c;
      while rest > 0
        invariant Valid() && unchanged(this) && Flat() == old(Flat())
        invariant cur <= |buffers| && |Concat(c[..cur])| + rest == off
        decreases |buffers| - cur
      {
        assert cur < |buffers|;
        ConcatAt(c, cur);
        if rest >= buffers[cur].len {
          rest := rest - buffers[cur].len;
          cur := cur + 1;
        } else {
          break;
        }
      }
      forall b: List | old(allocated(b)) && b != this && old(b.Valid())
        ensures b.Valid() && b.Flat() == old(b.Flat())
      {
        OtherKept(b);
      }
    }

    // substr_of: this list becomes the windows of off..off + n of another list.
    method SubstrOf(other: List, off: nat, n: nat) returns (outcome: Outcome)
      requires other.Valid() && other != this
      modifies this
      ensures outcome == SubstrOutcome(off, n, other.len)
      ensures other.Valid() && other.Flat() == old(other.Flat())
      ensures outcome == EndOfBuffer ==> unchanged(this)
      ensures outcome == Done ==>
        && Valid() && tailCache == -1 && Flat() == other.Flat()[off..off + n]
        && CellsOf(buffers) == other.Cells()[off..off + n]
    {
      hide Concat, Fold, List.Valid, List.Shape, List.Flat, CellRows, Reads;
      other.FlatIsCells();
      if off + n > other.len {
        return EndOfBuffer;
      }
      ghost var c, f, flat := CellRows(other.buffers), CellsOf(other.buffers), other.Flat();
      var left: nat := n;
      var cur: nat, rest: nat := Restart(other, off);
      assert f[off..off] == [];
      while true
        invariant other.Valid() && |c| == |other.buffers| && other.Flat() == flat
        invariant Valid() && tailCache == -1 && cur <= |c| && left <= n
        invariant |Concat(c[..cur])| + rest == off + n - left
        invariant if cur < |c| then rest <= |c[cur]| else rest == 0
        invariant CellsOf(buffers) == f[off..off + n - left]
        decreases |c| - cur
      {
        if cur == |other.buffers| {
          // the loop tests len >= 0 on an unsigned len, so it reads the sentinel
          assert c[..cur] == c;
          return PastEnd;
        }
        var take, last := SubstrStep(other, cur, rest, left);
        CutFacts(c, cur, rest, take, off, off + n - left);
        if last {
          ReadsKept(f, flat);
          ReadsPart(f, flat, off, off + n);
          ReadBack(flat[off..off + n]);
          return Done;
        }
        cur, left, rest := cur + 1, left - take, 0;
      }
    }

    // clear, then find the first node.
    method Restart(other: List, off: nat) returns (cur: nat, rest: nat)
      requires other.Valid() && other != this && off <= other.len
      modifies this
      ensures Valid() && tailCache == -1 && CellsOf(buffers) == []
      ensures other.Valid() && other.Flat() == old(other.Flat())
      ensures cur <= |CellRows(other.buffers)| && |Concat(CellRows(other.buffers)[..cur])| + rest == off
      ensures if cur < |other.buffers| then rest <= |CellRows(other.buffers)[cur]| else rest == 0
    {
      hide Concat, Fold, Raw.Coherent;
      label before:
      Clear();
      OtherKept@before(other);
      ConcatEmpty<Cell>();
      assert CellRows(buffers) == [];
      cur, rest := other.Skip(off);
    }

    // One round of substr_of: a window on the due part of node cur.
    method SubstrStep(other: List, cur: nat, rest: nat, left: nat) returns (take: nat, last: bool)
      requires other.Valid() && other != this && Valid() && tailCache == -1
      requires cur < |CellRows(other.buffers)| && rest <= |CellRows(other.buffers)[cur]|
      modifies this
      ensures var c := CellRows(other.buffers)[cur];
        && (last <==> rest + left < |c|)
        && take == (if last then left else |c| - rest)
        && Valid() && tailCache == -1 && CellsOf(buffers) == old(CellsOf(buffers)) + c[rest..rest + take]
      ensures other.Valid() && other.Flat() == old(other.Flat())
    {
      hide Concat, Fold, Raw.Coherent, CellsOf;
      var p := other.buffers[cur];
      last := rest + left < p.len;
      take := if last then left else p.len - rest;
      SubWindow(p, rest, take);
      var q := Ptr(p.raw, p.off + rest, take);
      CellsSnoc(buffers, q);
      assert CellsIn(q) == CellRows(other.buffers)[cur][rest..rest + take];
      label before:
      AddNode(q);
      OtherKept@before(other);
    }

    // ----- Rebuilding -----

    // A new aligned raw that holds the bytes of the windows one after another.
    static method Gather(ps: seq<Ptr>, total: nat, align: nat) returns (q: Ptr)
      requires AllOk(ps) && total == |Concat(Chunks(ps))| && align > 0
      ensures fresh(q.raw) && q.off == 0 && q.len == total && q.IsAligned(align)
      ensures q.Ok() && q.Spare() == 0 && q.Bytes() == old(Concat(Chunks(ps)))
      ensures forall p: Ptr :: old(allocated(p)) && old(p.Ok()) ==> p.Ok() && p.Bytes() == old(p.Bytes())
      ensures forall b: List :: old(allocated(b)) && old(b.Valid()) ==> b.Valid() && b.Flat() == old(b.Flat())
    {
      hide Concat, Fold;
      ghost var c := Chunks(ps);
      var r := new Raw(total, align);
      r.used := total;
      q := Ptr(r, 0, total);
      var pos: nat := 0;
      ConcatEmpty<byte>();
      assert c[..0] == [] && c[..|c|] == c;
      for i := 0 to |ps|
        invariant AllOk(ps) && Chunks(ps) == c
        invariant r.Valid() && r.slot.NoCrc? && |r.data| == total == r.used
        invariant pos == |Concat(c[..i])| <= total && r.data[..pos] == Concat(c[..i])
        invariant forall p: Ptr :: old(allocated(p)) && old(p.Ok()) ==> p.Ok() && p.Bytes() == old(p.Bytes())
      {
        var p := ps[i];
        var bytes := p.raw.data[p.off..p.off + p.len];
        assert bytes == c[i];
        ConcatAt(c, i);
        r.CopyIn(pos, bytes, false);
        pos := pos + p.len;
        assert r.data[..pos] == Concat(c[..i]) + bytes;
        assert forall k :: 0 <= k < |ps| ==> ps[k].Ok() && ps[k].Bytes() == c[k];
        assert Chunks(ps) == c;
      }
      forall b: List | old(allocated(b)) && old(b.Valid())
        ensures b.Valid() && b.Flat() == old(b.Flat())
      {
        OtherKept(b);
      }
    }

    // A list keeps its state and its bytes when its fields stay, every window
    // keeps its bytes and no raw whose tail it owns grows.
    static twostate lemma OtherKept(b: List)
      requires old(b.Valid())
      requires b.buffers == old(b.buffers) && b.tailCache == old(b.tailCache)
      requires b.len == old(b.len) && b.num == old(b.num)
      requires forall p: Ptr :: old(allocated(p)) && old(p.Ok()) ==> p.Ok() && p.Bytes() == old(p.Bytes())
      requires forall r: Raw :: old(allocated(r)) ==> |r.data| == old(|r.data|)
      requires forall r: Raw :: old(allocated(r)) && old(r.owner) == b ==> r.owner == b && r.used == old(r.used)
      ensures b.Valid() && b.Flat() == old(b.Flat())
    {
      hide Concat, Fold;
      assert Chunks(b.buffers) == old(Chunks(b.buffers));
    }

    // rebuild: one contiguous window, page aligned when the length is.
    method Rebuild(pageSize: nat)
      requires Valid() && pageSize > 0
      modifies this
      ensures Valid() && Flat() == old(Flat()) && num == (if len == 0 then 0 else 1) && tailCache == num - 1
      ensures buffers == [] || (|buffers| == 1 && fresh(buffers[0].raw) && buffers[0].off == 0 && Gap() == 0)
      ensures len > 0 ==> buffers[0].IsAligned(if len % pageSize == 0 then pageSize else 8)
    {
      hide Concat, Fold, Raw.Coherent;
      if len == 0 {
        Clear();
      } else {
        var align := if len % pageSize == 0 then pageSize else 8;
        var q := Gather(buffers, len, align);
        buffers, tailCache, num := [q], 0, 1;
        assert Chunks(buffers) == [q.Bytes()];
        ConcatOne(q.Bytes());
      }
    }

    // The inner loop of rebuild_aligned_size_and_memory: node j and the nodes
    // after it, until a node stands well by itself and the bytes so far are a
    // multiple of the size.
    method GroupEnd(j: nat, size: nat, alignMemory: nat) returns (k: nat, total: nat)
      requires Valid() && j < |buffers| && size > 0 && alignMemory > 0
      requires !WellPlaced(buffers[j], size, alignMemory) && StartOf(Parts(), j) % size == 0
      ensures Valid() && Chunks(buffers) == old(Chunks(buffers)) && j < k <= |buffers|
      ensures k < |buffers| ==> total % size == 0 && Kept(buffers, Parts(), k, size, alignMemory)
      ensures forall i :: j <= i < k ==> !Kept(buffers, Parts(), i, size, alignMemory)
      ensures total == |Concat(Chunks(buffers)[j..k])|
      ensures forall p: Ptr :: old(allocated(p)) && old(p.Ok()) ==> p.Ok() && p.Bytes() == old(p.Bytes())
    {
      hide Concat, Fold, Raw.Coherent, WellPlaced, Ptr.IsAligned, Ptr.IsSized;
      ghost var c := Chunks(buffers);
      k, total := j + 1, buffers[j].len;
      assert c[j..j + 1] == [c[j]];
      ConcatOne(c[j]);
      GroupStart(c, j, k, total, size);
      while k < |buffers| &&
            (!buffers[k].IsAligned(alignMemory) || !buffers[k].IsSized(size) || total % size != 0)
        invariant j < k <= |buffers| && Valid() && Chunks(buffers) == c
        invariant total == |Concat(c[j..k])| && StartOf(Parts(), k) % size == total % size
        invariant forall i :: j <= i < k ==> !Kept(buffers, Parts(), i, size, alignMemory)
      {
        WellPlacedMeans(buffers[k], size, alignMemory);
        assert c[j..k + 1] == c[j..k] + [c[k]];
        ConcatSnoc(c[j..k], c[k]);
        total := total + buffers[k].len;
        k := k + 1;
        GroupStart(c, j, k, total, size);
      }
      if k < |buffers| {
        WellPlacedMeans(buffers[k], size, alignMemory);
      }
    }

    // rebuild_aligned_size_and_memory: regroup the nodes so that every one is
    // memory-aligned and every one but the last is a multiple of the size.  A group
    // is a run of nodes that are not kept; a new raw takes its place, but a group
    // without bytes leaves no node, and then the routine reads the sentinel of its
    // chain.  It leaves _tail_pnode_cache alone, so a cached node that is replaced
    // leaves a dangling cache behind.
    method RebuildAligned(alignSize: nat, alignMemory: nat, maxBuffers: nat)
      returns (mustRebuild: bool, outcome: Outcome, ghost bounds: seq<nat>)
      requires Valid() && alignSize > 0 && alignMemory > 0
      modifies this
      ensures Serves(EffectiveSize(alignSize, maxBuffers, old(num), old(len)),
                     alignSize, maxBuffers, old(num), old(len))
      ensures var size := EffectiveSize(alignSize, maxBuffers, old(num), old(len));
        outcome == if HasHollow(old(buffers), old(Parts()), size, alignMemory) then PastEnd else Done
      ensures outcome == Done ==>
        var size := EffectiveSize(alignSize, maxBuffers, old(num), old(len));
        && Regular(buffers, size, alignMemory)
        && (mustRebuild <==> !Regular(old(buffers), size, alignMemory))
        && (len % size == 0 ==> forall i :: 0 <= i < |buffers| ==> buffers[i].IsSized(size))
        && (Valid() <==> old(tailCache) == -1 || Kept(old(buffers), old(Parts()), old(tailCache), size, alignMemory))
      ensures outcome == Done ==>
        && (!mustRebuild ==> buffers == old(buffers)) && (tailCache >= -1 <==> Valid())
        && AllOk(buffers) && len == old(len) && num == |buffers| <= old(num)
        && Concat(Chunks(buffers)) == old(Flat())
        && EmptiesFrom(buffers, old(buffers)) && (maxBuffers > 0 ==> NonEmpty(buffers) <= maxBuffers)
      ensures outcome == Done ==>
        var size := EffectiveSize(alignSize, maxBuffers, old(num), old(len));
        Grouped(old(buffers), old(Parts()), buffers, bounds, |old(buffers)|, size, alignMemory)
    {
      hide Concat, Fold, Raw.Coherent, Ptr.IsAligned, Ptr.IsSized, EffectiveSize, WellPlaced, HasHollow;
      hide List.Regrouped, List.Tells, Grouped;
      var size := EffectiveSize(alignSize, maxBuffers, num, len);
      EffectiveServes(alignSize, maxBuffers, num, len);
      hide Serves;
      var done, cache;
      done, cache, mustRebuild, outcome, bounds := Regroup(size, alignMemory);
      if outcome == Done {
        RegroupedEnd(done, cache, |buffers|, alignSize, alignMemory, maxBuffers, mustRebuild);
        hide List.Valid, List.Shape;
        Adopt(done, cache);
      }
    }

    // The new nodes take the place of the old ones.
    method Adopt(done: seq<Ptr>, cache: int)
      requires Valid() && AllOk(done) && Concat(Chunks(done)) == Flat()
      requires cache == -1 || cache == -2 ||
        (0 <= cache < |done| && tailCache >= 0 && done[cache] == buffers[tailCache])
      modifies this
      ensures buffers == done && num == |done| && tailCache == cache && len == old(len)
      ensures AllOk(buffers) && Concat(Chunks(buffers)) == old(Flat())
      ensures Valid() <==> cache >= -1
    {
      hide Concat, Fold, Raw.Coherent;
      ghost var d := Chunks(done);
      buffers, num, tailCache := done, |done|, cache;
      assert Chunks(buffers) == d;
    }

    // Its outer loop: the new nodes, and where the cached node is among them.
    method Regroup(size: nat, alignMemory: nat)
      returns (done: seq<Ptr>, cache: int, must: bool, outcome: Outcome, ghost bounds: seq<nat>)
      requires Valid() && size > 0 && alignMemory > 0
      ensures Valid() && Chunks(buffers) == old(Chunks(buffers))
      ensures outcome == if HasHollow(buffers, Parts(), size, alignMemory) then PastEnd else Done
      ensures outcome == Done ==>
        Regrouped(done, cache, |buffers|, size, alignMemory) && Tells(must, done, |buffers|, size, alignMemory)
      ensures outcome == Done ==> Grouped(buffers, Parts(), done, bounds, |buffers|, size, alignMemory)
    {
      hide Concat, Fold, Raw.Coherent, List.Regrouped, List.Tells, Ptr.IsAligned, Ptr.IsSized, WellPlaced, Hollow;
      ghost var c := Chunks(buffers);
      done, cache, must := [], if tailCache < 0 then -1 else -2, false;
      bounds := [0];
      var j: nat := 0;
      RegroupedStart(cache, size, alignMemory);
      while j < |buffers|
        invariant j <= |buffers| && Valid() && Chunks(buffers) == c
        invariant Grouped(buffers, c, done, bounds, j, size, alignMemory)
        invariant AtBound(buffers, c, j, size, alignMemory)
        invariant forall a, b :: 0 <= a < b <= |buffers| && a < j ==> !Hollow(buffers, c, a, b, size, alignMemory)
        invariant Regrouped(done, cache, j, size, alignMemory) && Tells(must, done, j, size, alignMemory)
      {
        ghost var was, had := j, done;
        done, cache, j, must, outcome := RegroupStep(done, cache, j, size, alignMemory, must);
        if outcome == PastEnd {
          assert Hollow(buffers, c, was, j, size, alignMemory);
          return;
        }
        GroupedOn(buffers, c, had, bounds, was, j, done, size, alignMemory);
        bounds := bounds + [j];
      }
      outcome := Done;
    }

    // Where the cached node is after the nodes before j have been treated: at
    // the index cache among the new nodes, or, being replaced, nowhere.
    ghost predicate CacheFollows(cache: int, done: seq<Ptr>, j: nat, size: nat, alignMemory: nat)
      requires Valid() && size > 0 && alignMemory > 0
      reads this, RawsOf(buffers)
    {
      if tailCache == -1 then cache == -1
      else if tailCache < j && Kept(buffers, Parts(), tailCache, size, alignMemory) then
        0 <= cache < |done| && done[cache] == buffers[tailCache]
      else cache == -2
    }

    // The state of the outer loop: the nodes before j have become done.
    ghost predicate Regrouped(done: seq<Ptr>, cache: int, j: nat, size: nat, alignMemory: nat)
      requires Valid() && size > 0 && alignMemory > 0
      reads this, RawsOf(buffers), RawsOf(done)
    {
      && j <= |buffers| && |done| <= j && EmptiesFrom(done, buffers)
      && AllOk(done) && Concat(Chunks(done)) == Concat(Chunks(buffers)[..j])
      && Regular(done, size, alignMemory)
      && (j < |buffers| ==> AllSized(done, size) && StartOf(Parts(), j) % size == 0)
      && CacheFollows(cache, done, j, size, alignMemory)
    }

    // must is set only on lists that are not regular, and nothing has changed
    // while it is not set.
    ghost predicate Tells(must: bool, done: seq<Ptr>, j: nat, size: nat, alignMemory: nat)
      requires size > 0 && alignMemory > 0 && j <= |buffers|
      reads this
    {
      if must then !Regular(buffers, size, alignMemory) else done == buffers[..j]
    }

    lemma RegroupedStart(cache: int, size: nat, alignMemory: nat)
      requires Valid() && size > 0 && alignMemory > 0
      requires cache == if tailCache < 0 then -1 else -2
      ensures Regrouped([], cache, 0, size, alignMemory) && Tells(false, [], 0, size, alignMemory)
    {
      ConcatEmpty<byte>();
      assert Chunks(buffers)[..0] == [] && Chunks([]) == [];
    }

    lemma RegroupedEnd(done: seq<Ptr>, cache: int, j: nat, alignSize: nat, alignMemory: nat, maxBuffers: nat,
                       must: bool)
      requires Valid() && alignSize > 0 && alignMemory > 0 && j == |buffers|
      requires Tells(must, done, j, EffectiveSize(alignSize, maxBuffers, num, len), alignMemory)
      requires Regrouped(done, cache, j, EffectiveSize(alignSize, maxBuffers, num, len), alignMemory)
      ensures var size := EffectiveSize(alignSize, maxBuffers, num, len);
        && Regular(done, size, alignMemory) && CacheFollows(cache, done, |buffers|, size, alignMemory)
        && (len % size == 0 ==> AllSized(done, size))
        && (must <==> !Regular(buffers, size, alignMemory)) && (!must ==> done == buffers)
      ensures AllOk(done) && Concat(Chunks(done)) == Flat() && |done| <= num
      ensures EmptiesFrom(done, buffers) && (maxBuffers > 0 ==> NonEmpty(done) <= maxBuffers)
    {
      RegroupedAll(done, cache, j, EffectiveSize(alignSize, maxBuffers, num, len), alignMemory, must);
      hide Concat, Fold, Raw.Coherent, EffectiveSize, EmptiesFrom, NonEmpty, Regular, Kept, List.Regrouped, List.Tells,
        List.CacheFollows, AllSized;
      SizesEnd(done, num, len, alignSize, alignMemory, maxBuffers);
    }

    lemma RegroupedAll(done: seq<Ptr>, cache: int, j: nat, size: nat, alignMemory: nat, must: bool)
      requires Valid() && size > 0 && alignMemory > 0 && j == |buffers|
      requires Tells(must, done, j, size, alignMemory) && Regrouped(done, cache, j, size, alignMemory)
      ensures Regular(done, size, alignMemory) && CacheFollows(cache, done, |buffers|, size, alignMemory)
      ensures (must <==> !Regular(buffers, size, alignMemory)) && (!must ==> done == buffers)
      ensures AllOk(done) && Concat(Chunks(done)) == Flat() && |done| <= num && len == |Flat()|
      ensures EmptiesFrom(done, buffers)
    {
      hide Concat, Fold, Raw.Coherent, EmptiesFrom, Regular, Kept, List.CacheFollows;
      assert Chunks(buffers)[..j] == Chunks(buffers) && buffers[..j] == buffers;
    }

    // One round of the outer loop: keep node j, or regroup from it on.
    method RegroupStep(done: seq<Ptr>, cache: int, j: nat, size: nat, alignMemory: nat, must: bool)
      returns (done': seq<Ptr>, cache': int, j': nat, must': bool, outcome: Outcome)
      requires Valid() && size > 0 && alignMemory > 0 && j < |buffers|
      requires AtBound(buffers, Parts(), j, size, alignMemory)
      requires Regrouped(done, cache, j, size, alignMemory) && Tells(must, done, j, size, alignMemory)
      ensures j < j' <= |buffers| && Valid() && Chunks(buffers) == old(Chunks(buffers))
      ensures AtBound(buffers, Parts(), j', size, alignMemory)
      ensures outcome == if Hollow(buffers, Parts(), j, j', size, alignMemory) then PastEnd else Done
      ensures outcome == Done ==> NoneHollow(buffers, Parts(), j, j', size, alignMemory)
      ensures outcome == Done ==>
        Regrouped(done', cache', j', size, alignMemory) && Tells(must', done', j', size, alignMemory)
      ensures outcome == Done ==>
        && |done'| == |done| + 1 && done' == done + [done'[|done|]]
        && NodeFor(buffers, Parts(), done'[|done|], j, j', size, alignMemory)
    {
      hide Concat, Fold, Raw.Coherent, List.Valid, List.Shape, WellPlaced, EmptiesFrom;
      var it := buffers[j];
      if WellPlaced(it, size, alignMemory) {
        KeptNode(done, cache, j, size, alignMemory, must);
        cache' := if j == tailCache then |done| else cache;
        done', j', must', outcome := done + [it], j + 1, must, Done;
      } else {
        var q, k, rebuilt;
        q, k, rebuilt, outcome := RegroupFrom(done, cache, j, size, alignMemory, must);
        done', cache', j', must' := done + [q], cache, k, must || rebuilt;
      }
    }

    // A well placed node stays.
    lemma KeptNode(done: seq<Ptr>, cache: int, j: nat, size: nat, alignMemory: nat, must: bool)
      requires Valid() && size > 0 && alignMemory > 0 && j < |buffers|
      requires Regrouped(done, cache, j, size, alignMemory) && Tells(must, done, j, size, alignMemory)
      requires WellPlaced(buffers[j], size, alignMemory)
      ensures Kept(buffers, Parts(), j, size, alignMemory)
      ensures Regrouped(done + [buffers[j]], if j == tailCache then |done| else cache, j + 1, size, alignMemory)
      ensures Tells(must, done + [buffers[j]], j + 1, size, alignMemory)
    {
      hide Concat, Fold, Raw.Coherent, Ptr.IsAligned;
      var c, it := Chunks(buffers), buffers[j];
      assert it.Bytes() == c[j] && c[j..j + 1] == [c[j]];
      ConcatOne(c[j]);
      Extended(done, it, c, j, j + 1);
      GroupStart(c, j, j + 1, it.len, size);
    }

    // A group from node j on becomes one node.
    method RegroupFrom(ghost done: seq<Ptr>, ghost cache: int, j: nat, size: nat, alignMemory: nat, ghost must: bool)
      returns (q: Ptr, k: nat, rebuilt: bool, outcome: Outcome)
      requires Valid() && size > 0 && alignMemory > 0 && j < |buffers|
      requires AtBound(buffers, Parts(), j, size, alignMemory)
      requires Regrouped(done, cache, j, size, alignMemory) && Tells(must, done, j, size, alignMemory)
      requires !WellPlaced(buffers[j], size, alignMemory)
      ensures j < k <= |buffers| && Valid() && Chunks(buffers) == old(Chunks(buffers))
      ensures AtBound(buffers, Parts(), k, size, alignMemory)
      ensures outcome == if Hollow(buffers, Parts(), j, k, size, alignMemory) then PastEnd else Done
      ensures outcome == Done ==> NoneHollow(buffers, Parts(), j, k, size, alignMemory)
      ensures outcome == Done ==> Regrouped(done + [q], cache, k, size, alignMemory)
      ensures outcome == Done ==> Tells(must || rebuilt, done + [q], k, size, alignMemory)
      ensures outcome == Done ==> NodeFor(buffers, Parts(), q, j, k, size, alignMemory)
    {
      hide Concat, Fold, Raw.Coherent, Ptr.IsAligned, WellPlaced;
      ghost var c := Chunks(buffers);
      q, k, rebuilt, outcome := Group(j, size, alignMemory, done);
      RunHollow(buffers, Parts(), j, k, size, alignMemory);
      hide Hollow, NoneHollow;
      if outcome == Done {
        Extended(done, q, c, j, k);
        GroupJoins(done, cache, j, k, q, rebuilt, size, alignMemory, must);
      }
    }

    lemma GroupJoins(done: seq<Ptr>, cache: int, j: nat, k: nat, q: Ptr, rebuilt: bool, size: nat,
                     alignMemory: nat, must: bool)
      requires Valid() && size > 0 && alignMemory > 0 && j < k <= |buffers|
      requires Regrouped(done, cache, j, size, alignMemory) && Tells(must, done, j, size, alignMemory)
      requires j < |buffers| && forall i :: j <= i < k ==> !Kept(buffers, Parts(), i, size, alignMemory)
      requires k < |buffers| ==> Kept(buffers, Parts(), k, size, alignMemory)
      requires q.Ok() && q.len > 0 && q.IsAligned(alignMemory) && (k < |buffers| ==> q.IsSized(size))
      requires if rebuilt then !buffers[j].IsAligned(alignMemory) || (j + 1 < |buffers| && !buffers[j].IsSized(size))
               else k == j + 1 && q == buffers[j]
      requires AllOk(done + [q]) && Concat(Chunks(done + [q])) == Concat(Chunks(buffers)[..k])
      ensures Regrouped(done + [q], cache, k, size, alignMemory)
      ensures Tells(must || rebuilt, done + [q], k, size, alignMemory)
    {
      hide Concat, Fold, Raw.Coherent, Ptr.IsAligned, Ptr.IsSized, WellPlaced;
    }

    // One group of nodes becomes one node: a new node on the same window when it
    // is a single aligned one, else a new raw, if there are bytes.
    method Group(j: nat, size: nat, alignMemory: nat, ghost done: seq<Ptr>)
      returns (q: Ptr, k: nat, rebuilt: bool, outcome: Outcome)
      requires Valid() && j < |buffers| && size > 0 && alignMemory > 0 && AllOk(done)
      requires !WellPlaced(buffers[j], size, alignMemory) && StartOf(Parts(), j) % size == 0
      ensures Valid() && Chunks(buffers) == old(Chunks(buffers)) && j < k <= |buffers|
      ensures k < |buffers| ==> Kept(buffers, Parts(), k, size, alignMemory)
      ensures forall i :: j <= i < k ==> !Kept(buffers, Parts(), i, size, alignMemory)
      ensures AllOk(done) && Chunks(done) == old(Chunks(done))
      ensures outcome == if Concat(Chunks(buffers)[j..k]) == [] then PastEnd else Done
      ensures outcome == Done ==>
        && q.Ok() && q.Bytes() == Concat(Chunks(buffers)[j..k]) && q.len > 0
        && q.IsAligned(alignMemory) && (k < |buffers| ==> q.IsSized(size))
        && if rebuilt then !buffers[j].IsAligned(alignMemory) || (j + 1 < |buffers| && !buffers[j].IsSized(size))
           else k == j + 1 && q == buffers[j]
      ensures outcome == Done ==>
        if k == j + 1 && buffers[j].IsAligned(alignMemory) then q == buffers[j]
        else q.off == 0 && q.raw !in RawsOf(buffers)
    {
      hide Concat, Fold, Raw.Coherent, WellPlaced, Kept, StartOf, Ptr.IsAligned;
      WellPlacedMeans(buffers[j], size, alignMemory);
      var total;
      k, total := GroupEnd(j, size, alignMemory);
      ListKept(this);
      DoneKept(done);
      var it := buffers[j];
      q, rebuilt, outcome := it, false, Done;
      if k - j == 1 && it.IsAligned(alignMemory) {
        LoneNode(j, size);
      } else if total == 0 {
        outcome := PastEnd;
      } else {
        q := GatherNodes(j, k, total, alignMemory, done);
        rebuilt := true;
      }
    }

    lemma LoneNode(j: nat, size: nat)
      requires Valid() && j < |buffers| && size > 0
      ensures Concat(Chunks(buffers)[j..j + 1]) == buffers[j].Bytes()
      ensures !buffers[j].IsSized(size) ==> buffers[j].len > 0
    {
      hide Concat;
      assert Chunks(buffers)[j..j + 1] == [Chunks(buffers)[j]];
      ConcatOne(Chunks(buffers)[j]);
    }

    // A new raw for nodes j..k.
    method GatherNodes(j: nat, k: nat, total: nat, alignMemory: nat, ghost done: seq<Ptr>) returns (q: Ptr)
      requires Valid() && j < k <= |buffers| && AllOk(done) && alignMemory > 0
      requires total == |Concat(Chunks(buffers)[j..k])|
      ensures Valid() && Chunks(buffers) == old(Chunks(buffers)) && AllOk(done) && Chunks(done) == old(Chunks(done))
      ensures q.Ok() && q.Bytes() == Concat(Chunks(buffers)[j..k]) && q.len == total && q.IsAligned(alignMemory)
      ensures q.off == 0 && q.raw !in RawsOf(buffers)
    {
      hide Concat, Fold, Raw.Coherent;
      ghost var c, d := Chunks(buffers), Chunks(done);
      assert Chunks(buffers[j..k]) == c[j..k];
      q := Gather(buffers[j..k], total, alignMemory);
      assert Chunks(buffers) == c && Chunks(done) == d;
    }

    static twostate lemma DoneKept(done: seq<Ptr>)
      requires old(AllOk(done))
      requires forall p: Ptr :: old(allocated(p)) && old(p.Ok()) ==> p.Ok() && p.Bytes() == old(p.Bytes())
      ensures AllOk(done) && Chunks(done) == old(Chunks(done))
    {
    }

    // ----- Checksums -----

    // crc32c: node after node, from the checksum a raw remembers for the node's
    // range, re-based if it was taken from another start value, or computed and
    // remembered.
    method ListCrc32c(impl: Impl, crcIn: word) returns (crc: word)
      requires Valid() && forall i :: 0 <= i < |buffers| ==> buffers[i].len < UINT_LIMIT
      modifies RawsOf(buffers)`slot
      ensures Valid() && crc == Fold(crcIn, Flat()) && Flat() == old(Flat())
      ensures forall p: Ptr :: old(allocated(p)) && old(p.Ok()) ==> p.Ok() && p.Bytes() == old(p.Bytes())
      ensures forall b: List :: old(allocated(b)) && b != this && old(b.Valid()) ==>
        b.Valid() && b.Flat() == old(b.Flat())
    {
      hide Concat, Fold;
      ghost var c := Chunks(buffers);
      crc := crcIn;
      ConcatEmpty<byte>();
      FoldEmpty(crcIn);
      assert c[..0] == [] && c[..|c|] == c;
      for i := 0 to |buffers|
        invariant forall p: Ptr :: old(allocated(p)) && old(p.Ok()) ==> p.Ok() && p.Bytes() == old(p.Bytes())
        invariant AllOk(buffers) && Chunks(buffers) == c
        invariant crc == Fold(crcIn, Concat(c[..i]))
      {
        var p := buffers[i];
        ConcatAt(c, i);
        FoldSplit(crcIn, Concat(c[..i]), c[i]);
        if p.len > 0 {
          crc := NodeCrc32c(impl, p, crc);
          assert forall k :: 0 <= k < |buffers| ==> buffers[k].Ok() && buffers[k].Bytes() == c[k];
          assert Chunks(buffers) == c;
        } else {
          FoldEmpty(crc);
          assert c[i] == [];
        }
      }
      forall b: List | old(allocated(b)) && b != this && old(b.Valid())
        ensures b.Valid() && b.Flat() == old(b.Flat())
      {
        OtherKept(b);
      }
      assert Valid();
    }

    static method NodeCrc32c(impl: Impl, p: Ptr, crcIn: word) returns (crc: word)
      requires p.Ok() && 0 < p.len < UINT_LIMIT
      modifies p.raw`slot
      ensures p.Ok() && crc == Fold(crcIn, p.Bytes())
      ensures var was := old(p.raw.slot);
        p.raw.slot == if was.Cached? && was.from == p.off && was.to == p.End() then was
                      else Cached(p.off, p.End(), crcIn, crc)
      ensures forall p: Ptr :: old(allocated(p)) && old(p.Ok()) ==> p.Ok() && p.Bytes() == old(p.Bytes())
    {
      hide Fold, Xor, Zeros;
      ghost var bytes := p.Bytes();
      FoldWord(crcIn, bytes);
      var hit, base, val := p.raw.GetCrc(p.off, p.End());
      if hit {
        if base == crcIn {
          crc := val;
        } else {
          XorWord(base, crcIn);
          FoldZeroBytes(Xor(base, crcIn), p.len);
          Rebase(crcIn, base, bytes);
          var adjustment := SpecCrc32c(impl, Xor(base, crcIn), Null, p.len);
          crc := Xor(val, adjustment);
        }
      } else {
        var mem := p.raw.data[p.off..];
        assert mem[..p.len] == bytes;
        crc := SpecCrc32c(impl, crcIn, At(p.Address(), mem), p.len);
        p.raw.SetCrc(p.off, p.End(), crcIn, crc);
      }
    }

    // invalidate_crc
    method InvalidateCrcs()
      requires Valid()
      modifies RawsOf(buffers)`slot
      ensures Valid() && Flat() == old(Flat())
      ensures forall i :: 0 <= i < |buffers| ==> buffers[i].raw.slot.NoCrc?
      ensures forall p: Ptr :: old(allocated(p)) && old(p.Ok()) ==> p.Ok() && p.Bytes() == old(p.Bytes())
      ensures forall b: List :: old(allocated(b)) && b != this && old(b.Valid()) ==>
        b.Valid() && b.Flat() == old(b.Flat())
    {
      hide Concat, Fold;
      ghost var c := Chunks(buffers);
      for i := 0 to |buffers|
        invariant forall p: Ptr :: old(allocated(p)) && old(p.Ok()) ==> p.Ok() && p.Bytes() == old(p.Bytes())
        invariant forall k :: 0 <= k < i ==> buffers[k].raw.slot.NoCrc?
      {
        buffers[i].raw.InvalidateCrc();
      }
      assert Chunks(buffers) == c;
      forall b: List | old(allocated(b)) && b != this && old(b.Valid())
        ensures b.Valid() && b.Flat() == old(b.Flat())
      {
        OtherKept(b);
      }
    }

    // ----- Writing in place -----

    // The bytes that the list shows, each as a place in a raw.
    ghost function Cells(): (c: seq<Cell>)
      requires Valid()
      reads this, RawsOf(buffers)
      ensures |c| == |Flat()|
    {
      CellsMatch(buffers);
      CellsOf(buffers)
    }

    // ptr::copy_in or ptr::zero on node i.  Without a reset of the checksum, none
    // may be remembered for the bytes.
    method OverwriteNode(i: nat, at: nat, bytes: seq<byte>, crcReset: bool) returns (ghost ws: seq<Cell>)
      requires AllOk(buffers) && i < |buffers| && at + |bytes| <= buffers[i].len
      requires crcReset || buffers[i].raw.slot.NoCrc?
      modifies {buffers[i].raw}`data, {buffers[i].raw}`slot
      ensures |ws| == |bytes| && ws == CellsIn(Ptr(buffers[i].raw, buffers[i].off + at, |bytes|))
      ensures buffers[i].raw.slot.NoCrc?
      ensures forall r: Raw :: old(allocated(r)) ==> Stored(r, ws, bytes)
      ensures forall p: Ptr :: old(allocated(p)) && old(p.Ok()) ==> p.Ok()
    {
      hide Fold, WrittenByte, Stored;
      var p := buffers[i];
      ws := WriteRaw(p.raw, p.off + at, bytes, crcReset);
    }

    // A write has been made to memory, and the list's fields are as before it.
    twostate predicate Rewritten(new ws: seq<Cell>, new src: seq<byte>)
      requires |ws| == |src|
      reads this, RawsOf(buffers)
    {
      && old(Valid()) && buffers == old(buffers) && tailCache == old(tailCache) && len == old(len) && num == old(num)
      && forall i :: 0 <= i < |buffers| ==> buffers[i].Ok() && Stored(buffers[i].raw, ws, src)
    }

    // Its bytes are then as the write left them.
    twostate lemma RewrittenFlat(new ws: seq<Cell>, new src: seq<byte>)
      requires |ws| == |src| && Rewritten(ws, src)
      ensures Valid() && Flat() == WrittenFlat(ws, src, old(Cells()), old(Flat()))
    {
      hide Concat, Fold, WrittenByte, Raw.Coherent;
      var was := old(Parts());
      forall i | 0 <= i < |buffers|
        ensures buffers[i].Bytes() == WrittenFlat(ws, src, CellsIn(buffers[i]), was[i])
      {
        WindowAfter(buffers[i], ws, src, old(buffers[i].raw.data));
      }
      RowsWritten(ws, src, CellRows(buffers), was, Chunks(buffers));
    }

    // zero(off, n): a write of zeros to the places off..off + n, which clears
    // just those when they share no byte with others.
    method Zero(off: nat, n: nat) returns (ghost ws: seq<Cell>)
      requires Valid() && off + n <= len
      modifies RawsOf(buffers)`data, RawsOf(buffers)`slot
      ensures Valid() && off + n <= |old(Cells())| && ws == old(Cells())[off..off + n]
      ensures forall b: List :: old(allocated(b)) && old(b.Valid()) ==>
        b.Valid() && b.Flat() == WrittenFlat(ws, ZeroBytes(|ws|), old(b.Cells()), old(b.Flat()))
      ensures RangeApart(old(Cells()), off, n) ==> Flat() == Patched(old(Flat()), off, ZeroBytes(n))
      ensures forall p: Ptr :: old(allocated(p)) && old(p.Ok()) ==> p.Ok()
      ensures forall r: Raw :: old(allocated(r)) ==> Stored(r, ws, ZeroBytes(|ws|))
    {
      hide Concat, Fold, WrittenByte, Raw.Coherent, CellsOf, Stored;
      ghost var cells := Cells();
      FlatIsParts();
      ws := ZeroCells(off, n);
      forall b: List | old(allocated(b)) && old(b.Valid())
        ensures b.Valid() && b.Flat() == WrittenFlat(ws, ZeroBytes(|ws|), old(b.Cells()), old(b.Flat()))
      {
        b.RewrittenFlat(ws, ZeroBytes(|ws|));
      }
      if RangeApart(cells, off, n) {
        ZeroExactly(cells, off, n, old(Flat()));
      }
    }

    // Its loop: node after node, until the range ends.
    method ZeroCells(off: nat, n: nat) returns (ghost ws: seq<Cell>)
      requires AllOk(buffers) && off + n <= |CellsOf(buffers)|
      modifies RawsOf(buffers)`data, RawsOf(buffers)`slot
      ensures ws == CellsOf(buffers)[off..off + n]
      ensures forall r: Raw :: old(allocated(r)) ==> Stored(r, ws, ZeroBytes(|ws|))
      ensures forall p: Ptr :: old(allocated(p)) && old(p.Ok()) ==> p.Ok()
    {
      hide Concat, Fold, WrittenByte, CellsOf, PlaceOf, List.Valid, List.Shape;
      ghost var cells := CellsOf(buffers);
      var pos: nat, i: nat := 0, 0;
      PlaceEnds(buffers);
      ws := [];
      forall r: Raw | old(allocated(r))
        ensures Stored(r, ws, ZeroBytes(|ws|))
      {
        NothingStored(r, ws, ZeroBytes(|ws|));
      }
      while i < |buffers|
        invariant i <= |buffers| && buffers == old(buffers) && AllOk(buffers) && pos == PlaceOf(buffers, i)
        invariant |ws| == Covered(pos, off, n) && ws == cells[off..off + |ws|]
        invariant forall p: Ptr :: old(allocated(p)) && old(p.Ok()) ==> p.Ok()
        invariant forall r: Raw :: old(allocated(r)) ==> Stored(r, ws, ZeroBytes(|ws|))
      {
        if off + n <= pos {
          break;
        }
        forall r: Raw | old(allocated(r))
          ensures |r.data| == |old(r.data)|
          ensures forall k :: 0 <= k < |r.data| ==>
            r.data[k] == WrittenByte(ws, ZeroBytes(|ws|), Cell(r, k), old(r.data)[k])
        {
          assert Stored(r, ws, ZeroBytes(|ws|));
        }
        label mid:
        ghost var more;
        pos, more := ZeroStep(i, pos, off, n);
        i := i + 1;
        assert ZeroBytes(|ws|) + ZeroBytes(|more|) == ZeroBytes(|ws + more|);
        forall r: Raw | old(allocated(r))
          ensures Stored(r, ws + more, ZeroBytes(|ws + more|))
        {
          assert old@mid(allocated(r)) && Stored@mid(r, more, ZeroBytes(|more|));
          WrittenTwice(r, old(r.data), old@mid(r.data), r.data, ws, ZeroBytes(|ws|), more, ZeroBytes(|more|));
        }
        ws := ws + more;
      }
    }

    // One round of zero: the part of node i, which starts at pos, inside the range.
    method ZeroStep(i: nat, pos: nat, off: nat, n: nat) returns (next: nat, ghost ws: seq<Cell>)
      requires AllOk(buffers) && i < |buffers| && pos == PlaceOf(buffers, i) && pos < off + n
      requires off + n <= |CellsOf(buffers)|
      modifies {buffers[i].raw}`data, {buffers[i].raw}`slot
      ensures next == PlaceOf(buffers, i + 1) && Covered(next, off, n) == Covered(pos, off, n) + |ws|
      ensures var s := off + Covered(pos, off, n); ws == CellsOf(buffers)[s..s + |ws|]
      ensures forall r: Raw :: old(allocated(r)) ==> Stored(r, ws, ZeroBytes(|ws|))
      ensures forall p: Ptr :: old(allocated(p)) && old(p.Ok()) ==> p.Ok()
    {
      hide Concat, Fold, WrittenByte, CellsOf, PlaceOf, Stored;
      PlaceNext(buffers, i);
      var length := buffers[i].len;
      next := pos + length;
      ws := [];
      if length == 0 || next <= off {
        forall r: Raw | old(allocated(r))
          ensures Stored(r, ws, ZeroBytes(|ws|))
        {
          NothingStored(r, ws, ZeroBytes(|ws|));
        }
      } else if pos >= off && next < off + n {
        ws := ZeroPart(i, 0, length);
      } else if pos >= off {
        ws := ZeroPart(i, 0, off + n - pos);
      } else if next <= off + n {
        ws := ZeroPart(i, off - pos, length - (off - pos));
      } else {
        ws := ZeroPart(i, off - pos, n);
      }
    }

    // ptr::zero(at, n) on node i.
    method ZeroPart(i: nat, at: nat, n: nat) returns (ghost ws: seq<Cell>)
      requires AllOk(buffers) && i < |buffers| && at + n <= buffers[i].len
      modifies {buffers[i].raw}`data, {buffers[i].raw}`slot
      ensures var s := PlaceOf(buffers, i) + at;
        |ws| == n && s + n <= |CellsOf(buffers)| && ws == CellsOf(buffers)[s..s + n]
      ensures forall r: Raw :: old(allocated(r)) ==> Stored(r, ws, ZeroBytes(|ws|))
      ensures forall p: Ptr :: old(allocated(p)) && old(p.Ok()) ==> p.Ok()
    {
      hide Concat, Fold, WrittenByte, CellsOf, PlaceOf, Stored;
      NodeCells(buffers, i, at, n);
      ws := OverwriteNode(i, at, ZeroBytes(n), true);
    }
  }

  // A window joins, merged or not.
  lemma JoinedCells(ps: seq<Ptr>, q: Ptr)
    ensures CellsOf(Joined(ps, q)) == CellsOf(ps) + CellsIn(q)
  {
    hide CellsOf;
    CellsSnoc(ps, q);
    if ps != [] {
      LastCellsGrow(ps, q.len);
    }
  }

  // What windows show is not among cells that none of them shows.
  lemma SeenNotNew(ps: seq<Ptr>, now: seq<Cell>)
    requires forall i, l :: 0 <= i < |ps| && |CellsOf(ps)| <= l < |now| ==> !Shows(ps[i], now[l])
    ensures forall k, l :: 0 <= k < |CellsOf(ps)| <= l < |now| ==> CellsOf(ps)[k] != now[l]
  {
    hide CellsOf;
    forall k, l | 0 <= k < |CellsOf(ps)| <= l < |now|
      ensures CellsOf(ps)[k] != now[l]
    {
      var i := CellShown(ps, k);
    }
  }

  lemma {:induction false} JoinedAllCells(ps: seq<Ptr>, qs: seq<Ptr>)
    ensures CellsOf(JoinedAll(ps, qs)) == CellsOf(ps) + CellsOf(qs)
    decreases |qs|
  {
    hide CellsOf;
    if qs == [] {
      NoCells();
    } else {
      var front, q := qs[..|qs| - 1], qs[|qs| - 1];
      JoinedAllCells(ps, front);
      JoinedCells(JoinedAll(ps, front), q);
      CellsSnoc(front, q);
      assert qs == front + [q];
      Assoc(CellsOf(ps), CellsOf(front), CellsIn(q));
    }
  }

  // A new node without bytes shows none.
  lemma EmptyNode(was: seq<Ptr>, now: seq<Ptr>)
    requires now == was || exists q: Ptr :: q.len == 0 && now == was + [q]
    ensures CellsOf(now) == CellsOf(was)
  {
    hide CellsOf;
    if now != was {
      var q: Ptr :| q.len == 0 && now == was + [q];
      CellsSnoc(was, q);
    }
  }

  // How many bytes of the range are done when the nodes before pos are.
  function Covered(pos: nat, off: nat, n: nat): (done: nat)
    ensures done <= n
  {
    if pos <= off then 0 else if pos < off + n then pos - off else n
  }

  // A list that keeps its nodes keeps its parts when the windows keep their bytes.
  twostate lemma WindowsKept(list: List)
    requires old(list.Valid()) && unchanged(list) && list.Valid()
    requires forall p: Ptr :: old(allocated(p)) && old(p.Ok()) ==> p.Ok() && p.Bytes() == old(p.Bytes())
    ensures list.Parts() == old(list.Parts()) && list.Flat() == old(list.Flat())
  {
    hide Concat, Fold;
    assert Chunks(list.buffers) == old(Chunks(list.buffers));
  }

  // A list of which nothing is modified.
  twostate lemma ListKept(list: List)
    requires old(list.Valid()) && unchanged(list)
    requires forall r: Raw :: old(allocated(r)) ==>
      r.data == old(r.data) && r.slot == old(r.slot) && r.used == old(r.used) && r.owner == old(r.owner)
    ensures list.Valid() && list.Parts() == old(list.Parts()) && list.Flat() == old(list.Flat())
  {
    hide Concat, Fold;
    List.OtherKept(list);
    assert Chunks(list.buffers) == old(Chunks(list.buffers));
  }

  // The nodes with one more window, which the last node takes in when the window
  // continues it.
  function Joined(ps: seq<Ptr>, q: Ptr): seq<Ptr> {
    if ps != [] && ps[|ps| - 1].raw == q.raw && ps[|ps| - 1].End() == q.off then
      ps[|ps| - 1 := ps[|ps| - 1].(len := ps[|ps| - 1].len + q.len)]
    else ps + [q]
  }

  // The same with window after window.
  function JoinedAll(ps: seq<Ptr>, qs: seq<Ptr>): seq<Ptr> {
    if qs == [] then ps else Joined(JoinedAll(ps, qs[..|qs| - 1]), qs[|qs| - 1])
  }

  // Memory-aligned and a multiple of the size: a node that is kept as it is.
  predicate WellPlaced(p: Ptr, size: nat, alignMemory: nat)
    requires size > 0 && alignMemory > 0
  {
    p.IsAligned(alignMemory) && p.IsSized(size)
  }

  lemma WellPlacedMeans(p: Ptr, size: nat, alignMemory: nat)
    requires size > 0 && alignMemory > 0
    ensures WellPlaced(p, size, alignMemory) <==> p.IsAligned(alignMemory) && p.IsSized(size)
  {
  }

  // Node i, of nodes ps with bytes c, is neither moved nor replaced: it is well
  // placed and starts at a multiple of the size, so that no group is open there.
  ghost predicate Kept(ps: seq<Ptr>, c: seq<seq<byte>>, i: nat, size: nat, alignMemory: nat)
    requires i < |ps| == |c| && size > 0 && alignMemory > 0
  {
    WellPlaced(ps[i], size, alignMemory) && StartOf(c, i) % size == 0
  }

  lemma GroupStart(c: seq<seq<byte>>, j: nat, k: nat, total: nat, size: nat)
    requires j <= k <= |c| && size > 0 && StartOf(c, j) % size == 0
    requires total == |Concat(c[j..k])|
    ensures StartOf(c, k) % size == total % size
  {
    hide Concat;
    assert c[..k] == c[..j] + c[j..k];
    ConcatAppend(c[..j], c[j..k]);
    var m := StartOf(c, j) / size;
    assert StartOf(c, j) == size * m;
    ModShift(size, m, total);
  }

  // What regular nodes of len bytes come to.
  lemma SizesEnd(ps: seq<Ptr>, num: nat, len: nat, alignSize: nat, alignMemory: nat, maxBuffers: nat)
    requires alignSize > 0 && alignMemory > 0 && AllOk(ps) && |ps| <= num && len == |Concat(Chunks(ps))|
    requires Regular(ps, EffectiveSize(alignSize, maxBuffers, num, len), alignMemory)
    ensures len % EffectiveSize(alignSize, maxBuffers, num, len) == 0 ==>
      AllSized(ps, EffectiveSize(alignSize, maxBuffers, num, len))
    ensures maxBuffers > 0 ==> NonEmpty(ps) <= maxBuffers
  {
    hide Concat, Fold, Raw.Coherent, Ptr.IsAligned, Ptr.IsSized, EffectiveSize;
    LengthIsSum(ps);
    Counting(ps, EffectiveSize(alignSize, maxBuffers, num, len));
    CountBound(NonEmpty(ps), num, len, alignSize, maxBuffers);
  }

  // Nodes a..b are a group, a run of nodes that are not kept as long as can be, and
  // have no bytes.
  ghost predicate Hollow(ps: seq<Ptr>, c: seq<seq<byte>>, a: nat, b: nat, size: nat, alignMemory: nat)
    requires |c| == |ps| && size > 0 && alignMemory > 0
  {
    && a < b <= |ps| && (a > 0 ==> Kept(ps, c, a - 1, size, alignMemory))
    && (b < |ps| ==> Kept(ps, c, b, size, alignMemory))
    && forall i :: a <= i < b ==> !Kept(ps, c, i, size, alignMemory) && c[i] == []
  }

  ghost predicate HasHollow(ps: seq<Ptr>, c: seq<seq<byte>>, size: nat, alignMemory: nat)
    requires |c| == |ps| && size > 0 && alignMemory > 0
  {
    exists a, b :: 0 <= a < b <= |ps| && Hollow(ps, c, a, b, size, alignMemory)
  }

  ghost predicate NoneHollow(ps: seq<Ptr>, c: seq<seq<byte>>, from: nat, to: nat, size: nat, alignMemory: nat)
    requires |c| == |ps| && size > 0 && alignMemory > 0
  {
    forall a, b :: from <= a < to && a < b <= |ps| ==> !Hollow(ps, c, a, b, size, alignMemory)
  }

  // Where a group may begin or a kept node is.
  ghost predicate AtBound(ps: seq<Ptr>, c: seq<seq<byte>>, j: nat, size: nat, alignMemory: nat)
    requires |c| == |ps| && size > 0 && alignMemory > 0 && j <= |ps|
  {
    j == 0 || j == |ps| || Kept(ps, c, j - 1, size, alignMemory) || Kept(ps, c, j, size, alignMemory)
  }

  // The only group that begins among nodes j..k of one is that one.
  lemma RunHollow(ps: seq<Ptr>, c: seq<seq<byte>>, j: nat, k: nat, size: nat, alignMemory: nat)
    requires |c| == |ps| && size > 0 && alignMemory > 0 && j < k <= |ps|
    requires AtBound(ps, c, j, size, alignMemory)
    requires k < |ps| ==> Kept(ps, c, k, size, alignMemory)
    requires forall i :: j <= i < k ==> !Kept(ps, c, i, size, alignMemory)
    ensures Hollow(ps, c, j, k, size, alignMemory) <==> Concat(c[j..k]) == []
    ensures !Hollow(ps, c, j, k, size, alignMemory) ==> NoneHollow(ps, c, j, k, size, alignMemory)
  {
    hide Kept, Concat;
    NothingIn(c[j..k]);
    assert forall i :: j <= i < k ==> c[i] == c[j..k][i - j];
  }

  lemma {:induction false} NothingIn(c: seq<seq<byte>>)
    ensures Concat(c) == [] <==> forall i :: 0 <= i < |c| ==> c[i] == []
  {
    if c != [] {
      NothingIn(c[1..]);
      assert forall i :: 1 <= i < |c| ==> c[i] == c[1..][i - 1];
    }
  }

  // Node q stands for nodes a..b: for a kept node itself; for a group as long as
  // can be of nodes that are not kept, a new raw, but the node itself when it is a
  // single aligned one.
  ghost predicate NodeFor(ps: seq<Ptr>, c: seq<seq<byte>>, q: Ptr, a: nat, b: nat, size: nat, alignMemory: nat)
    requires |c| == |ps| && size > 0 && alignMemory > 0
  {
    && a < b <= |ps|
    && if Kept(ps, c, a, size, alignMemory) then b == a + 1 && q == ps[a]
       else
         && (forall i :: a <= i < b ==> !Kept(ps, c, i, size, alignMemory))
         && (b < |ps| ==> Kept(ps, c, b, size, alignMemory))
         && q.len == |Concat(c[a..b])|
         && if b == a + 1 && ps[a].IsAligned(alignMemory) then q == ps[a] else q.off == 0 && q.raw !in RawsOf(ps)
  }

  // The nodes done stand for the nodes before j, one after another.
  ghost predicate Grouped(ps: seq<Ptr>, c: seq<seq<byte>>, done: seq<Ptr>, bounds: seq<nat>, j: nat,
                          size: nat, alignMemory: nat)
    requires |c| == |ps| && size > 0 && alignMemory > 0
  {
    && |bounds| == |done| + 1 && bounds[0] == 0 && bounds[|done|] == j
    && forall k :: 0 <= k < |done| ==> NodeFor(ps, c, done[k], bounds[k], bounds[k + 1], size, alignMemory)
  }

  lemma GroupedOn(ps: seq<Ptr>, c: seq<seq<byte>>, done: seq<Ptr>, bounds: seq<nat>, j: nat, k: nat,
                  done': seq<Ptr>, size: nat, alignMemory: nat)
    requires |c| == |ps| && size > 0 && alignMemory > 0 && Grouped(ps, c, done, bounds, j, size, alignMemory)
    requires |done'| == |done| + 1 && done' == done + [done'[|done|]]
    requires NodeFor(ps, c, done'[|done|], j, k, size, alignMemory)
    ensures Grouped(ps, c, done', bounds + [k], k, size, alignMemory)
  {
    hide NodeFor;
  }

  // Nodes without bytes are only those there were.
  ghost predicate EmptiesFrom(ps: seq<Ptr>, old': seq<Ptr>) {
    forall i :: 0 <= i < |ps| && ps[i].len == 0 ==> ps[i] in old'
  }

  ghost function NonEmpty(ps: seq<Ptr>): (n: nat)
    ensures n <= |ps|
  {
    if ps == [] then 0 else NonEmpty(ps[..|ps| - 1]) + if ps[|ps| - 1].len > 0 then 1 else 0
  }

  ghost predicate AllSized(ps: seq<Ptr>, size: nat)
    requires size > 0
  {
    forall i :: 0 <= i < |ps| ==> ps[i].IsSized(size)
  }

  // Every node is aligned, and every one but the last is sized.
  ghost predicate Regular(ps: seq<Ptr>, size: nat, alignMemory: nat)
    requires size > 0 && alignMemory > 0
  {
    && (forall i :: 0 <= i < |ps| ==> ps[i].IsAligned(alignMemory))
    && (forall i :: 0 <= i < |ps| - 1 ==> ps[i].IsSized(size))
  }

  lemma Extended(done: seq<Ptr>, q: Ptr, c: seq<seq<byte>>, j: nat, k: nat)
    requires AllOk(done) && q.Ok() && j <= k <= |c|
    requires Concat(Chunks(done)) == Concat(c[..j]) && q.Bytes() == Concat(c[j..k])
    ensures AllOk(done + [q]) && Concat(Chunks(done + [q])) == Concat(c[..k])
  {
    hide Concat, Raw.Coherent;
    assert Chunks(done + [q]) == Chunks(done) + [q.Bytes()];
    ConcatSnoc(Chunks(done), q.Bytes());
    assert c[..k] == c[..j] + c[j..k];
    ConcatAppend(c[..j], c[j..k]);
  }

  ghost function SumLen(ps: seq<Ptr>): nat {
    if ps == [] then 0 else SumLen(ps[..|ps| - 1]) + ps[|ps| - 1].len
  }

  lemma {:induction false} LengthIsSum(ps: seq<Ptr>)
    requires AllOk(ps)
    ensures |Concat(Chunks(ps))| == SumLen(ps)
  {
    hide Concat;
    ConcatEmpty<byte>();
    if ps == [] {
      assert Chunks(ps) == [];
    } else {
      var front, last := ps[..|ps| - 1], ps[|ps| - 1];
      LengthIsSum(front);
      assert Chunks(ps) == Chunks(front) + [last.Bytes()];
      ConcatSnoc(Chunks(front), last.Bytes());
    }
  }

  // Sized nodes hold a multiple of the size, and at least one size each that has
  // bytes at all.
  lemma {:induction false} SizedSum(ps: seq<Ptr>, size: nat) returns (m: nat)
    requires size > 0 && AllSized(ps, size)
    ensures SumLen(ps) == size * m && m >= NonEmpty(ps)
  {
    m := 0;
    if ps != [] {
      var front, last := ps[..|ps| - 1], ps[|ps| - 1];
      var n := SizedSum(front, size);
      var q := last.len / size;
      assert last.len == size * q;
      assert last.len > 0 ==> q >= 1;
      m := n + q;
    }
  }

  // Regular nodes: all but the last make up whole sizes, so the last is sized
  // exactly when the total is.
  lemma Counting(ps: seq<Ptr>, size: nat)
    requires size > 0
    requires forall i :: 0 <= i < |ps| - 1 ==> ps[i].IsSized(size)
    ensures NonEmpty(ps) > 0 ==> SumLen(ps) > size * (NonEmpty(ps) - 1)
    ensures SumLen(ps) % size == 0 ==> AllSized(ps, size)
  {
    hide Ptr.IsSized;
    if ps != [] {
      var front, last := ps[..|ps| - 1], ps[|ps| - 1];
      assert AllSized(front, size);
      var m := SizedSum(front, size);
      Exceeds(size, m, NonEmpty(front), last.len);
      LastSized(ps, size, m);
    }
  }

  lemma LastSized(ps: seq<Ptr>, size: nat, m: nat)
    requires size > 0 && ps != [] && SumLen(ps[..|ps| - 1]) == size * m
    ensures SumLen(ps) % size == 0 ==> ps[|ps| - 1].IsSized(size)
  {
    ModShift(size, m, ps[|ps| - 1].len);
  }

  lemma Exceeds(size: nat, m: nat, n: nat, rest: nat)
    requires size > 0 && n <= m
    ensures rest > 0 ==> size * m + rest > size * n
    ensures n > 0 ==> size * m + rest > size * (n - 1)
  {
    MulMono(size, n, m);
    assert n > 0 ==> size * (n - 1) == size * n - size;
  }

  lemma MulMono(size: nat, a: nat, b: nat)
    requires a <= b
    ensures size * a <= size * b
  {
  }

  lemma ModUnique(a: nat, size: nat, q: nat, r: nat)
    requires a == size * q + r && r < size
    ensures a % size == r
  {
    var q' := a / size;
    assert a == size * q' + a % size;
    MulLess(size, q, q' + 1);
    MulLess(size, q', q + 1);
  }

  lemma ModShift(size: nat, m: nat, x: nat)
    requires size > 0
    ensures (size * m + x) % size == x % size
  {
    var q, r := x / size, x % size;
    assert size * m + x == size * (m + q) + r;
    ModUnique(size * m + x, size, m + q, r);
  }

  lemma MulLess(size: nat, a: nat, b: nat)
    requires size * a < size * b
    ensures a < b
  {
  }

  lemma RoundUpFacts(n: nat, d: nat)
    requires d > 0
    ensures n <= RoundUpTo(n, d) < n + d && RoundUpTo(n, d) % d == 0
  {
    var q, r := n / d, n % d;
    if r != 0 {
      assert n + d - r == d * (q + 1);
      ModShift(d, q + 1, 0);
    }
  }

  // No multiple of d from n on is smaller.
  lemma LeastMultiple(n: nat, d: nat, s: nat)
    requires d > 0 && s >= n && s % d == 0
    ensures s >= RoundUpTo(n, d)
  {
    RoundUpFacts(n, d);
    var r := RoundUpTo(n, d);
    var i, j := r / d, s / d;
    assert r == d * i && s == d * j;
    if s < r {
      MulLess(d, j, i);
      MulMono(d, j + 1, i);
    }
  }

  // What the effective size is to be: align_size where that does, else the least
  // multiple of it of which max_buffers hold the list.
  ghost predicate Serves(size: nat, alignSize: nat, maxBuffers: nat, num: nat, len: nat)
    requires alignSize > 0
  {
    if maxBuffers == 0 || num <= maxBuffers || len <= maxBuffers * alignSize then size == alignSize
    else
      && size % alignSize == 0 && size * maxBuffers >= len
      && forall s: nat :: s % alignSize == 0 && s * maxBuffers >= len ==> size <= s
  }

  lemma EffectiveServes(alignSize: nat, maxBuffers: nat, num: nat, len: nat)
    requires alignSize > 0
    ensures Serves(EffectiveSize(alignSize, maxBuffers, num, len), alignSize, maxBuffers, num, len)
  {
    if maxBuffers > 0 && num > maxBuffers && len > maxBuffers * alignSize {
      EffectiveCovers(alignSize, maxBuffers, num, len);
      forall s: nat | s % alignSize == 0 && s * maxBuffers >= len
        ensures EffectiveSize(alignSize, maxBuffers, num, len) <= s
      {
        ModShift(maxBuffers, s, 0);
        LeastMultiple(len, maxBuffers, s * maxBuffers);
        RoundUpFacts(len, maxBuffers);
        var total := RoundUpTo(len, maxBuffers);
        var share := total / maxBuffers;
        assert total == maxBuffers * share;
        if s < share {
          MulMono(maxBuffers, s + 1, share);
        }
        LeastMultiple(share, alignSize, s);
      }
    }
  }

  // The effective size times max_buffers covers the list.
  lemma EffectiveCovers(alignSize: nat, maxBuffers: nat, num: nat, len: nat)
    requires alignSize > 0 && maxBuffers > 0 && num > maxBuffers
    ensures EffectiveSize(alignSize, maxBuffers, num, len) * maxBuffers >= len
  {
    if len > maxBuffers * alignSize {
      var total := RoundUpTo(len, maxBuffers);
      RoundUpFacts(len, maxBuffers);
      var share := total / maxBuffers;
      assert share * maxBuffers == total;
      RoundUpFacts(share, alignSize);
      assert RoundUpTo(share, alignSize) * maxBuffers >= share * maxBuffers;
    }
  }

  lemma CountBound(count: nat, num: nat, len: nat, alignSize: nat, maxBuffers: nat)
    requires alignSize > 0 && count <= num
    requires count > 0 ==> len > EffectiveSize(alignSize, maxBuffers, num, len) * (count - 1)
    ensures maxBuffers > 0 ==> count <= maxBuffers
  {
    if maxBuffers > 0 && num > maxBuffers && count > 0 {
      var size := EffectiveSize(alignSize, maxBuffers, num, len);
      EffectiveCovers(alignSize, maxBuffers, num, len);
      MulLess(size, count - 1, maxBuffers);
    }
  }

  // The align_size that rebuild_aligned_size_and_memory works with.
  function EffectiveSize(alignSize: nat, maxBuffers: nat, num: nat, len: nat): (size: nat)
    requires alignSize > 0
    ensures size > 0 && size % alignSize == 0
  {
    var n := if maxBuffers > 0 then maxBuffers else 1;
    RoundUpFacts(RoundUpTo(len, n) / n, alignSize);
    if maxBuffers > 0 && num > maxBuffers && len > maxBuffers * alignSize then
      RoundUpTo(RoundUpTo(len, maxBuffers) / maxBuffers, alignSize)
    else
      alignSize
  }

  // substr_of ends normally only for a range that stops before the last byte.
  function SubstrOutcome(off: nat, n: nat, len: nat): Outcome {
    if off + n > len then EndOfBuffer else if off + n == len then PastEnd else Done
  }

  // How a cut ends: normally, with the exception for a start outside the list,
  // or by walking onto the sentinel of the chain.
  datatype Outcome = Done | EndOfBuffer | PastEnd

  function CutOutcome(off: nat, n: nat, len: nat): Outcome {
    if n == 0 then Done else if off >= len then EndOfBuffer else if off + n > len then PastEnd else Done
  }

  lemma InsertedLength(chunks: seq<seq<byte>>, i: nat, c: seq<byte>)
    requires i <= |chunks|
    ensures |Concat(chunks[..i] + [c] + chunks[i..])| == |Concat(chunks)| + |c|
  {
    hide Concat;
    ConcatSnoc(chunks[..i], c);
    ConcatAppend(chunks[..i] + [c], chunks[i..]);
    ConcatAppend(chunks[..i], chunks[i..]);
    assert chunks == chunks[..i] + chunks[i..];
  }

  lemma LastChunkGrows(chunks: seq<seq<byte>>, src: seq<byte>)
    requires chunks != []
    ensures var last := |chunks| - 1;
      Concat(chunks[last := chunks[last] + src]) == Concat(chunks) + src
  {
    hide Concat;
    var last := |chunks| - 1;
    ConcatReplace(chunks, last, chunks[last] + src);
    ConcatAt(chunks, last);
    assert chunks[last + 1..] == [];
    ConcatEmpty<byte>();
  }
}
