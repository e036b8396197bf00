// contiguous_filler: writes into a hole of a list, byte range after byte range,
// without a look at the checksum that the raw may remember.
module ListFiller {
  import opened Crc
  import opened Rope
  import opened BufferRaw
  import opened BufferCells
  import opened BufferList

  class ContiguousFiller {
    // _pos, as a place in a raw
    const raw: Raw
    var pos: nat

    constructor (raw: Raw, pos: nat)
      ensures this.raw == raw && this.pos == pos
    {
      this.raw, this.pos := raw, pos;
    }

    method Advance(n: nat)
      modifies this
      ensures pos == old(pos) + n
    {
      pos := pos + n;
    }

    // copy_in, memory alone.
    method Write(src: seq<byte>) returns (ghost ws: seq<Cell>)
      requires pos + |src| <= raw.used <= |raw.data|
      modifies this, raw`data, raw`slot
      ensures pos == old(pos) + |src| && |ws| == |src| && ws == CellsIn(Ptr(raw, old(pos), |src|))
      ensures raw.data == Patched(old(raw.data), old(pos), src) && raw.slot == old(raw.slot)
      ensures forall r: Raw :: old(allocated(r)) ==> Stored(r, ws, src)
    {
      ws := WriteRaw(raw, pos, src, false);
      Advance(|src|);
    }

    // copy_in: every list on the raw remains sound exactly when the checksum that
    // the raw remembers is still right, as it is when it covers none of the bytes.
    // A place shown once is patched; lists that do not show the bytes keep theirs.
    method CopyIn(src: seq<byte>) returns (ghost ws: seq<Cell>)
      requires pos + |src| <= raw.used <= |raw.data|
      modifies this, raw`data, raw`slot
      ensures pos == old(pos) + |src| && |ws| == |src| && ws == CellsIn(Ptr(raw, old(pos), |src|))
      ensures raw.data == Patched(old(raw.data), old(pos), src) && raw.slot == old(raw.slot)
      ensures old(raw.Valid()) && Untouched(raw.slot, old(pos), |src|) ==> SlotHolds(raw.slot, raw.data)
      ensures forall b: List :: old(allocated(b)) && old(b.Valid()) ==>
        (b.Valid() <==> raw !in RawsOf(b.buffers) || SlotHolds(raw.slot, raw.data))
      ensures forall b: List :: old(allocated(b)) && old(b.Valid()) && b.Valid() ==>
        b.Flat() == WrittenFlat(ws, src, old(b.Cells()), old(b.Flat()))
      ensures forall b: List, at: nat :: old(allocated(b)) && old(b.Valid()) && b.Valid() ==>
        ShownAt(old(b.Cells()), at, ws) ==> b.Flat() == Patched(old(b.Flat()), at, src)
      ensures forall b: List :: old(allocated(b)) && old(b.Valid()) && b.Valid() ==>
        NoneOf(old(b.Cells()), ws) ==> b.Flat() == old(b.Flat())
    {
      hide Fold, WrittenByte, Concat, CellsOf, Patched;
      if old(raw.Valid()) && Untouched(raw.slot, pos, |src|) {
        FillKeepsChecksum(raw.slot, raw.data, pos, |src|);
      }
      ws := Write(src);
      forall b: List | old(allocated(b)) && old(b.Valid())
        ensures b.Valid() <==> raw !in RawsOf(b.buffers) || SlotHolds(raw.slot, raw.data)
      {
        Sound(b, ws, src);
      }
      forall b: List | old(allocated(b)) && old(b.Valid()) && b.Valid()
        ensures b.Flat() == WrittenFlat(ws, src, old(b.Cells()), old(b.Flat()))
      {
        b.RewrittenFlat(ws, src);
      }
      forall b: List, at: nat | old(allocated(b)) && old(b.Valid()) && b.Valid() && ShownAt(old(b.Cells()), at, ws)
        ensures b.Flat() == Patched(old(b.Flat()), at, src)
      {
        WriteExactly(old(b.Cells()), at, |ws|, old(b.Flat()), src);
      }
      forall b: List | old(allocated(b)) && old(b.Valid()) && b.Valid() && NoneOf(old(b.Cells()), ws)
        ensures b.Flat() == old(b.Flat())
      {
        WriteElsewhere(ws, src, old(b.Cells()), old(b.Flat()));
      }
    }

    twostate lemma Sound(b: List, new ws: seq<Cell>, new src: seq<byte>)
      requires old(b.Valid()) && unchanged(b) && |ws| == |src|
      requires raw.used == old(raw.used) && |raw.data| == |old(raw.data)| && raw.slot == old(raw.slot)
      requires forall r: Raw {:trigger r.slot} :: old(allocated(r)) && r != raw ==>
        r.slot == old(r.slot) && r.data == old(r.data)
      requires forall r: Raw :: old(allocated(r)) ==> Stored(r, ws, src)
      ensures b.Valid() <==> raw !in RawsOf(b.buffers) || SlotHolds(raw.slot, raw.data)
    {
      hide Fold, WrittenByte, Concat, CellsOf, SlotHolds;
      var was := old(b.Cells());
      assert |was| == |old(b.Flat())| == b.len && was == CellsOf(b.buffers);
      if raw !in RawsOf(b.buffers) || SlotHolds(raw.slot, raw.data) {
        forall i | 0 <= i < |b.buffers|
          ensures b.buffers[i].Ok()
        {
          assert old(b.buffers[i].Ok()) && Stored(b.buffers[i].raw, ws, src);
        }
        CellsMatch(b.buffers);
        assert b.tailCache >= 0 ==> Stored(b.buffers[b.tailCache].raw, ws, src);
      }
    }
  }

  // append_hole with its filler: the hole is shown once, by this list alone, and
  // no checksum is remembered for it yet.
  method NewFiller(list: List, n: nat) returns (filler: ContiguousFiller, ghost hole: seq<byte>)
    requires list.Valid() && (n > 0 || list.tailCache >= 0)
    modifies list, list.TailRaw()
    ensures list.Valid() && |hole| == n && list.Flat() == old(list.Flat()) + hole
    ensures fresh(filler) && filler.raw.Valid() && filler.pos + n <= filler.raw.used
    ensures Untouched(filler.raw.slot, filler.pos, n)
    ensures ShownAt(list.Cells(), |old(list.Flat())|, CellsIn(Ptr(filler.raw, filler.pos, n)))
    ensures forall b: List :: old(allocated(b)) && b != list && old(b.Valid()) ==>
      && b.Valid() && b.Flat() == old(b.Flat())
      && NoneOf(b.Cells(), CellsIn(Ptr(filler.raw, filler.pos, n)))
  {
    hide Fold, Concat, CellsOf, Raw.Coherent;
    ghost var was := list.Cells();
    var raw, pos;
    hole, raw, pos := list.AppendHole(n);
    ghost var ws := CellsIn(Ptr(raw, pos, n));
    assert forall k :: 0 <= k < n ==> ws[k] == list.Cells()[|was| + k];
    forall b: List | old(allocated(b)) && old(b.Valid())
      ensures NoneOf(old(b.Cells()), ws)
    {
      forall k | 0 <= k < |old(b.Cells())|
        ensures old(b.Cells())[k] !in ws
      {
        var i := CellShown(old(b.buffers), k);
        assert old(b.buffers[i].Ok());
      }
    }
    label made:
    filler := new ContiguousFiller(raw, pos);
    forall b: List | old(allocated(b)) && old@made(b.Valid())
      ensures b.Valid() && b.Flat() == old@made(b.Flat())
    {
      ListKept@made(b);
    }
  }

  // The places are shown once, from position at on.
  ghost predicate ShownAt(cells: seq<Cell>, at: nat, ws: seq<Cell>) {
    at + |ws| <= |cells| && cells[at..at + |ws|] == ws && Alone(cells, at, |ws|)
  }

  ghost predicate NoneOf(cells: seq<Cell>, ws: seq<Cell>) {
    forall k :: 0 <= k < |cells| ==> cells[k] !in ws
  }
}
