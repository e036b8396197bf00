// Whole runs over many lists that share raws: whatever was copied, shared, cut,
// moved, written or remembered before, the lists do what RunSpec says, and every
// checksum is that of the bytes at its moment.
module ListRuns {
  import opened Crc
  import opened Crc32c
  import opened Rope
  import opened BufferRaw
  import opened BufferCells
  import opened BufferList
  import opened ListIterator
  import opened ListFiller
  import opened RunSpec

  ghost predicate Distinct(lists: seq<List>) {
    forall k, l :: 0 <= k < l < |lists| ==> lists[k] != lists[l]
  }

  ghost predicate Stands(a: List, ps: seq<Ptr>, flat: seq<byte>)
    reads a, RawsOf(a.buffers)
  {
    a.Valid() && a.buffers == ps && a.Flat() == flat
  }

  // The lists are as the moment says.
  ghost predicate StandFor(lists: seq<List>, s: Moment)
    reads lists, AllRaws(lists)
  {
    && |lists| == |s.nodes| == |s.flats|
    && forall k :: 0 <= k < |lists| ==> Stands(lists[k], s.nodes[k], s.flats[k])
  }

  ghost function AllRaws(lists: seq<List>): set<Raw>
    reads lists
  {
    set k, l | 0 <= k < |lists| && 0 <= l < |lists[k].buffers| :: lists[k].buffers[l].raw
  }

  ghost predicate AllValid(lists: seq<List>)
    reads lists, AllRaws(lists)
  {
    forall k :: 0 <= k < |lists| ==> lists[k].Valid()
  }

  // The moment that the lists are at.
  ghost function Now(lists: seq<List>, sums: seq<nat>): (s: Moment)
    requires AllValid(lists)
    reads lists, AllRaws(lists)
    ensures StandFor(lists, s) && s.sums == sums
  {
    Moment(seq(|lists|, k requires 0 <= k < |lists| reads lists => lists[k].buffers),
           seq(|lists|, k requires 0 <= k < |lists| && lists[k].Valid() reads lists, AllRaws(lists) => lists[k].Flat()),
           sums)
  }

  lemma NodesOk(lists: seq<List>, s: Moment)
    requires StandFor(lists, s)
    ensures forall k, v :: 0 <= k < |s.nodes| && 0 <= v < |s.nodes[k]| ==> s.nodes[k][v].Ok()
  {
    hide Raw.Coherent;
  }

  // Every byte is the byte of its cell, so that the moment is consistent.
  lemma StandsConsistent(lists: seq<List>, s: Moment)
    requires StandFor(lists, s)
    ensures Consistent(s)
  {
    hide CellsOf, List.Valid, List.Flat, Fold;
    forall k | 0 <= k < |lists|
      ensures Reads(CellsOf(s.nodes[k]), s.flats[k])
    {
      lists[k].FlatIsCells();
    }
  }

  // New cells are those that no window of the lists shows.
  lemma NewCells(s: Moment, cells: seq<Cell>)
    requires forall k, v, p :: 0 <= k < |s.nodes| && 0 <= v < |s.nodes[k]| && 0 <= p < |cells| ==>
      !Shows(s.nodes[k][v], cells[p])
    requires forall p, q :: 0 <= p < q < |cells| ==> cells[p] != cells[q]
    ensures New(s, cells)
  {
    hide CellsOf;
    forall k, p | 0 <= k < |s.nodes| && 0 <= p < |cells|
      ensures cells[p] !in CellsOf(s.nodes[k])
    {
      if cells[p] in CellsOf(s.nodes[k]) {
        var x :| 0 <= x < |CellsOf(s.nodes[k])| && CellsOf(s.nodes[k])[x] == cells[p];
        var v := CellShown(s.nodes[k], x);
        assert false;
      }
    }
  }

  lemma MoreCells(s: Moment, was: seq<Cell>, now: seq<Cell>)
    requires was <= now
    requires forall k, v, x :: 0 <= k < |s.nodes| && 0 <= v < |s.nodes[k]| && |was| <= x < |now| ==>
      !Shows(s.nodes[k][v], now[x])
    requires forall x, y :: |was| <= x < y < |now| ==> now[x] != now[y]
    ensures New(s, now[|was|..])
  {
    hide CellsOf;
    NewCells(s, now[|was|..]);
  }

  // Two lists have changed, the others not.
  lemma TwoChanged(s: Moment, i: nat, j: nat, t: Moment)
    requires Whole(s) && i < |s.nodes| && j < |s.nodes| && i != j && |t.nodes| == |t.flats| == |s.nodes|
    requires forall k :: 0 <= k < |s.nodes| && k != i && k != j ==> t.nodes[k] == s.nodes[k] && t.flats[k] == s.flats[k]
    ensures Cells(t) == Cells(s)[i := CellsOf(t.nodes[i])][j := CellsOf(t.nodes[j])]
    ensures t.flats == s.flats[i := t.flats[i]][j := t.flats[j]]
  {
    hide CellsOf;
  }

  // A new ptr disturbs no list.
  method NewWindow(data: seq<byte>) returns (p: Ptr)
    ensures fresh(p.raw) && p.Ok() && p.Bytes() == data
    ensures forall c: List :: old(allocated(c)) && old(c.Valid()) ==> c.Valid() && c.Flat() == old(c.Flat())
  {
    hide List.Valid, List.Flat, Raw.Coherent;
    p := NewPtr(data);
    forall c: List | old(allocated(c)) && old(c.Valid())
      ensures c.Valid() && c.Flat() == old(c.Flat())
    {
      ListKept(c);
    }
  }

  // push_back disturbs no other list.
  method PushWindow(a: List, p: Ptr)
    requires a.Valid() && p.Ok()
    modifies a
    ensures a.Valid() && a.Flat() == old(a.Flat()) + p.Bytes()
    ensures CellsOf(a.buffers) == old(CellsOf(a.buffers)) + CellsIn(p)
    ensures forall c: List :: old(allocated(c)) && c != a && old(c.Valid()) ==> c.Valid() && c.Flat() == old(c.Flat())
  {
    hide List.Valid, List.Flat, Raw.Coherent, CellsOf;
    CellsSnoc(a.buffers, p);
    a.PushBack(p);
    forall c: List | old(allocated(c)) && c != a && old(c.Valid())
      ensures c.Valid() && c.Flat() == old(c.Flat())
    {
      ListKept(c);
    }
  }

  // ----- Calls that add bytes -----

  // In each of these, every list outside the run keeps its bytes.

  method DoAppendByte(lists: seq<List>, i: nat, c: byte, ghost s: Moment) returns (ghost t: Moment)
    requires i < |lists| && Distinct(lists) && StandFor(lists, s)
    modifies lists, set r: Raw {:trigger r.slot} | allocated(r)
    ensures StandFor(lists, t) && Grows(s, i, [c], t)
    ensures forall c: List :: old(allocated(c)) && c !in lists && old(c.Valid()) ==>
      c.Valid() && c.Flat() == old(c.Flat())
  {
    hide List.Valid, List.Flat, List.Shape, Raw.Coherent, CellsOf, Ptr.Ok;
    NodesOk(lists, s);
    lists[i].AppendChar(c);
    ghost var was, now := CellsOf(s.nodes[i]), CellsOf(lists[i].buffers);
    forall k, v, x | 0 <= k < |s.nodes| && 0 <= v < |s.nodes[k]| && |was| <= x < |now|
      ensures !Shows(s.nodes[k][v], now[x])
    {
      assert old(s.nodes[k][v].Ok());
    }
    MoreCells(s, was, now);
    t := Now(lists, s.sums);
  }

  method DoAppend(lists: seq<List>, i: nat, data: seq<byte>, ghost s: Moment) returns (ghost t: Moment)
    requires i < |lists| && Distinct(lists) && StandFor(lists, s)
    modifies lists, set r: Raw {:trigger r.slot} | allocated(r)
    ensures StandFor(lists, t) && Grows(s, i, data, t)
    ensures forall c: List :: old(allocated(c)) && c !in lists && old(c.Valid()) ==>
      c.Valid() && c.Flat() == old(c.Flat())
  {
    hide List.Valid, List.Flat, List.Shape, Raw.Coherent, CellsOf, Ptr.Ok;
    NodesOk(lists, s);
    lists[i].AppendData(data);
    ghost var was, now := CellsOf(s.nodes[i]), CellsOf(lists[i].buffers);
    forall k, v, x | 0 <= k < |s.nodes| && 0 <= v < |s.nodes[k]| && |was| <= x < |now|
      ensures !Shows(s.nodes[k][v], now[x])
    {
      assert old(s.nodes[k][v].Ok());
    }
    MoreCells(s, was, now);
    t := Now(lists, s.sums);
  }

  method DoZeros(lists: seq<List>, i: nat, n: nat, ghost s: Moment) returns (ghost t: Moment)
    requires i < |lists| && Distinct(lists) && StandFor(lists, s)
    modifies lists, set r: Raw {:trigger r.slot} | allocated(r)
    ensures StandFor(lists, t) && Grows(s, i, ZeroBytes(n), t)
    ensures forall c: List :: old(allocated(c)) && c !in lists && old(c.Valid()) ==>
      c.Valid() && c.Flat() == old(c.Flat())
  {
    hide List.Valid, List.Flat, List.Shape, Raw.Coherent, CellsOf, Ptr.Ok;
    NodesOk(lists, s);
    lists[i].AppendZero(n);
    ghost var was, now := CellsOf(s.nodes[i]), CellsOf(lists[i].buffers);
    forall k, v, x | 0 <= k < |s.nodes| && 0 <= v < |s.nodes[k]| && |was| <= x < |now|
      ensures !Shows(s.nodes[k][v], now[x])
    {
      assert old(s.nodes[k][v].Ok());
    }
    MoreCells(s, was, now);
    t := Now(lists, s.sums);
  }

  method DoHole(lists: seq<List>, i: nat, n: nat, ghost s: Moment) returns (ghost t: Moment, ghost hole: seq<byte>)
    requires i < |lists| && Distinct(lists) && StandFor(lists, s)
    modifies lists, set r: Raw {:trigger r.slot} | allocated(r)
    requires n > 0
    ensures StandFor(lists, t) && |hole| == n && Grows(s, i, hole, t)
    ensures forall c: List :: old(allocated(c)) && c !in lists && old(c.Valid()) ==>
      c.Valid() && c.Flat() == old(c.Flat())
  {
    hide List.Valid, List.Flat, List.Shape, Raw.Coherent, CellsOf, Ptr.Ok;
    NodesOk(lists, s);
    hole := PunchHole(lists[i], n);
    ghost var was, now := CellsOf(s.nodes[i]), CellsOf(lists[i].buffers);
    forall k, v, x | 0 <= k < |s.nodes| && 0 <= v < |s.nodes[k]| && |was| <= x < |now|
      ensures !Shows(s.nodes[k][v], now[x])
    {
      assert old(s.nodes[k][v].Ok());
    }
    MoreCells(s, was, now);
    t := Now(lists, s.sums);
  }

  // append_hole without its filler.
  method PunchHole(a: List, n: nat) returns (ghost hole: seq<byte>)
    requires a.Valid() && n > 0
    modifies a, a.TailRaw()
    ensures a.Valid() && |hole| == n && a.Flat() == old(a.Flat()) + hole
    ensures CellsOf(old(a.buffers)) <= CellsOf(a.buffers)
    ensures forall p: Ptr, k :: old(allocated(p)) && old(p.Ok()) ==>
      |CellsOf(old(a.buffers))| <= k < |CellsOf(a.buffers)| ==> !Shows(p, CellsOf(a.buffers)[k])
    ensures forall k, l :: |CellsOf(old(a.buffers))| <= k < l < |CellsOf(a.buffers)| ==>
      CellsOf(a.buffers)[k] != CellsOf(a.buffers)[l]
    ensures forall c: List :: old(allocated(c)) && c != a && old(c.Valid()) ==> c.Valid() && c.Flat() == old(c.Flat())
  {
    hide List.Valid, List.Flat, List.Shape, Raw.Coherent, CellsOf, Ptr.Ok, Untouched, CellsIn;
    var raw, pos;
    hole, raw, pos := a.AppendHole(n);
  }

  // push_back of a new ptr.
  method DoPushNew(lists: seq<List>, i: nat, data: seq<byte>, ghost s: Moment) returns (ghost t: Moment)
    requires i < |lists| && Distinct(lists) && StandFor(lists, s)
    modifies lists, set r: Raw {:trigger r.slot} | allocated(r)
    ensures StandFor(lists, t) && Grows(s, i, data, t)
    ensures forall c: List :: old(allocated(c)) && c !in lists && old(c.Valid()) ==>
      c.Valid() && c.Flat() == old(c.Flat())
  {
    hide List.Valid, List.Flat, List.Shape, Raw.Coherent, CellsOf, Ptr.Ok;
    var p := NewWindow(data);
    PushWindow(lists[i], p);
    ghost var was, now := CellsOf(s.nodes[i]), CellsOf(lists[i].buffers);
    NewCells(s, now[|was|..]);
    t := Now(lists, s.sums);
  }

  // ----- Calls that rearrange -----

  method DoJoin(lists: seq<List>, i: nat, j: nat, ghost s: Moment) returns (ghost t: Moment)
    requires i < |lists| && j < |lists| && i != j && Distinct(lists) && StandFor(lists, s) && Whole(s)
    modifies lists, set r: Raw {:trigger r.slot} | allocated(r)
    ensures StandFor(lists, t)
    ensures Cells(t) == Cells(s)[i := Cells(s)[i] + Cells(s)[j]]
    ensures t.flats == s.flats[i := s.flats[i] + s.flats[j]]
    ensures t.sums == s.sums
    ensures forall c: List :: old(allocated(c)) && c !in lists && old(c.Valid()) ==>
      c.Valid() && c.Flat() == old(c.Flat())
  {
    hide List.Valid, List.Flat, List.Shape, Raw.Coherent, CellsOf, Ptr.Ok;
    lists[i].AppendList(lists[j]);
    CellsBoth(s.nodes[i], s.nodes[j]);
    t := Now(lists, s.sums);
  }

  method DoCopy(lists: seq<List>, i: nat, j: nat, ghost s: Moment) returns (ghost t: Moment)
    requires i < |lists| && j < |lists| && i != j && Distinct(lists) && StandFor(lists, s) && Whole(s)
    modifies lists, set r: Raw {:trigger r.slot} | allocated(r)
    ensures StandFor(lists, t)
    ensures Cells(t) == Cells(s)[i := Cells(s)[j]]
    ensures t.flats == s.flats[i := s.flats[j]]
    ensures t.sums == s.sums
    ensures forall c: List :: old(allocated(c)) && c !in lists && old(c.Valid()) ==>
      c.Valid() && c.Flat() == old(c.Flat())
  {
    hide List.Valid, List.Flat, List.Shape, Raw.Coherent, CellsOf, Ptr.Ok;
    lists[i].CopyFrom(lists[j]);
    forall c: List | old(allocated(c)) && c != lists[i] && c != lists[j] && old(c.Valid())
      ensures c.Valid() && c.Flat() == old(c.Flat())
    {
      ListKept(c);
    }
    t := Now(lists, s.sums);
  }

  method DoMove(lists: seq<List>, i: nat, j: nat, ghost s: Moment) returns (ghost t: Moment)
    requires i < |lists| && j < |lists| && i != j && Distinct(lists) && StandFor(lists, s) && Whole(s)
    modifies lists, set r: Raw {:trigger r.slot} | allocated(r)
    ensures StandFor(lists, t)
    ensures Cells(t) == Cells(s)[i := Cells(s)[j]][j := []]
    ensures t.flats == s.flats[i := s.flats[j]][j := []]
    ensures t.sums == s.sums
    ensures forall c: List :: old(allocated(c)) && c !in lists && old(c.Valid()) ==>
      c.Valid() && c.Flat() == old(c.Flat())
  {
    hide List.Valid, List.Flat, List.Shape, Raw.Coherent, CellsOf, Ptr.Ok;
    lists[i].MoveFrom(lists[j]);
    NoCells();
    t := Now(lists, s.sums);
    TwoChanged(s, i, j, t);
  }

  method DoClaim(lists: seq<List>, i: nat, j: nat, ghost s: Moment) returns (ghost t: Moment)
    requires i < |lists| && j < |lists| && i != j && Distinct(lists) && StandFor(lists, s) && Whole(s)
    modifies lists, set r: Raw {:trigger r.slot} | allocated(r)
    ensures StandFor(lists, t)
    ensures Cells(t) == Cells(s)[i := Cells(s)[i] + Cells(s)[j]][j := []]
    ensures t.flats == s.flats[i := s.flats[i] + s.flats[j]][j := []]
    ensures t.sums == s.sums
    ensures forall c: List :: old(allocated(c)) && c !in lists && old(c.Valid()) ==>
      c.Valid() && c.Flat() == old(c.Flat())
  {
    hide List.Valid, List.Flat, List.Shape, Raw.Coherent, CellsOf, Ptr.Ok;
    lists[i].ClaimAppend(lists[j]);
    forall c: List | old(allocated(c)) && c != lists[i] && c != lists[j] && old(c.Valid())
      ensures c.Valid() && c.Flat() == old(c.Flat())
    {
      ListKept(c);
    }
    CellsBoth(s.nodes[i], s.nodes[j]);
    NoCells();
    t := Now(lists, s.sums);
    TwoChanged(s, i, j, t);
  }

  method DoClaimPieces(lists: seq<List>, i: nat, j: nat, ghost s: Moment) returns (ghost t: Moment)
    requires i < |lists| && j < |lists| && i != j && Distinct(lists) && StandFor(lists, s) && Whole(s)
    modifies lists, set r: Raw {:trigger r.slot} | allocated(r)
    ensures StandFor(lists, t)
    ensures Cells(t) == Cells(s)[i := Cells(s)[i] + Cells(s)[j]][j := []]
    ensures t.flats == s.flats[i := s.flats[i] + s.flats[j]][j := []]
    ensures t.sums == s.sums
    ensures forall c: List :: old(allocated(c)) && c !in lists && old(c.Valid()) ==>
      c.Valid() && c.Flat() == old(c.Flat())
  {
    hide List.Valid, List.Flat, List.Shape, Raw.Coherent, CellsOf, Ptr.Ok;
    lists[i].ClaimAppendPiecewise(lists[j]);
    forall c: List | old(allocated(c)) && c != lists[i] && c != lists[j] && old(c.Valid())
      ensures c.Valid() && c.Flat() == old(c.Flat())
    {
      ListKept(c);
    }
    NoCells();
    t := Now(lists, s.sums);
    TwoChanged(s, i, j, t);
  }

  method DoCut(lists: seq<List>, i: nat, off: nat, n: nat, j: nat, ghost s: Moment) returns (ghost t: Moment)
    requires i < |lists| && j < |lists| && i != j && Distinct(lists) && StandFor(lists, s) && Whole(s)
    requires CutFits(|s.flats[i]|, off, n)
    modifies lists, set r: Raw {:trigger r.slot} | allocated(r)
    ensures StandFor(lists, t)
    ensures Cells(t) == if n == 0 || off >= |s.flats[i]|
      then Cells(s)
      else Cells(s)[i := Cells(s)[i][..off] + Cells(s)[i][off + n..]][j := Cells(s)[j] + Cells(s)[i][off..off + n]]
    ensures t.flats == if n == 0 || off >= |s.flats[i]|
      then s.flats
      else s.flats[i := s.flats[i][..off] + s.flats[i][off + n..]][j := s.flats[j] + s.flats[i][off..off + n]]
    ensures t.sums == s.sums
    ensures forall c: List :: old(allocated(c)) && c !in lists && old(c.Valid()) ==>
      c.Valid() && c.Flat() == old(c.Flat())
  {
    hide List.Valid, List.Flat, List.Shape, Raw.Coherent, CellsOf, Ptr.Ok;
    lists[i].FlatIsCells();
    var outcome := lists[i].Splice(off, n, lists[j]);
    forall c: List | old(allocated(c)) && c != lists[i] && c != lists[j] && old(c.Valid())
      ensures c.Valid() && c.Flat() == old(c.Flat())
    {
      ListKept(c);
    }
    if n == 0 || outcome == EndOfBuffer {
      ListKept(lists[i]);
      ListKept(lists[j]);
    }
    t := Now(lists, s.sums);
    TwoChanged(s, i, j, t);
  }

  method DoCutAway(lists: seq<List>, i: nat, off: nat, n: nat, ghost s: Moment) returns (ghost t: Moment)
    requires i < |lists| && Distinct(lists) && StandFor(lists, s) && Whole(s)
    requires CutFits(|s.flats[i]|, off, n)
    modifies lists, set r: Raw {:trigger r.slot} | allocated(r)
    ensures StandFor(lists, t)
    ensures Cells(t) == if n == 0 || off >= |s.flats[i]|
      then Cells(s)
      else Cells(s)[i := Cells(s)[i][..off] + Cells(s)[i][off + n..]]
    ensures t.flats == if n == 0 || off >= |s.flats[i]|
      then s.flats
      else s.flats[i := s.flats[i][..off] + s.flats[i][off + n..]]
    ensures t.sums == s.sums
    ensures forall c: List :: old(allocated(c)) && c !in lists && old(c.Valid()) ==>
      c.Valid() && c.Flat() == old(c.Flat())
  {
    hide List.Valid, List.Flat, List.Shape, Raw.Coherent, CellsOf, Ptr.Ok;
    lists[i].FlatIsCells();
    var outcome := lists[i].Splice(off, n, null);
    forall c: List | old(allocated(c)) && c != lists[i] && old(c.Valid())
      ensures c.Valid() && c.Flat() == old(c.Flat())
    {
      ListKept(c);
    }
    if n == 0 || outcome == EndOfBuffer {
      ListKept(lists[i]);
    }
    t := Now(lists, s.sums);
  }

  method DoPart(lists: seq<List>, i: nat, j: nat, off: nat, n: nat, ghost s: Moment) returns (ghost t: Moment)
    requires i < |lists| && j < |lists| && i != j && Distinct(lists) && StandFor(lists, s) && Whole(s)
    requires off + n != |s.flats[j]|
    modifies lists, set r: Raw {:trigger r.slot} | allocated(r)
    ensures StandFor(lists, t)
    ensures Cells(t) == if off + n > |s.flats[j]| then Cells(s) else Cells(s)[i := Cells(s)[j][off..off + n]]
    ensures t.flats == if off + n > |s.flats[j]| then s.flats else s.flats[i := s.flats[j][off..off + n]]
    ensures t.sums == s.sums
    ensures forall c: List :: old(allocated(c)) && c !in lists && old(c.Valid()) ==>
      c.Valid() && c.Flat() == old(c.Flat())
  {
    hide List.Valid, List.Flat, List.Shape, Raw.Coherent, CellsOf, Ptr.Ok;
    lists[j].FlatIsCells();
    var outcome := lists[i].SubstrOf(lists[j], off, n);
    forall c: List | old(allocated(c)) && c != lists[i] && c != lists[j] && old(c.Valid())
      ensures c.Valid() && c.Flat() == old(c.Flat())
    {
      ListKept(c);
    }
    if outcome == EndOfBuffer {
      ListKept(lists[i]);
    }
    t := Now(lists, s.sums);
  }

  method DoDrop(lists: seq<List>, i: nat, ghost s: Moment) returns (ghost t: Moment)
    requires i < |lists| && Distinct(lists) && StandFor(lists, s) && Whole(s)
    modifies lists, set r: Raw {:trigger r.slot} | allocated(r)
    ensures StandFor(lists, t)
    ensures Cells(t) == Cells(s)[i := []]
    ensures t.flats == s.flats[i := []]
    ensures t.sums == s.sums
    ensures forall c: List :: old(allocated(c)) && c !in lists && old(c.Valid()) ==>
      c.Valid() && c.Flat() == old(c.Flat())
  {
    hide List.Valid, List.Flat, List.Shape, Raw.Coherent, CellsOf, Ptr.Ok;
    lists[i].Clear();
    NoCells();
    t := Now(lists, s.sums);
  }

  // append(const ptr&, off, len) of part of a node of some list.
  method DoWindow(lists: seq<List>, i: nat, j: nat, node: nat, off: nat, n: nat, ghost s: Moment)
    returns (ghost t: Moment)
    requires i < |lists| && j < |lists| && Distinct(lists) && StandFor(lists, s)
    requires Whole(s) && node < |s.nodes[j]| && off + n <= s.nodes[j][node].len
    modifies lists, set r: Raw {:trigger r.slot} | allocated(r)
    ensures StandFor(lists, t) && t.sums == s.sums
    ensures var at := PlaceOf(s.nodes[j], node) + off;
      && at + n <= |s.flats[j]| && at + n <= |Cells(s)[j]|
      && Cells(t) == Cells(s)[i := Cells(s)[i] + Cells(s)[j][at..at + n]]
      && t.flats == s.flats[i := s.flats[i] + s.flats[j][at..at + n]]
    ensures forall c: List :: old(allocated(c)) && c !in lists && old(c.Valid()) ==>
      c.Valid() && c.Flat() == old(c.Flat())
  {
    hide List.Valid, List.Flat, List.Shape, Raw.Coherent, CellsOf, Ptr.Ok, PlaceOf;
    NodesOk(lists, s);
    var p := lists[j].buffers[node];
    lists[j].NodePart(node, off, n);
    NodeCells(s.nodes[j], node, off, n);
    JoinedCells(s.nodes[i], Ptr(p.raw, p.off + off, n));
    lists[i].AppendSub(p, off, n);
    t := Now(lists, s.sums);
  }

  // ----- Calls that keep the bytes -----

  method DoFlatten(lists: seq<List>, i: nat, pageSize: nat, ghost s: Moment) returns (ghost t: Moment)
    requires i < |lists| && Distinct(lists) && StandFor(lists, s)
    modifies lists, set r: Raw {:trigger r.slot} | allocated(r)
    requires pageSize > 0
    ensures StandFor(lists, t) && Renewed(s, i, t)
    ensures forall c: List :: old(allocated(c)) && c !in lists && old(c.Valid()) ==>
      c.Valid() && c.Flat() == old(c.Flat())
  {
    hide List.Valid, List.Flat, List.Shape, Raw.Coherent, CellsOf, Ptr.Ok;
    lists[i].Rebuild(pageSize);
    forall c: List | old(allocated(c)) && c != lists[i] && old(c.Valid())
      ensures c.Valid() && c.Flat() == old(c.Flat())
    {
      ListKept(c);
    }
    ghost var now := lists[i].buffers;
    NoCells();
    if now != [] {
      OneNodeCells(now[0]);
      assert now == [now[0]];
    }
    NewCells(s, CellsOf(now));
    t := Now(lists, s.sums);
  }

  method DoPrepare(lists: seq<List>, i: nat, n: nat, ghost s: Moment) returns (ghost t: Moment)
    requires i < |lists| && Distinct(lists) && StandFor(lists, s)
    modifies lists, set r: Raw {:trigger r.slot} | allocated(r)
    ensures StandFor(lists, t) && SameCells(s, t)
    ensures forall c: List :: old(allocated(c)) && c !in lists && old(c.Valid()) ==>
      c.Valid() && c.Flat() == old(c.Flat())
  {
    hide List.Valid, List.Flat, List.Shape, Raw.Coherent, CellsOf, Ptr.Ok;
    lists[i].Reserve(n);
    EmptyNode(s.nodes[i], lists[i].buffers);
    t := Now(lists, s.sums);
  }

  method DoSum(impl: Impl, lists: seq<List>, i: nat, start: word, ghost s: Moment) returns (crc: word, ghost t: Moment)
    requires i < |lists| && Distinct(lists) && StandFor(lists, s)
    modifies lists, set r: Raw {:trigger r.slot} | allocated(r)
    requires forall k :: 0 <= k < |s.nodes[i]| ==> s.nodes[i][k].len < NODE_LIMIT
    ensures StandFor(lists, t) && t == s.(sums := s.sums + [crc]) && crc == Fold(start, s.flats[i])
    ensures forall c: List :: old(allocated(c)) && c !in lists && old(c.Valid()) ==>
      c.Valid() && c.Flat() == old(c.Flat())
  {
    hide List.Valid, List.Flat, List.Shape, Raw.Coherent, CellsOf, Ptr.Ok, Fold;
    crc := lists[i].ListCrc32c(impl, start);
    t := Now(lists, s.sums + [crc]);
    assert t.nodes == s.nodes && t.flats == s.flats;
  }

  // ----- Calls that write -----

  // In these, the lists outside the run see the write too.
  method DoZeroOut(lists: seq<List>, i: nat, off: nat, n: nat, ghost s: Moment) returns (ghost t: Moment)
    requires i < |lists| && Distinct(lists) && StandFor(lists, s)
    modifies lists, set r: Raw {:trigger r.slot} | allocated(r)
    requires Whole(s) && off + n <= |s.flats[i]|
    ensures StandFor(lists, t) && Written(s, i, off, ZeroBytes(n), t)
    ensures forall c: List :: old(allocated(c)) && old(c.Valid()) ==> c.Valid()
  {
    hide List.Valid, List.Flat, List.Shape, Raw.Coherent, CellsOf, Ptr.Ok, WrittenByte, Stored;
    lists[i].FlatIsCells();
    ghost var ws := lists[i].Zero(off, n);
    t := Now(lists, s.sums);
    assert t.nodes == s.nodes;
  }

  method DoWrite(lists: seq<List>, i: nat, off: nat, data: seq<byte>, ghost s: Moment) returns (ghost t: Moment)
    requires i < |lists| && Distinct(lists) && StandFor(lists, s)
    modifies lists, set r: Raw {:trigger r.slot} | allocated(r)
    requires Whole(s)
    ensures StandFor(lists, t)
    ensures if off > |s.flats[i]| then t == s else Written(s, i, off, Room(data, off, |s.flats[i]|), t)
    ensures forall c: List :: old(allocated(c)) && old(c.Valid()) ==> c.Valid()
  {
    hide List.Valid, List.Flat, List.Shape, Raw.Coherent, CellsOf, Ptr.Ok, WrittenByte, Stored,
      Iterator.Good, Iterator.Stranded;
    lists[i].FlatIsCells();
    var cursor := new Iterator(lists[i], off);
    forall c: List | old(allocated(c)) && old(c.Valid())
      ensures c.Valid() && c.Flat() == old(c.Flat())
    {
      ListKept(c);
    }
    if off <= lists[i].len {
      label found:
      var ok;
      ghost var ws;
      ok, ws := cursor.CopyIn(data, true);
      assert data[..|ws|] == Room(data, off, |s.flats[i]|);
    }
    t := Now(lists, s.sums);
    assert t.nodes == s.nodes;
  }

  // ----- Steps and runs -----

  method StepAdds(lists: seq<List>, op: Op, ghost s: Moment) returns (ghost t: Moment)
    requires Adds(op) && Distinct(lists) && StandFor(lists, s) && Whole(s) && Fits(s, op)
    modifies lists, set r: Raw {:trigger r.slot} | allocated(r)
    ensures StandFor(lists, t) && Follows(s, op, t)
    ensures forall c: List :: old(allocated(c)) && c !in lists && old(c.Valid()) ==>
      c.Valid() && c.Flat() == old(c.Flat())
  {
    hide StandFor, List.Valid, List.Flat, Grows;
    SameCount(lists, s);
    match op
    case AppendByte(i, c) => t := DoAppendByte(lists, i, c, s);
    case Append(i, data) => t := DoAppend(lists, i, data, s);
    case Zeros(i, n) => t := DoZeros(lists, i, n, s);
    case Hole(i, n) =>
      ghost var hole;
      t, hole := DoHole(lists, i, n, s);
    case PushNew(i, data) => t := DoPushNew(lists, i, data, s);
  }

  predicate Joins(op: Op) {
    op.Join? || op.Window? || op.Claim? || op.ClaimPieces?
  }

  method StepJoins(lists: seq<List>, op: Op, ghost s: Moment) returns (ghost t: Moment)
    requires Joins(op) && Distinct(lists) && StandFor(lists, s) && Whole(s) && Fits(s, op)
    modifies lists, set r: Raw {:trigger r.slot} | allocated(r)
    ensures StandFor(lists, t) && Reordered(s, op, t)
    ensures forall c: List :: old(allocated(c)) && c !in lists && old(c.Valid()) ==>
      c.Valid() && c.Flat() == old(c.Flat())
  {
    hide StandFor, List.Valid, List.Flat, CellsOf, PlaceOf;
    SameCount(lists, s);
    match op
    case Join(i, j) => t := DoJoin(lists, i, j, s);
    case Window(i, j, node, off, n) => t := DoWindow(lists, i, j, node, off, n, s);
    case Claim(i, j) => t := DoClaim(lists, i, j, s);
    case ClaimPieces(i, j) => t := DoClaimPieces(lists, i, j, s);
  }

  predicate Replaces(op: Op) {
    op.Copy? || op.Move? || op.Part? || op.Drop?
  }

  method StepReplaces(lists: seq<List>, op: Op, ghost s: Moment) returns (ghost t: Moment)
    requires Replaces(op) && Distinct(lists) && StandFor(lists, s) && Whole(s) && Fits(s, op)
    modifies lists, set r: Raw {:trigger r.slot} | allocated(r)
    ensures StandFor(lists, t) && Reordered(s, op, t)
    ensures forall c: List :: old(allocated(c)) && c !in lists && old(c.Valid()) ==>
      c.Valid() && c.Flat() == old(c.Flat())
  {
    hide StandFor, List.Valid, List.Flat, CellsOf, PlaceOf;
    SameCount(lists, s);
    match op
    case Copy(i, j) => t := DoCopy(lists, i, j, s);
    case Move(i, j) => t := DoMove(lists, i, j, s);
    case Part(i, j, off, n) => t := DoPart(lists, i, j, off, n, s);
    case Drop(i) => t := DoDrop(lists, i, s);
  }

  predicate Cuts(op: Op) {
    op.Cut? || op.CutAway?
  }

  method StepCuts(lists: seq<List>, op: Op, ghost s: Moment) returns (ghost t: Moment)
    requires Cuts(op) && Distinct(lists) && StandFor(lists, s) && Whole(s) && Fits(s, op)
    modifies lists, set r: Raw {:trigger r.slot} | allocated(r)
    ensures StandFor(lists, t) && Reordered(s, op, t)
    ensures forall c: List :: old(allocated(c)) && c !in lists && old(c.Valid()) ==>
      c.Valid() && c.Flat() == old(c.Flat())
  {
    hide StandFor, List.Valid, List.Flat, CellsOf;
    SameCount(lists, s);
    match op
    case Cut(i, off, n, j) => t := DoCut(lists, i, off, n, j, s);
    case CutAway(i, off, n) => t := DoCutAway(lists, i, off, n, s);
  }

  // One call.  The lists outside the run stay sound, and keep their bytes unless
  // the call writes.
  method DoStep(impl: Impl, pageSize: nat, lists: seq<List>, op: Op, ghost s: Moment, sums: seq<nat>)
    returns (sums': seq<nat>, ghost t: Moment)
    requires pageSize > 0 && Distinct(lists) && StandFor(lists, s) && Whole(s) && Fits(s, op) && sums == s.sums
    modifies lists, set r: Raw {:trigger r.slot} | allocated(r)
    ensures StandFor(lists, t) && Follows(s, op, t) && sums' == t.sums
    ensures forall c: List :: old(allocated(c)) && c !in lists && old(c.Valid()) ==>
      c.Valid() && (!Writes(op) ==> c.Flat() == old(c.Flat()))
  {
    hide StandFor, List.Valid, List.Flat, CellsOf, Fold, Grows, Reordered, Renewed, Written;
    SameCount(lists, s);
    sums' := sums;
    if Adds(op) {
      t := StepAdds(lists, op, s);
    } else if Cuts(op) {
      t := StepCuts(lists, op, s);
    } else if Joins(op) {
      t := StepJoins(lists, op, s);
    } else if Replaces(op) {
      t := StepReplaces(lists, op, s);
    } else {
      match op
      case Flatten(i) => t := DoFlatten(lists, i, pageSize, s);
      case Prepare(i, n) => t := DoPrepare(lists, i, n, s);
      case ZeroOut(i, off, n) => t := DoZeroOut(lists, i, off, n, s);
      case Write(i, off, data) => t := DoWrite(lists, i, off, data, s);
      case Sum(i, start) =>
        var crc;
        crc, t := DoSum(impl, lists, i, start, s);
        sums' := sums + [crc];
    }
    if !op.Sum? {
      SumsKept(s, op, t);
    }
  }

  lemma SumsKept(s: Moment, op: Op, t: Moment)
    requires Whole(s) && Follows(s, op, t) && !op.Sum?
    ensures t.sums == s.sums
  {
    hide CellsOf, WrittenByte, Rearranged, PlaceIn, New;
  }

  lemma SameCount(lists: seq<List>, s: Moment)
    requires StandFor(lists, s)
    ensures |lists| == |s.nodes| == |s.flats|
    ensures forall k :: 0 <= k < |lists| ==>
      lists[k].Valid() && lists[k].buffers == s.nodes[k] && lists[k].len == |s.flats[k]|
  {
  }

  // Whether a call fits can be told from the lists.
  method Fitting(lists: seq<List>, op: Op, ghost s: Moment) returns (fits: bool)
    requires StandFor(lists, s) && Whole(s)
    ensures fits == Fits(s, op) && StandFor(lists, s)
    ensures forall c: List :: old(allocated(c)) && old(c.Valid()) ==> c.Valid() && c.Flat() == old(c.Flat())
  {
    hide StandFor, CellsOf, List.Valid, List.Flat;
    forall c: List | old(allocated(c)) && old(c.Valid())
      ensures c.Valid() && c.Flat() == old(c.Flat())
    {
      ListKept(c);
    }
    SameCount(lists, s);
    if op.i >= |lists| || (TakesTwo(op) && (op.j >= |lists| || op.j == op.i)) {
      return false;
    }
    match op
    case Hole(i, n) => fits := n > 0;
    case Window(i, j, node, off, n) =>
      fits := j < |lists| && node < |lists[j].buffers| && off + n <= lists[j].buffers[node].len;
    case Cut(i, off, n, j) => fits := CutFits(lists[i].len, off, n);
    case CutAway(i, off, n) => fits := CutFits(lists[i].len, off, n);
    case Part(i, j, off, n) => fits := off + n != lists[j].len;
    case ZeroOut(i, off, n) => fits := off + n <= lists[i].len;
    case Sum(i, start) =>
      fits := forall k :: 0 <= k < |lists[i].buffers| ==> lists[i].buffers[k].len < NODE_LIMIT;
    case _ => fits := true;
  }

  // Any run of calls on any lists, whatever raws they share at the start: every
  // moment follows from the one before, every list stays sound, every checksum is
  // that of the bytes at its moment, and the lists outside the run stay sound, and
  // keep their bytes unless some call writes.
  method Run(impl: Impl, pageSize: nat, lists: seq<List>, ops: seq<Op>, ghost start: Moment)
    returns (sums: seq<nat>, ghost h: seq<Moment>)
    requires pageSize > 0 && Distinct(lists) && StandFor(lists, start) && start.sums == []
    modifies lists, set r: Raw {:trigger r.slot} | allocated(r)
    ensures RunOf(h, ops) && h[0] == start && StandFor(lists, h[|ops|]) && sums == h[|ops|].sums
    ensures forall c: List :: old(allocated(c)) && c !in lists && old(c.Valid()) ==>
      c.Valid() && ((forall k :: 0 <= k < |ops| ==> !Writes(ops[k])) ==> c.Flat() == old(c.Flat()))
  {
    hide StandFor, List.Valid, List.Flat, Follows, Fits, Agree, CellsOf;
    sums := [];
    StandsConsistent(lists, start);
    h := [start];
    for k := 0 to |ops|
      invariant |h| == k + 1 && h[0] == start && StandFor(lists, h[k]) && sums == h[k].sums
      invariant forall m :: 0 <= m <= k ==> Consistent(h[m])
      invariant forall m :: 0 <= m < k ==> Follows(h[m], ops[m], h[m + 1])
      invariant forall c: List :: old(allocated(c)) && c !in lists && old(c.Valid()) ==>
        c.Valid() && ((forall m :: 0 <= m < k ==> !Writes(ops[m])) ==> c.Flat() == old(c.Flat()))
    {
      ghost var s, t := h[k], h[k];
      var fits := Fitting(lists, ops[k], s);
      if fits {
        sums, t := DoStep(impl, pageSize, lists, ops[k], s, sums);
      } else {
        Unfit(s, ops[k]);
      }
      StandsConsistent(lists, t);
      h := h + [t];
    }
  }

  lemma Unfit(s: Moment, op: Op)
    requires Whole(s) && !Fits(s, op)
    ensures Follows(s, op, s)
  {
  }
}
