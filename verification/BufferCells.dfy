// Single bytes of raws, and what a write of bytes one after another does to all
// of memory when several windows, or several nodes of one list, share bytes.
module BufferCells {
  import opened Crc
  import opened Rope
  import opened BufferRaw

  // One byte of one raw.
  datatype Cell = Cell(raw: Raw, at: nat)

  ghost function CellsIn(p: Ptr): (c: seq<Cell>)
    ensures |c| == p.len && forall k :: 0 <= k < |c| ==> c[k] == Cell(p.raw, p.off + k)
  {
    seq(p.len, k requires 0 <= k < p.len => Cell(p.raw, p.off + k))
  }

  predicate Shows(p: Ptr, c: Cell) {
    p.raw == c.raw && p.off <= c.at < p.End()
  }

  ghost function CellRows(ps: seq<Ptr>): (c: seq<seq<Cell>>)
    ensures |c| == |ps| && forall i :: 0 <= i < |ps| ==> c[i] == CellsIn(ps[i])
  {
    seq(|ps|, i requires 0 <= i < |ps| => CellsIn(ps[i]))
  }

  // The bytes that a list's nodes show, in order.
  ghost function CellsOf(ps: seq<Ptr>): seq<Cell> {
    Concat(CellRows(ps))
  }

  // What the byte at a cell is after src has been written to ws, in order: the
  // last byte written there, else what it was.
  ghost function WrittenByte(ws: seq<Cell>, src: seq<byte>, cell: Cell, was: byte): byte
    requires |ws| == |src|
  {
    if ws == [] then was
    else
      var n := |ws| - 1;
      if ws[n] == cell then src[n] else WrittenByte(ws[..n], src[..n], cell, was)
  }

  // The bytes at some cells after that.
  ghost function WrittenFlat(ws: seq<Cell>, src: seq<byte>, cells: seq<Cell>, was: seq<byte>): (now: seq<byte>)
    requires |ws| == |src| && |cells| == |was|
    ensures |now| == |was|
    ensures forall k :: 0 <= k < |now| ==> now[k] == WrittenByte(ws, src, cells[k], was[k])
  {
    seq(|was|, k requires 0 <= k < |was| => WrittenByte(ws, src, cells[k], was[k]))
  }

  // All of a raw is as after a write of src to ws.
  twostate predicate Stored(r: Raw, new ws: seq<Cell>, new src: seq<byte>)
    requires |ws| == |src|
    reads r
  {
    && |r.data| == |old(r.data)| && r.used == old(r.used) && r.owner == old(r.owner)
    && forall k :: 0 <= k < |r.data| ==> r.data[k] == WrittenByte(ws, src, Cell(r, k), old(r.data)[k])
  }

  twostate lemma NothingStored(r: Raw, new ws: seq<Cell>, new src: seq<byte>)
    requires r.data == old(r.data) && r.used == old(r.used) && r.owner == old(r.owner)
    requires ws == [] && src == []
    ensures Stored(r, ws, src)
  {
  }

  // What a write to one raw does to all of memory.
  method WriteRaw(raw: Raw, at: nat, bytes: seq<byte>, crcReset: bool) returns (ghost ws: seq<Cell>)
    requires at + |bytes| <= raw.used <= |raw.data|
    modifies raw`data, raw`slot
    ensures |ws| == |bytes| && ws == CellsIn(Ptr(raw, at, |bytes|))
    ensures raw.data == Patched(old(raw.data), at, bytes)
    ensures raw.slot == if crcReset then NoCrc else old(raw.slot)
    ensures raw.slot.NoCrc? ==> raw.Valid()
    ensures forall r: Raw :: old(allocated(r)) ==> Stored(r, ws, bytes)
  {
    hide Fold, WrittenByte;
    raw.CopyIn(at, bytes, crcReset);
    ghost var w := Ptr(raw, at, |bytes|);
    ws := CellsIn(w);
    forall r: Raw | old(allocated(r))
      ensures Stored(r, ws, bytes)
    {
      forall k | 0 <= k < |r.data|
        ensures r.data[k] == WrittenByte(ws, bytes, Cell(r, k), old(r.data)[k])
      {
        WindowWritten(w, bytes, r, k, old(r.data)[k]);
      }
    }
  }

  lemma {:induction false} WrittenJoin(ws: seq<Cell>, src: seq<byte>, ws': seq<Cell>, src': seq<byte>,
                                       cell: Cell, was: byte)
    requires |ws| == |src| && |ws'| == |src'|
    ensures WrittenByte(ws + ws', src + src', cell, was) ==
      WrittenByte(ws', src', cell, WrittenByte(ws, src, cell, was))
  {
    if ws' == [] {
      assert ws + ws' == ws && src + src' == src;
    } else {
      var n := |ws'| - 1;
      WrittenJoin(ws, src, ws'[..n], src'[..n], cell, was);
      assert (ws + ws')[..|ws| + n] == ws + ws'[..n] && (src + src')[..|src| + n] == src + src'[..n];
    }
  }

  lemma {:induction false} NotWritten(ws: seq<Cell>, src: seq<byte>, cell: Cell, was: byte)
    requires |ws| == |src| && cell !in ws
    ensures WrittenByte(ws, src, cell, was) == was
  {
    if ws != [] {
      NotWritten(ws[..|ws| - 1], src[..|ws| - 1], cell, was);
    }
  }

  // The last write to a cell counts.
  lemma {:induction false} WrittenAt(ws: seq<Cell>, src: seq<byte>, m: nat, was: byte)
    requires |ws| == |src| && m < |ws| && forall l :: m < l < |ws| ==> ws[l] != ws[m]
    ensures WrittenByte(ws, src, ws[m], was) == src[m]
  {
    var n := |ws| - 1;
    if m < n {
      WrittenAt(ws[..n], src[..n], m, was);
    }
  }

  // Zeros written: exactly the cells written are zero.
  lemma {:induction false} WrittenZeros(ws: seq<Cell>, cell: Cell, was: byte)
    ensures WrittenByte(ws, ZeroBytes(|ws|), cell, was) == if cell in ws then 0 else was
  {
    if ws != [] {
      var n := |ws| - 1;
      WrittenZeros(ws[..n], cell, was);
      assert ZeroBytes(|ws|)[..n] == ZeroBytes(n);
      assert ws == ws[..n] + [ws[n]];
    }
  }

  // A write to a whole window.
  lemma WindowWritten(p: Ptr, src: seq<byte>, r: Raw, k: nat, was: byte)
    requires |src| == p.len
    ensures WrittenByte(CellsIn(p), src, Cell(r, k), was) ==
      if r == p.raw && p.off <= k < p.off + p.len then src[k - p.off] else was
  {
    if r == p.raw && p.off <= k < p.off + p.len {
      WrittenAt(CellsIn(p), src, k - p.off, was);
    } else {
      NotWritten(CellsIn(p), src, Cell(r, k), was);
    }
  }

  // ----- The bytes of a list and its cells, row by row -----

  lemma {:induction false} SameTotal<A, B>(a: seq<seq<A>>, b: seq<seq<B>>)
    requires |a| == |b| && forall i :: 0 <= i < |a| ==> |a[i]| == |b[i]|
    ensures |Concat(a)| == |Concat(b)|
  {
    if a != [] {
      SameTotal(a[1..], b[1..]);
    }
  }

  lemma CellsMatch(ps: seq<Ptr>)
    requires AllOk(ps)
    ensures |CellsOf(ps)| == |Concat(Chunks(ps))|
  {
    SameTotal(CellRows(ps), Chunks(ps));
  }

  // Rows that are each as after a write are together as after the write.
  lemma {:induction false} RowsWritten(ws: seq<Cell>, src: seq<byte>, rows: seq<seq<Cell>>,
                                       was: seq<seq<byte>>, now: seq<seq<byte>>)
    requires |ws| == |src| && |rows| == |was| == |now|
    requires forall i :: 0 <= i < |rows| ==> |rows[i]| == |was[i]| && now[i] == WrittenFlat(ws, src, rows[i], was[i])
    ensures |Concat(rows)| == |Concat(was)|
    ensures Concat(now) == WrittenFlat(ws, src, Concat(rows), Concat(was))
  {
    SameTotal(rows, was);
    if rows != [] {
      RowsWritten(ws, src, rows[1..], was[1..], now[1..]);
      WrittenParts(ws, src, rows[0], was[0], Concat(rows[1..]), Concat(was[1..]));
    }
  }

  lemma WrittenParts(ws: seq<Cell>, src: seq<byte>, c: seq<Cell>, a: seq<byte>, d: seq<Cell>, b: seq<byte>)
    requires |ws| == |src| && |c| == |a| && |d| == |b|
    ensures WrittenFlat(ws, src, c + d, a + b) == WrittenFlat(ws, src, c, a) + WrittenFlat(ws, src, d, b)
  {
    hide WrittenByte;
  }

  // The bytes in a window after a write.
  lemma WindowAfter(p: Ptr, ws: seq<Cell>, src: seq<byte>, was: seq<byte>)
    requires |ws| == |src| && p.Ok() && |was| == |p.raw.data|
    requires forall k :: 0 <= k < |was| ==> p.raw.data[k] == WrittenByte(ws, src, Cell(p.raw, k), was[k])
    ensures p.Bytes() == WrittenFlat(ws, src, CellsIn(p), was[p.off..p.End()])
  {
    hide Fold, WrittenByte;
  }

  // One write after another is the write of both.
  lemma WrittenTwice(r: Raw, was: seq<byte>, mid: seq<byte>, now: seq<byte>,
                     ws: seq<Cell>, src: seq<byte>, ws': seq<Cell>, src': seq<byte>)
    requires |ws| == |src| && |ws'| == |src'| && |was| == |mid| == |now|
    requires forall k :: 0 <= k < |mid| ==> mid[k] == WrittenByte(ws, src, Cell(r, k), was[k])
    requires forall k :: 0 <= k < |now| ==> now[k] == WrittenByte(ws', src', Cell(r, k), mid[k])
    ensures forall k :: 0 <= k < |now| ==> now[k] == WrittenByte(ws + ws', src + src', Cell(r, k), was[k])
  {
    hide WrittenByte;
    forall k | 0 <= k < |now|
      ensures now[k] == WrittenByte(ws + ws', src + src', Cell(r, k), was[k])
    {
      WrittenJoin(ws, src, ws', src', Cell(r, k), was[k]);
    }
  }

  // The place of node i among the bytes of all nodes.
  ghost function PlaceOf(ps: seq<Ptr>, i: nat): nat
    requires i <= |ps|
  {
    StartOf(CellRows(ps), i)
  }

  lemma PlaceNext(ps: seq<Ptr>, i: nat)
    requires i < |ps|
    ensures PlaceOf(ps, i + 1) == PlaceOf(ps, i) + ps[i].len <= |CellsOf(ps)|
  {
    hide Concat;
    ConcatAt(CellRows(ps), i);
  }

  lemma PlaceEnds(ps: seq<Ptr>)
    ensures PlaceOf(ps, 0) == 0 && PlaceOf(ps, |ps|) == |CellsOf(ps)|
  {
    assert CellRows(ps)[..0] == [] && CellRows(ps)[..|ps|] == CellRows(ps);
  }

  // Part of a node among the bytes of all nodes.
  lemma NodeCells(ps: seq<Ptr>, i: nat, at: nat, n: nat)
    requires i < |ps| && at + n <= ps[i].len
    ensures var s := PlaceOf(ps, i) + at;
      s + n <= |CellsOf(ps)| && CellsOf(ps)[s..s + n] == CellsIn(Ptr(ps[i].raw, ps[i].off + at, n))
  {
    hide Concat;
    ConcatAt(CellRows(ps), i);
    var a, m, z := Concat(CellRows(ps)[..i]), CellsIn(ps[i]), Concat(CellRows(ps)[i + 1..]);
    assert (a + m + z)[|a| + at..|a| + at + n] == m[at..at + n];
  }

  // Where a node starts is the same counted in cells and in bytes.
  lemma PlaceIsStart(ps: seq<Ptr>, i: nat)
    requires AllOk(ps) && i <= |ps|
    ensures PlaceOf(ps, i) == |Concat(Chunks(ps)[..i])|
  {
    SameTotal(CellRows(ps)[..i], Chunks(ps)[..i]);
  }

  // ----- When a list grows -----

  lemma CellsSnoc(ps: seq<Ptr>, q: Ptr)
    ensures CellsOf(ps + [q]) == CellsOf(ps) + CellsIn(q)
  {
    hide Concat;
    assert CellRows(ps + [q]) == CellRows(ps) + [CellsIn(q)];
    ConcatSnoc(CellRows(ps), CellsIn(q));
  }

  // The last window becomes longer.
  lemma LastCellsGrow(ps: seq<Ptr>, n: nat)
    requires ps != []
    ensures var last := |ps| - 1; var t := ps[last];
      CellsOf(ps[last := t.(len := t.len + n)]) == CellsOf(ps) + CellsIn(Ptr(t.raw, t.End(), n))
  {
    hide Concat;
    var front, t := ps[..|ps| - 1], ps[|ps| - 1];
    var t', q := t.(len := t.len + n), Ptr(t.raw, t.End(), n);
    CellsSnoc(front, t);
    CellsSnoc(front, t');
    assert ps == front + [t] && ps[|ps| - 1 := t'] == front + [t'];
    assert CellsIn(t') == CellsIn(t) + CellsIn(q);
  }

  lemma NoCells()
    ensures CellsOf([]) == []
  {
    assert CellRows([]) == [];
  }

  lemma OneNodeCells(q: Ptr)
    ensures CellsOf([q]) == CellsIn(q)
  {
    NoCells();
    CellsSnoc([], q);
    assert [] + [q] == [q];
  }

  lemma CellsBoth(a: seq<Ptr>, b: seq<Ptr>)
    ensures CellsOf(a + b) == CellsOf(a) + CellsOf(b)
  {
    hide Concat;
    assert CellRows(a + b) == CellRows(a) + CellRows(b);
    ConcatAppend(CellRows(a), CellRows(b));
  }

  // Every cell of a list is shown by one of its windows.
  lemma {:induction false} CellShown(ps: seq<Ptr>, k: nat) returns (i: nat)
    requires k < |CellsOf(ps)|
    ensures i < |ps| && Shows(ps[i], CellsOf(ps)[k])
    decreases |ps|
  {
    hide Concat;
    ConcatEmpty<Cell>();
    assert ps != [] by {
      assert ps == [] ==> CellRows(ps) == [];
    }
    var front, t := ps[..|ps| - 1], ps[|ps| - 1];
    assert ps == front + [t];
    CellsSnoc(front, t);
    if k < |CellsOf(front)| {
      i := CellShown(front, k);
    } else {
      i := |front|;
    }
  }

  // ----- Bytes from cells -----

  ghost function RawsAt(cells: seq<Cell>): set<Raw> {
    set k | 0 <= k < |cells| :: cells[k].raw
  }

  // These are the bytes at the cells.
  ghost predicate Reads(cells: seq<Cell>, flat: seq<byte>)
    reads RawsAt(cells)
  {
    && |cells| == |flat|
    && forall k :: 0 <= k < |cells| ==> cells[k].at < |cells[k].raw.data| && flat[k] == cells[k].raw.data[cells[k].at]
  }

  lemma {:induction false} WindowsRead(ps: seq<Ptr>)
    requires AllOk(ps)
    ensures Reads(CellsOf(ps), Concat(Chunks(ps)))
    decreases |ps|
  {
    hide Concat, Fold;
    ConcatEmpty<Cell>();
    ConcatEmpty<byte>();
    if ps == [] {
      assert CellRows(ps) == [] && Chunks(ps) == [];
    } else {
      var front, t := ps[..|ps| - 1], ps[|ps| - 1];
      WindowsRead(front);
      assert ps == front + [t] && Chunks(ps) == Chunks(front) + [t.Bytes()];
      CellsSnoc(front, t);
      ConcatSnoc(Chunks(front), t.Bytes());
    }
  }

  twostate lemma ReadsKept(cells: seq<Cell>, new flat: seq<byte>)
    requires old(Reads(cells, flat))
    requires forall k :: 0 <= k < |cells| ==> cells[k].raw.data == old(cells[k].raw.data)
    ensures Reads(cells, flat)
  {
  }

  lemma NoneRead()
    ensures Reads([], [])
  {
  }

  // The same part of cells and bytes, and two parts together.
  lemma ReadsPart(cells: seq<Cell>, flat: seq<byte>, i: nat, j: nat)
    requires Reads(cells, flat) && i <= j <= |cells|
    ensures Reads(cells[i..j], flat[i..j])
  {
  }

  lemma ReadsBoth(a: seq<Cell>, f: seq<byte>, b: seq<Cell>, g: seq<byte>)
    requires Reads(a, f) && Reads(b, g)
    ensures Reads(a + b, f + g)
  {
  }

  lemma ReadsOnce(cells: seq<Cell>, f: seq<byte>, g: seq<byte>)
    requires Reads(cells, f) && Reads(cells, g)
    ensures f == g
  {
  }

  // ----- When a write is a patch of the flat bytes -----

  // No place of off..off + n shares its byte with another place.
  ghost predicate Alone(cells: seq<Cell>, off: nat, n: nat) {
    forall j, k :: off <= j < off + n <= |cells| && 0 <= k < |cells| && j != k ==> cells[j] != cells[k]
  }

  // Writing n bytes to places off..off + n patches the flat bytes, whatever is
  // written and whatever they were, exactly when those places are alone.
  lemma WriteIsExact(cells: seq<Cell>, off: nat, n: nat)
    requires off + n <= |cells|
    ensures Alone(cells, off, n) <==> forall flat: seq<byte>, src: seq<byte> :: |flat| == |cells| && |src| == n ==>
      WrittenFlat(cells[off..off + n], src, cells, flat) == Patched(flat, off, src)
  {
    hide WrittenByte;
    if Alone(cells, off, n) {
      forall flat: seq<byte>, src: seq<byte> | |flat| == |cells| && |src| == n
        ensures WrittenFlat(cells[off..off + n], src, cells, flat) == Patched(flat, off, src)
      {
        WriteExactly(cells, off, n, flat, src);
      }
    } else {
      var flat, src := WriteTooMuch(cells, off, n);
    }
  }

  lemma WriteExactly(cells: seq<Cell>, off: nat, n: nat, flat: seq<byte>, src: seq<byte>)
    requires off + n <= |cells| == |flat| && |src| == n && Alone(cells, off, n)
    ensures WrittenFlat(cells[off..off + n], src, cells, flat) == Patched(flat, off, src)
  {
    forall k | 0 <= k < |flat|
      ensures WrittenFlat(cells[off..off + n], src, cells, flat)[k] == Patched(flat, off, src)[k]
    {
      PatchPlace(cells, flat, off, src, k);
    }
  }

  // Places j, in the range, and k show one byte: what is written for the later of
  // them, or for j alone, shows at both.
  lemma WriteTooMuch(cells: seq<Cell>, off: nat, n: nat) returns (flat: seq<byte>, src: seq<byte>)
    requires off + n <= |cells| && !Alone(cells, off, n)
    ensures |flat| == |cells| && |src| == n
    ensures WrittenFlat(cells[off..off + n], src, cells, flat) != Patched(flat, off, src)
  {
    hide WrittenByte;
    var ws := cells[off..off + n];
    var j, k :| off <= j < off + n && 0 <= k < |cells| && j != k && cells[j] == cells[k];
    flat := seq(|cells|, i => if i == k then 1 else 0);
    src := seq(n, i => if off + i == k then 1 else 0);
    WrittenAlike(ws, src, cells[j], flat[j], flat[k]);
    assert ws[j - off] == cells[j];
    assert Patched(flat, off, src)[j] == 0 && Patched(flat, off, src)[k] == 1;
    assert WrittenFlat(ws, src, cells, flat)[j] == WrittenByte(ws, src, cells[j], flat[j]);
    assert WrittenFlat(ws, src, cells, flat)[k] == WrittenByte(ws, src, cells[j], flat[k]);
  }

  // What a cell that is written held before is lost.
  lemma {:induction false} WrittenAlike(ws: seq<Cell>, src: seq<byte>, cell: Cell, a: byte, b: byte)
    requires |ws| == |src| && cell in ws
    ensures WrittenByte(ws, src, cell, a) == WrittenByte(ws, src, cell, b)
  {
    var n := |ws| - 1;
    if ws[n] != cell {
      assert ws == ws[..n] + [ws[n]];
      WrittenAlike(ws[..n], src[..n], cell, a, b);
    }
  }

  // Place k, when no place of the range shares its byte with another place.
  lemma PatchPlace(cells: seq<Cell>, flat: seq<byte>, off: nat, src: seq<byte>, k: nat)
    requires |cells| == |flat| && off + |src| <= |flat| && k < |flat|
    requires forall j :: off <= j < off + |src| && j != k ==> cells[j] != cells[k]
    ensures WrittenFlat(cells[off..off + |src|], src, cells, flat)[k] == Patched(flat, off, src)[k]
  {
    var ws := cells[off..off + |src|];
    if off <= k < off + |src| {
      forall l | k - off < l < |ws|
        ensures ws[l] != ws[k - off]
      {
        assert ws[l] == cells[off + l];
      }
      WrittenAt(ws, src, k - off, flat[k]);
    } else {
      forall l | 0 <= l < |ws|
        ensures ws[l] != cells[k]
      {
        assert ws[l] == cells[off + l];
      }
      NotWritten(ws, src, cells[k], flat[k]);
    }
  }

  // No place outside off..off + n shares its byte with a place inside.
  ghost predicate RangeApart(cells: seq<Cell>, off: nat, n: nat) {
    forall j, k :: off <= j < off + n <= |cells| && (0 <= k < off || off + n <= k < |cells|) ==> cells[j] != cells[k]
  }

  // Zeroing places off..off + n clears exactly them, whatever the bytes are,
  // exactly when no place outside shares its byte with a place inside.
  lemma ZeroIsExact(cells: seq<Cell>, off: nat, n: nat)
    requires off + n <= |cells|
    ensures RangeApart(cells, off, n) <==> forall flat: seq<byte> :: |flat| == |cells| ==>
      WrittenFlat(cells[off..off + n], ZeroBytes(n), cells, flat) == Patched(flat, off, ZeroBytes(n))
  {
    hide WrittenByte;
    var ws := cells[off..off + n];
    if RangeApart(cells, off, n) {
      forall flat: seq<byte> | |flat| == |cells|
        ensures WrittenFlat(ws, ZeroBytes(n), cells, flat) == Patched(flat, off, ZeroBytes(n))
      {
        ZeroExactly(cells, off, n, flat);
      }
    } else {
      var flat := ZeroTooMuch(cells, off, n);
    }
  }

  lemma ZeroExactly(cells: seq<Cell>, off: nat, n: nat, flat: seq<byte>)
    requires off + n <= |cells| == |flat| && RangeApart(cells, off, n)
    ensures WrittenFlat(cells[off..off + n], ZeroBytes(n), cells, flat) == Patched(flat, off, ZeroBytes(n))
  {
    hide WrittenByte;
    var ws := cells[off..off + n];
    forall k | 0 <= k < |flat|
      ensures WrittenByte(ws, ZeroBytes(n), cells[k], flat[k]) == if off <= k < off + n then 0 else flat[k]
    {
      WrittenZeros(ws, cells[k], flat[k]);
      assert off <= k < off + n ==> ws[k - off] == cells[k];
      assert forall l :: 0 <= l < n ==> ws[l] == cells[off + l];
    }
  }

  lemma ZeroTooMuch(cells: seq<Cell>, off: nat, n: nat) returns (flat: seq<byte>)
    requires off + n <= |cells| && !RangeApart(cells, off, n)
    ensures |flat| == |cells|
    ensures WrittenFlat(cells[off..off + n], ZeroBytes(n), cells, flat) != Patched(flat, off, ZeroBytes(n))
  {
    hide WrittenByte;
    var ws := cells[off..off + n];
    var j, k :| off <= j < off + n && (0 <= k < off || off + n <= k < |cells|) && cells[j] == cells[k];
    flat := seq(|cells|, _ => 1);
    assert ws[j - off] == cells[k];
    WrittenZeros(ws, cells[k], 1);
    assert WrittenFlat(ws, ZeroBytes(n), cells, flat)[k] != Patched(flat, off, ZeroBytes(n))[k];
  }

  // A list that shows none of the bytes written keeps its bytes.
  lemma WriteElsewhere(ws: seq<Cell>, src: seq<byte>, cells: seq<Cell>, flat: seq<byte>)
    requires |ws| == |src| && |cells| == |flat| && forall k :: 0 <= k < |cells| ==> cells[k] !in ws
    ensures WrittenFlat(ws, src, cells, flat) == flat
  {
    forall k | 0 <= k < |flat|
      ensures WrittenByte(ws, src, cells[k], flat[k]) == flat[k]
    {
      NotWritten(ws, src, cells[k], flat[k]);
    }
  }
}
