// What calls on many lists do, told without raws and nodes: every list shows a
// sequence of cells, calls rearrange the cells or add new ones, and a write goes to
// cells, whoever shows them.
module RunSpec {
  import opened Crc
  import opened Rope
  import opened BufferRaw
  import opened BufferCells

  const NODE_LIMIT: nat := 0x1_0000_0000

  // One call on the lists of a run; i and j are their numbers.
  datatype Op =
    | AppendByte(i: nat, c: byte)
    | Append(i: nat, data: seq<byte>)
    | Zeros(i: nat, n: nat)
    | Hole(i: nat, n: nat)
    | PushNew(i: nat, data: seq<byte>)
    | Join(i: nat, j: nat)
    | Window(i: nat, j: nat, node: nat, off: nat, n: nat)
    | Copy(i: nat, j: nat)
    | Move(i: nat, j: nat)
    | Claim(i: nat, j: nat)
    | ClaimPieces(i: nat, j: nat)
    | Cut(i: nat, off: nat, n: nat, j: nat)
    | CutAway(i: nat, off: nat, n: nat)
    | Part(i: nat, j: nat, off: nat, n: nat)
    | Flatten(i: nat)
    | Prepare(i: nat, n: nat)
    | Drop(i: nat)
    | ZeroOut(i: nat, off: nat, n: nat)
    | Write(i: nat, off: nat, data: seq<byte>)
    | Sum(i: nat, start: word)

  // The nodes and the bytes of every list, and the checksums returned so far.
  datatype Moment = Moment(nodes: seq<seq<Ptr>>, flats: seq<seq<byte>>, sums: seq<nat>)

  predicate TakesTwo(op: Op) {
    op.Join? || op.Copy? || op.Move? || op.Claim? || op.ClaimPieces? || op.Cut? || op.Part?
  }

  predicate Writes(op: Op) {
    op.ZeroOut? || op.Write?
  }

  ghost function Cells(s: Moment): (c: seq<seq<Cell>>)
    ensures |c| == |s.nodes| && forall k :: 0 <= k < |c| ==> c[k] == CellsOf(s.nodes[k])
  {
    seq(|s.nodes|, k requires 0 <= k < |s.nodes| => CellsOf(s.nodes[k]))
  }

  // Every list has a byte at each of its cells.
  ghost predicate Whole(s: Moment) {
    |s.nodes| == |s.flats| && forall k :: 0 <= k < |s.nodes| ==> |CellsOf(s.nodes[k])| == |s.flats[k]|
  }

  // A cell has the same byte wherever it is shown.
  ghost predicate Consistent(s: Moment) {
    && Whole(s)
    && forall k, l :: 0 <= k < |s.flats| && 0 <= l < |s.flats| ==>
         Agree(CellsOf(s.nodes[k]), s.flats[k], CellsOf(s.nodes[l]), s.flats[l])
  }

  ghost predicate Agree(a: seq<Cell>, f: seq<byte>, b: seq<Cell>, g: seq<byte>)
    requires |a| == |f| && |b| == |g|
  {
    forall p, q :: 0 <= p < |a| && 0 <= q < |b| && a[p] == b[q] ==> f[p] == g[q]
  }

  // A call is made on lists that exist, on another list where it takes one, and
  // within the bounds at which the routine is sound.
  ghost predicate Fits(s: Moment, op: Op)
    requires Whole(s)
  {
    && op.i < |s.flats|
    && (TakesTwo(op) ==> op.j < |s.flats| && op.j != op.i)
    && match op
       case Hole(i, n) => n > 0
       case Window(i, j, node, off, n) => j < |s.flats| && node < |s.nodes[j]| && off + n <= s.nodes[j][node].len
       case Cut(i, off, n, j) => CutFits(|s.flats[i]|, off, n)
       case CutAway(i, off, n) => CutFits(|s.flats[i]|, off, n)
       case Part(i, j, off, n) => off + n != |s.flats[j]|
       case ZeroOut(i, off, n) => off + n <= |s.flats[i]|
       case Sum(i, start) => forall k :: 0 <= k < |s.nodes[i]| ==> s.nodes[i][k].len < NODE_LIMIT
       case _ => true
  }

  predicate CutFits(len: nat, off: nat, n: nat) {
    n == 0 || off >= len || off + n <= len
  }

  // What the calls that only take sequences apart and put them together do, to
  // the cells and to the bytes alike; a call that throws does nothing.
  function Rearranged<T>(f: seq<seq<T>>, op: Op, at: nat): seq<seq<T>>
    requires op.i < |f| && (TakesTwo(op) ==> op.j < |f| && op.j != op.i)
    requires op.Window? ==> op.j < |f| && at + op.n <= |f[op.j]|
    requires op.Cut? || op.CutAway? ==> CutFits(|f[op.i]|, op.off, op.n)
  {
    match op
    case Join(i, j) => f[i := f[i] + f[j]]
    case Window(i, j, node, off, n) => f[i := f[i] + f[j][at..at + n]]
    case Copy(i, j) => f[i := f[j]]
    case Move(i, j) => f[i := f[j]][j := []]
    case Claim(i, j) => f[i := f[i] + f[j]][j := []]
    case ClaimPieces(i, j) => f[i := f[i] + f[j]][j := []]
    case Cut(i, off, n, j) =>
      if n == 0 || off >= |f[i]| then f
      else f[i := f[i][..off] + f[i][off + n..]][j := f[j] + f[i][off..off + n]]
    case CutAway(i, off, n) => if n == 0 || off >= |f[i]| then f else f[i := f[i][..off] + f[i][off + n..]]
    case Part(i, j, off, n) => if off + n > |f[j]| then f else f[i := f[j][off..off + n]]
    case Drop(i) => f[i := []]
    case _ => f
  }

  // Where the window of the call is among the bytes of its list.
  ghost function PlaceIn(s: Moment, op: Op): (at: nat)
    requires Whole(s) && Fits(s, op)
    ensures op.Window? ==> at + op.n <= |s.flats[op.j]|
  {
    if op.Window? then
      NodeCells(s.nodes[op.j], op.node, op.off, op.n);
      PlaceOf(s.nodes[op.j], op.node) + op.off
    else 0
  }

  // Cells that no list shows, each once.
  ghost predicate New(s: Moment, cells: seq<Cell>) {
    && (forall k, p :: 0 <= k < |s.nodes| && 0 <= p < |cells| ==> cells[p] !in CellsOf(s.nodes[k]))
    && forall p, q :: 0 <= p < q < |cells| ==> cells[p] != cells[q]
  }

  ghost predicate OthersStay(s: Moment, i: nat, t: Moment) {
    && |t.nodes| == |s.nodes|
    && forall k :: 0 <= k < |s.nodes| && k != i ==> CellsOf(t.nodes[k]) == CellsOf(s.nodes[k])
  }

  // List i has bytes more, on new cells.
  ghost predicate Grows(s: Moment, i: nat, data: seq<byte>, t: Moment)
    requires i < |s.nodes| == |s.flats|
  {
    && OthersStay(s, i, t) && t.flats == s.flats[i := s.flats[i] + data] && t.sums == s.sums
    && CellsOf(s.nodes[i]) <= CellsOf(t.nodes[i]) && New(s, CellsOf(t.nodes[i])[|CellsOf(s.nodes[i])|..])
  }

  // List i has its bytes on new cells.
  ghost predicate Renewed(s: Moment, i: nat, t: Moment)
    requires i < |s.nodes|
  {
    OthersStay(s, i, t) && t.flats == s.flats && t.sums == s.sums && New(s, CellsOf(t.nodes[i]))
  }

  // The data have been written, in order, to the cells that list i shows from off
  // on, and every list that shows them sees it.
  ghost predicate Written(s: Moment, i: nat, off: nat, data: seq<byte>, t: Moment)
    requires Whole(s) && i < |s.nodes| && off + |data| <= |s.flats[i]|
  {
    && t.nodes == s.nodes && t.sums == s.sums && |t.flats| == |s.flats|
    && var ws := CellsOf(s.nodes[i])[off..off + |data|];
       forall k :: 0 <= k < |s.flats| ==> t.flats[k] == WrittenFlat(ws, data, CellsOf(s.nodes[k]), s.flats[k])
  }

  ghost predicate SameCells(s: Moment, t: Moment) {
    Cells(t) == Cells(s) && t.flats == s.flats && t.sums == s.sums
  }

  // What a write at a position puts there: as much as the list has room for.
  function Room(data: seq<byte>, off: nat, len: nat): (d: seq<byte>)
    requires off <= len
    ensures off + |d| <= len && d <= data && (d == data || off + |d| == len)
  {
    if off + |data| <= len then data else data[..len - off]
  }

  // The moment after a call.
  ghost predicate Follows(s: Moment, op: Op, t: Moment)
    requires Whole(s)
  {
    if !Fits(s, op) then t == s
    else
      match op
      case AppendByte(i, c) => Grows(s, i, [c], t)
      case Append(i, data) => Grows(s, i, data, t)
      case Zeros(i, n) => Grows(s, i, ZeroBytes(n), t)
      case Hole(i, n) => exists hole: seq<byte> :: |hole| == n && Grows(s, i, hole, t)
      case PushNew(i, data) => Grows(s, i, data, t)
      case Flatten(i) => Renewed(s, i, t)
      case Prepare(i, n) => SameCells(s, t)
      case ZeroOut(i, off, n) => Written(s, i, off, ZeroBytes(n), t)
      case Write(i, off, data) =>
        if off > |s.flats[i]| then t == s else Written(s, i, off, Room(data, off, |s.flats[i]|), t)
      case Sum(i, start) => SameCells(s, t.(sums := s.sums)) && t.sums == s.sums + [Fold(start, s.flats[i])]
      case _ => Reordered(s, op, t)
  }

  // Cells and bytes have been rearranged alike.
  ghost predicate Reordered(s: Moment, op: Op, t: Moment)
    requires Whole(s) && Fits(s, op)
  {
    && Cells(t) == Rearranged(Cells(s), op, PlaceIn(s, op))
    && t.flats == Rearranged(s.flats, op, PlaceIn(s, op)) && t.sums == s.sums
  }

  // A run, moment by moment.
  ghost predicate RunOf(h: seq<Moment>, ops: seq<Op>) {
    && |h| == |ops| + 1 && (forall k :: 0 <= k < |h| ==> Consistent(h[k]))
    && forall k :: 0 <= k < |ops| ==> Follows(h[k], ops[k], h[k + 1])
  }

  // List k is given or robbed of bytes by the call.
  predicate Receives(op: Op, k: nat) {
    !Writes(op) && !op.Sum? && !op.Prepare? &&
    (op.i == k || ((op.Move? || op.Claim? || op.ClaimPieces? || op.Cut?) && op.j == k))
  }

  // The call writes to a cell that list k shows.
  ghost predicate Hits(s: Moment, op: Op, k: nat)
    requires Whole(s) && k < |s.nodes|
  {
    Writes(op) && Fits(s, op) && Meet(CellsOf(s.nodes[k]), CellsOf(s.nodes[op.i]), op.off, Reach(op))
  }

  // Some of the cells are among n others from position off on.
  ghost predicate Meet(cells: seq<Cell>, others: seq<Cell>, off: nat, n: nat) {
    exists p, q :: 0 <= p < |cells| && off <= q < |others| && q < off + n && cells[p] == others[q]
  }

  function Reach(op: Op): nat
    requires Writes(op)
  {
    if op.ZeroOut? then op.n else |op.data|
  }

  // A call that gives list k nothing and writes to none of its cells leaves it.
  lemma StepIsolates(s: Moment, op: Op, t: Moment, k: nat)
    requires Whole(s) && Follows(s, op, t) && k < |s.nodes|
    ensures |t.nodes| == |s.nodes| == |t.flats|
    ensures !Receives(op, k) && !Hits(s, op, k) ==>
      t.flats[k] == s.flats[k] && CellsOf(t.nodes[k]) == CellsOf(s.nodes[k])
  {
    hide CellsOf, WrittenByte, Rearranged, PlaceIn, Meet, New;
    if Fits(s, op) {
      assert |Cells(t)| == |t.nodes| && |Cells(s)| == |s.nodes|;
      if Writes(op) {
        WriteIsolates(s, op, t, k);
      } else if op.Sum? || op.Prepare? {
        assert k < |Cells(s)| && Cells(t)[k] == Cells(s)[k];
      } else if Rearranges(op) {
        ReorderIsolates(s, op, t, k);
      }
    }
  }

  predicate Adds(op: Op) {
    op.AppendByte? || op.Append? || op.Zeros? || op.Hole? || op.PushNew?
  }

  predicate Rearranges(op: Op) {
    TakesTwo(op) || op.Window? || op.CutAway? || op.Drop?
  }

  lemma ReorderIsolates(s: Moment, op: Op, t: Moment, k: nat)
    requires Whole(s) && Fits(s, op) && Rearranges(op) && Reordered(s, op, t) && k < |s.nodes|
    ensures |t.nodes| == |s.nodes| == |t.flats|
    ensures !Receives(op, k) ==> t.flats[k] == s.flats[k] && CellsOf(t.nodes[k]) == CellsOf(s.nodes[k])
  {
    var at := PlaceIn(s, op);
    assert |Cells(s)| == |s.flats| && forall l :: 0 <= l < |s.flats| ==> |Cells(s)[l]| == |s.flats[l]|;
    RearrangedElsewhere(s.flats, op, at, k);
    RearrangedElsewhere(Cells(s), op, at, k);
    hide Rearranged, CellsOf, PlaceIn, Fits;
    assert |Cells(t)| == |t.nodes| && |Cells(s)| == |s.nodes|;
    assert Cells(t)[k] == CellsOf(t.nodes[k]);
  }

  lemma RearrangedElsewhere<T>(f: seq<seq<T>>, op: Op, at: nat, k: nat)
    requires op.i < |f| && (TakesTwo(op) ==> op.j < |f| && op.j != op.i) && Rearranges(op) && k < |f|
    requires op.Window? ==> op.j < |f| && at + op.n <= |f[op.j]|
    requires op.Cut? || op.CutAway? ==> CutFits(|f[op.i]|, op.off, op.n)
    ensures |Rearranged(f, op, at)| == |f| && (!Receives(op, k) ==> Rearranged(f, op, at)[k] == f[k])
  {
  }

  lemma WriteIsolates(s: Moment, op: Op, t: Moment, k: nat)
    requires Whole(s) && Fits(s, op) && Writes(op) && Follows(s, op, t) && k < |s.nodes|
    ensures t.nodes == s.nodes && |t.flats| == |s.flats| && (!Hits(s, op, k) ==> t.flats[k] == s.flats[k])
  {
    hide CellsOf, WrittenByte;
    if op.ZeroOut? && !Hits(s, op, k) {
      WriteMisses(s, op.i, op.off, ZeroBytes(op.n), t, k);
    }
    if op.Write? && op.off <= |s.flats[op.i]| && !Hits(s, op, k) {
      WriteMisses(s, op.i, op.off, Room(op.data, op.off, |s.flats[op.i]|), t, k);
    }
  }

  lemma WriteMisses(s: Moment, i: nat, off: nat, data: seq<byte>, t: Moment, k: nat)
    requires Whole(s) && i < |s.nodes| && off + |data| <= |s.flats[i]| && Written(s, i, off, data, t)
    requires k < |s.nodes| && !Meet(CellsOf(s.nodes[k]), CellsOf(s.nodes[i]), off, |data|)
    ensures t.flats[k] == s.flats[k]
  {
    hide CellsOf, WrittenByte;
    var ws := CellsOf(s.nodes[i])[off..off + |data|];
    assert forall q :: 0 <= q < |ws| ==> ws[q] == CellsOf(s.nodes[i])[off + q];
    WriteElsewhere(ws, data, CellsOf(s.nodes[k]), s.flats[k]);
  }

  // Over a whole run, a list that no call gives bytes to or takes them from, and
  // whose cells no write hits, keeps its bytes and its cells, whatever happens to
  // the lists it shares raws with.
  lemma {:induction false} Isolated(h: seq<Moment>, ops: seq<Op>, k: nat)
    requires RunOf(h, ops) && k < |h[0].nodes|
    requires forall m :: 0 <= m < |ops| ==> !Receives(ops[m], k) && (k < |h[m].nodes| ==> !Hits(h[m], ops[m], k))
    ensures k < |h[|ops|].nodes| && h[|ops|].flats[k] == h[0].flats[k]
    ensures CellsOf(h[|ops|].nodes[k]) == CellsOf(h[0].nodes[k])
    decreases |ops|
  {
    hide CellsOf, Follows, Hits, Receives, Agree;
    if ops != [] {
      var n := |ops| - 1;
      Isolated(h[..n + 1], ops[..n], k);
      assert h[..n + 1][n] == h[n];
      StepIsolates(h[n], ops[n], h[n + 1], k);
    }
  }

  // The call names list i, other than to look at it or to make room.
  predicate Uses(op: Op, i: nat) {
    (op.i == i && !op.Sum? && !op.Prepare?) || ((TakesTwo(op) || op.Window?) && op.j == i)
  }

  // No other list shows what list i shows from position off on.
  ghost predicate Private(s: Moment, i: nat, off: nat)
    requires i < |s.nodes|
  {
    forall k, p :: 0 <= k < |s.nodes| && k != i && off <= p < |CellsOf(s.nodes[i])| ==>
      CellsOf(s.nodes[i])[p] !in CellsOf(s.nodes[k])
  }

  // What a list appends is its own.
  lemma AppendedPrivate(s: Moment, i: nat, data: seq<byte>, t: Moment)
    requires Whole(s) && i < |s.nodes| && Grows(s, i, data, t)
    ensures Private(t, i, |s.flats[i]|)
  {
    hide CellsOf;
    var c, had := CellsOf(t.nodes[i]), |s.flats[i]|;
    forall p | had <= p < |c|
      ensures c[p] == c[had..][p - had]
    {
    }
  }

  // It stays its own, and the bytes stay, while calls go to other lists only,
  // whatever they do and whatever they write.
  lemma {:induction false} PrivateStays(h: seq<Moment>, ops: seq<Op>, i: nat, off: nat)
    requires RunOf(h, ops) && i < |h[0].nodes| && off <= |h[0].flats[i]| && Private(h[0], i, off)
    requires forall m :: 0 <= m < |ops| ==> !Uses(ops[m], i)
    ensures var t := h[|ops|];
      && i < |t.nodes| && CellsOf(t.nodes[i]) == CellsOf(h[0].nodes[i]) && Private(t, i, off)
      && off <= |t.flats[i]| && t.flats[i][off..] == h[0].flats[i][off..]
    decreases |ops|
  {
    hide CellsOf, Follows, Private, Agree;
    if ops != [] {
      var n := |ops| - 1;
      PrivateStays(h[..n + 1], ops[..n], i, off);
      assert h[..n + 1][n] == h[n];
      StepPrivate(h[n], ops[n], h[n + 1], i, off);
    }
  }

  lemma StepPrivate(s: Moment, op: Op, t: Moment, i: nat, off: nat)
    requires Whole(s) && Whole(t) && Follows(s, op, t) && !Uses(op, i)
    requires i < |s.nodes| && off <= |s.flats[i]| && Private(s, i, off)
    ensures |t.nodes| == |s.nodes| && CellsOf(t.nodes[i]) == CellsOf(s.nodes[i]) && Private(t, i, off)
    ensures |t.flats[i]| == |s.flats[i]| && t.flats[i][off..] == s.flats[i][off..]
  {
    hide CellsOf, Follows, Private, Meet, WrittenByte;
    StepIsolates(s, op, t, i);
    KeepsCells(s, op, t, i);
    PrivateKept(s, op, t, i, off);
    if Writes(op) {
      UnwrittenSuffix(s, op, t, i, off);
    }
  }

  lemma PrivateKept(s: Moment, op: Op, t: Moment, i: nat, off: nat)
    requires Whole(s) && Whole(t) && Follows(s, op, t) && !Uses(op, i)
    requires i < |s.nodes| == |t.nodes| && CellsOf(t.nodes[i]) == CellsOf(s.nodes[i]) && Private(s, i, off)
    ensures Private(t, i, off)
  {
    hide CellsOf, Follows;
    var c := CellsOf(s.nodes[i]);
    forall k, p | 0 <= k < |s.nodes| && k != i && off <= p < |c|
      ensures c[p] !in CellsOf(t.nodes[k])
    {
      if c[p] in CellsOf(t.nodes[k]) {
        CellsComeFrom(s, op, t, i, k, c[p]);
        assert false;
      }
    }
  }

  lemma UnwrittenSuffix(s: Moment, op: Op, t: Moment, i: nat, off: nat)
    requires Whole(s) && Writes(op) && Follows(s, op, t) && !Uses(op, i)
    requires i < |s.nodes| && off <= |s.flats[i]| && Private(s, i, off)
    ensures |t.flats| == |s.flats| && |t.flats[i]| == |s.flats[i]| && t.flats[i][off..] == s.flats[i][off..]
  {
    if Fits(s, op) {
      PrivateUnwritten(s, op, t, i, off);
    }
  }

  // Calls that do not use list i leave its cells.
  lemma KeepsCells(s: Moment, op: Op, t: Moment, i: nat)
    requires Whole(s) && Follows(s, op, t) && i < |s.nodes| && !Receives(op, i)
    ensures |t.nodes| == |s.nodes| && CellsOf(t.nodes[i]) == CellsOf(s.nodes[i])
  {
    StepIsolates(s, op, t, i);
    hide CellsOf, WrittenByte, Rearranged, PlaceIn, Meet, New;
  }

  // Writes through other lists do not reach what is list i's own.
  lemma PrivateUnwritten(s: Moment, op: Op, t: Moment, i: nat, off: nat)
    requires Whole(s) && Fits(s, op) && Writes(op) && Follows(s, op, t) && op.i != i
    requires i < |s.nodes| && off <= |s.flats[i]| && Private(s, i, off)
    ensures |t.flats| == |s.flats| && |t.flats[i]| == |s.flats[i]| && t.flats[i][off..] == s.flats[i][off..]
  {
    hide CellsOf, WrittenByte;
    var data := if op.ZeroOut? then ZeroBytes(op.n) else if op.off > |s.flats[op.i]| then []
      else Room(op.data, op.off, |s.flats[op.i]|);
    if op.off <= |s.flats[op.i]| {
      var ws := CellsOf(s.nodes[op.i])[op.off..op.off + |data|];
      forall p | off <= p < |s.flats[i]|
        ensures t.flats[i][p] == s.flats[i][p]
      {
        assert forall q :: 0 <= q < |ws| ==> ws[q] == CellsOf(s.nodes[op.i])[op.off + q];
        NotWritten(ws, data, CellsOf(s.nodes[i])[p], s.flats[i][p]);
      }
    }
  }

  // What list k shows after a call that does not use list i was shown by a list
  // other than i before, or by none.
  lemma CellsComeFrom(s: Moment, op: Op, t: Moment, i: nat, k: nat, c: Cell)
    requires Whole(s) && Follows(s, op, t) && !Uses(op, i)
    requires i < |s.nodes| && k < |s.nodes| == |t.nodes| && k != i
    requires c in CellsOf(t.nodes[k])
    ensures (exists l :: 0 <= l < |s.nodes| && l != i && c in CellsOf(s.nodes[l])) ||
      forall l :: 0 <= l < |s.nodes| ==> c !in CellsOf(s.nodes[l])
  {
    hide CellsOf, WrittenByte, Rearranged, PlaceIn, Meet;
    if !Fits(s, op) {
      assert t == s;
    } else if Receives(op, k) {
      if Rearranges(op) {
        assert Cells(t)[k] == CellsOf(t.nodes[k]);
        RearrangedFrom(Cells(s), op, PlaceIn(s, op), i, k, c);
      } else {
        AddedFrom(s, op, t, k, c);
      }
    } else {
      KeepsCells(s, op, t, k);
    }
  }

  lemma RearrangedFrom<T>(f: seq<seq<T>>, op: Op, at: nat, i: nat, k: nat, x: T)
    requires op.i < |f| && (TakesTwo(op) ==> op.j < |f| && op.j != op.i) && Rearranges(op) && k < |f| && k != i
    requires op.Window? ==> op.j < |f| && at + op.n <= |f[op.j]|
    requires op.Cut? || op.CutAway? ==> CutFits(|f[op.i]|, op.off, op.n)
    requires !Uses(op, i) && |Rearranged(f, op, at)| == |f| && x in Rearranged(f, op, at)[k]
    ensures exists l :: 0 <= l < |f| && l != i && x in f[l]
  {
    if x in f[k] {
      assert k != i && x in f[k];
    } else if x in f[op.i] {
      assert op.i != i;
    } else if TakesTwo(op) || op.Window? {
      assert x in f[op.j];
    }
  }

  lemma AddedFrom(s: Moment, op: Op, t: Moment, k: nat, c: Cell)
    requires Whole(s) && Fits(s, op) && Follows(s, op, t) && Receives(op, k) && !Rearranges(op)
    requires k < |s.nodes| == |t.nodes| && c in CellsOf(t.nodes[k])
    ensures c in CellsOf(s.nodes[k]) || forall l :: 0 <= l < |s.nodes| ==> c !in CellsOf(s.nodes[l])
  {
    hide CellsOf;
    var was, now := CellsOf(s.nodes[k]), CellsOf(t.nodes[k]);
    if Adds(op) {
      assert now == was + now[|was|..];
    }
  }

  // A write patches its own list when the places are alone, and shows wherever the
  // cells show: lists with the same cells have the same bytes.
  lemma WritePatches(s: Moment, i: nat, off: nat, data: seq<byte>, t: Moment)
    requires Whole(s) && i < |s.nodes| && off + |data| <= |s.flats[i]| && Written(s, i, off, data, t)
    ensures Alone(CellsOf(s.nodes[i]), off, |data|) ==> t.flats[i] == Patched(s.flats[i], off, data)
    ensures forall k :: 0 <= k < |s.nodes| && CellsOf(s.nodes[k]) == CellsOf(s.nodes[i]) && s.flats[k] == s.flats[i] ==>
      t.flats[k] == t.flats[i]
  {
    hide CellsOf, WrittenByte, Patched;
    if Alone(CellsOf(s.nodes[i]), off, |data|) {
      WriteExactly(CellsOf(s.nodes[i]), off, |data|, s.flats[i], data);
    }
  }

  // Lists that show the same cells, as a list and its copy do, stay equal while
  // neither is given or robbed of bytes, whatever is written and through whichever.
  lemma {:induction false} SharersStayEqual(h: seq<Moment>, ops: seq<Op>, i: nat, j: nat)
    requires RunOf(h, ops) && i < |h[0].nodes| && j < |h[0].nodes|
    requires CellsOf(h[0].nodes[i]) == CellsOf(h[0].nodes[j])
    requires forall m :: 0 <= m < |ops| ==> !Receives(ops[m], i) && !Receives(ops[m], j)
    ensures var t := h[|ops|];
      i < |t.nodes| && j < |t.nodes| && CellsOf(t.nodes[i]) == CellsOf(t.nodes[j]) && t.flats[i] == t.flats[j]
    decreases |ops|
  {
    hide CellsOf, Follows, Receives;
    if ops != [] {
      var n := |ops| - 1;
      SharersStayEqual(h[..n + 1], ops[..n], i, j);
      assert h[..n + 1][n] == h[n];
      KeepsCells(h[n], ops[n], h[n + 1], i);
      KeepsCells(h[n], ops[n], h[n + 1], j);
    }
    SameBytes(h[|ops|], i, j);
  }

  lemma SameBytes(s: Moment, i: nat, j: nat)
    requires Consistent(s) && i < |s.nodes| && j < |s.nodes| && CellsOf(s.nodes[i]) == CellsOf(s.nodes[j])
    ensures s.flats[i] == s.flats[j]
  {
    hide CellsOf;
    assert Agree(CellsOf(s.nodes[i]), s.flats[i], CellsOf(s.nodes[j]), s.flats[j]);
  }

  lemma CopyShares(s: Moment, i: nat, j: nat, t: Moment)
    requires Whole(s) && i < |s.nodes| && j < |s.nodes| && i != j && Follows(s, Copy(i, j), t)
    ensures |t.nodes| == |s.nodes| && CellsOf(t.nodes[i]) == CellsOf(t.nodes[j]) == CellsOf(s.nodes[j])
  {
    hide CellsOf;
    assert Fits(s, Copy(i, j));
    assert Cells(t)[i] == CellsOf(t.nodes[i]) && Cells(t)[j] == CellsOf(t.nodes[j]);
  }
}
