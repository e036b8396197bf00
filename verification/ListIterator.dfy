// iterator_impl: a cursor into a list, as a node, an offset in the node and an
// absolute offset.
module ListIterator {
  import opened Options
  import opened Crc
  import opened Crc32c
  import opened Rope
  import opened BufferRaw
  import opened BufferCells
  import opened BufferList

  class Iterator {
    const list: List
    // m_list_it, as the number of nodes before it
    var it: nat
    // m_r_off, the offset in the node
    var rOff: nat
    // m_a_off, the offset in the list
    var aOff: nat

    // The absolute offset is the bytes before the node and the offset in it.
    ghost predicate Good()
      reads this, list, RawsOf(list.buffers)
    {
      && list.Valid() && it <= |list.buffers|
      && (if it < |list.buffers| then rOff <= list.buffers[it].len else rOff == 0)
      && aOff == StartOf(list.Parts(), it) + rOff
    }

    // After an advance past the end has thrown: the node is the sentinel, the
    // offset in it is what was too much, and the absolute offset is still good.
    ghost predicate Stranded()
      reads this, list, RawsOf(list.buffers)
    {
      list.Valid() && it == |list.buffers| && rOff > 0 && aOff <= list.len
    }

    ghost predicate Usable()
      reads this, list, RawsOf(list.buffers)
    {
      Good() || Stranded()
    }

    // The position off; when there is none, the exception leaves no iterator.
    constructor (list: List, off: nat)
      requires list.Valid()
      ensures this.list == list && list.Valid() && list.Flat() == old(list.Flat())
      ensures if off <= list.len then Good() && aOff == off else Stranded()
      ensures off <= list.len && it < |list.buffers| ==> rOff < list.buffers[it].len
    {
      hide Concat, Fold, List.Valid, List.Shape, List.Parts, List.Flat;
      this.list := list;
      it, rOff, aOff := 0, 0, 0;
      new;
      ListKept(list);
      StartOfNone(list);
      label zero:
      var ok := Advance(off);
    }

    lemma Within()
      requires Usable()
      ensures list.Valid() && aOff <= list.len && it <= |list.buffers|
    {
      hide Concat;
      var c := list.Parts();
      EndOfAll(c);
      if Good() && it < |list.buffers| {
        NextStart(c, it);
      }
    }

    // operator+=
    method Advance(off: nat) returns (ok: bool)
      requires Usable()
      modifies this
      ensures ok <==> old(Good()) && old(aOff) + off <= list.len
      ensures if ok then Good() && aOff == old(aOff) + off else Stranded() && aOff == old(aOff)
      ensures it >= old(it)
      ensures old(it) < |list.buffers| && old(rOff) + off >= list.buffers[old(it)].len ==> it > old(it)
      ensures ok && it < |list.buffers| ==> rOff < list.buffers[it].len
      ensures list.Flat() == old(list.Flat())
    {
      hide Concat, Fold, List.Valid, List.Shape, List.Parts, List.Flat;
      ghost var c, good := list.Parts(), Good();
      list.FlatIsParts();
      Within();
      rOff := rOff + off;
      ListKept(list);
      while it < |list.buffers|
        invariant list.Valid() && list.Parts() == c && it <= |list.buffers| && aOff == old(aOff)
        invariant list.Flat() == old(list.Flat())
        invariant it >= old(it) && (it == old(it) ==> rOff == old(rOff) + off)
        invariant if good then aOff + off == StartOf(c, it) + rOff else it == |list.buffers| && rOff > 0
        decreases |list.buffers| - it
      {
        NodeLength(list, it);
        NextStart(c, it);
        if rOff < list.buffers[it].len {
          break;
        }
        label before:
        rOff, it := rOff - list.buffers[it].len, it + 1;
        ListKept@before(list);
      }
      list.FlatIsParts();
      EndOfAll(c);
      if it == |list.buffers| && rOff > 0 {
        return false;
      }
      label found:
      aOff := aOff + off;
      ListKept@found(list);
      return true;
    }

    // seek
    method Seek(off: nat) returns (ok: bool)
      requires list.Valid()
      modifies this
      ensures ok <==> off <= list.len
      ensures if ok then Good() && aOff == off else Stranded() && aOff == 0
      ensures ok && it < |list.buffers| ==> rOff < list.buffers[it].len
      ensures list.Flat() == old(list.Flat())
    {
      hide Concat, Fold, List.Valid, List.Shape, List.Parts, List.Flat;
      it, rOff, aOff := 0, 0, 0;
      ListKept(list);
      StartOfNone(list);
      label zero:
      ok := Advance(off);
    }

    // What copy and copy_in begin with: from the sentinel, back to the last good
    // offset.
    method Resume()
      requires Usable()
      modifies this
      ensures Good() && aOff == old(aOff) && list.Flat() == old(list.Flat())
      ensures old(it) < |list.buffers| ==> it == old(it) && rOff == old(rOff)
      ensures old(it) == |list.buffers| && it < |list.buffers| ==> rOff < list.buffers[it].len
    {
      Within();
      hide Concat, Fold, List.Valid, List.Shape, List.Parts, List.Flat;
      if it == |list.buffers| {
        var ok := Seek(aOff);
      }
    }

    // The window on the next k bytes of the current node.
    lemma Piece(k: nat)
      requires Good() && it < |list.buffers| && rOff + k <= list.buffers[it].len
      ensures var p := Ptr(list.buffers[it].raw, list.buffers[it].off + rOff, k);
        && p.Ok() && aOff + k <= |list.Flat()| && p.Bytes() == list.Flat()[aOff..aOff + k]
      ensures var node := list.buffers[it];
        node.Ok() && node.Bytes()[rOff..rOff + k] == list.Flat()[aOff..aOff + k]
    {
      hide Concat, Fold, Raw.Coherent;
      SubWindow(list.buffers[it], rOff, k);
      NodeSlice(list.Parts(), it, rOff, k);
    }

    // How much of the wanted bytes the current node has.
    function Share(want: nat): (k: nat)
      requires Good() && it < |list.buffers|
      reads this, list, RawsOf(list.buffers)
      ensures rOff + k <= list.buffers[it].len && k <= want
      ensures k < want ==> rOff + k == list.buffers[it].len
    {
      var k := list.buffers[it].len - rOff;
      if want < k then want else k
    }

    // Where a good cursor can be.
    lemma Where()
      requires Good()
      ensures list.Valid() && list.len == |list.Flat()| && aOff <= list.len && it <= |list.buffers|
      ensures it == |list.buffers| ==> aOff == list.len
    {
      Within();
      EndOfAll(list.Parts());
    }

    // One round of copy: the bytes of the current node, as many as are wanted.
    method Next(want: nat) returns (k: nat, bytes: seq<byte>)
      requires Good() && it < |list.buffers|
      modifies this
      ensures Good() && list.Flat() == old(list.Flat())
      ensures k <= want && aOff == old(aOff) + k <= |list.Flat()| && bytes == list.Flat()[old(aOff)..aOff]
      ensures it >= old(it) && (k < want ==> it > old(it))
      ensures forall b: List :: old(allocated(b)) && old(b.Valid()) ==> b.Valid() && b.Flat() == old(b.Flat())
    {
      hide List.Valid, List.Flat, Iterator.Good, Iterator.Stranded;
      k, bytes := Peek(want);
      Where();
      var ok := Advance(k);
      forall b: List | old(allocated(b)) && old(b.Valid())
        ensures b.Valid() && b.Flat() == old(b.Flat())
      {
        ListKept(b);
      }
    }

    method Peek(want: nat) returns (k: nat, bytes: seq<byte>)
      requires Good() && it < |list.buffers|
      ensures Good() && list.Flat() == old(list.Flat())
      ensures k <= want && aOff + k <= |list.Flat()| && bytes == list.Flat()[aOff..aOff + k]
      ensures k < want ==> rOff + k >= list.buffers[it].len
    {
      k := Share(want);
      Piece(k);
      var node := list.buffers[it];
      bytes := node.raw.data[node.off + rOff..node.off + rOff + k];
    }

    // copy(len, char*) and copy(len, string): the bytes from here on.  When the
    // list ends first, the exception leaves what there was.
    method Copy(n: nat) returns (ok: bool, dest: seq<byte>)
      requires Usable()
      modifies this
      ensures Good() && list.Flat() == old(list.Flat())
      ensures ok <==> old(aOff) + n <= |list.Flat()|
      ensures old(aOff) <= aOff == (if ok then old(aOff) + n else |list.Flat()|)
      ensures dest == list.Flat()[old(aOff)..aOff]
      ensures forall b: List :: old(allocated(b)) && old(b.Valid()) ==> b.Valid() && b.Flat() == old(b.Flat())
    {
      Resume();
      Where();
      hide Concat, Fold, List.Valid, List.Flat, Iterator.Good, Iterator.Stranded;
      ghost var flat, a := list.Flat(), aOff;
      var left: nat := n;
      dest := [];
      forall b: List | old(allocated(b)) && old(b.Valid())
        ensures b.Valid() && b.Flat() == old(b.Flat())
      {
        ListKept(b);
      }
      while left > 0
        invariant left <= n && Good() && list.Valid() && list.Flat() == flat && list.buffers == old(list.buffers)
        invariant aOff == a + n - left <= |flat| && dest == flat[a..aOff]
        invariant forall b: List :: old(allocated(b)) && old(b.Valid()) ==> b.Valid() && b.Flat() == old(b.Flat())
        decreases left, |list.buffers| - it
      {
        Where();
        if it == |list.buffers| {
          return false, dest;
        }
        ghost var b := aOff;
        var k, bytes := Next(left);
        Where();
        SliceGrows(flat, a, b, aOff);
        assert bytes == flat[b..aOff];
        dest := dest + bytes;
        left := left - k;
      }
      ok := true;
    }

    // copy(len, list): windows on the bytes from here on join another list.
    method CopyList(n: nat, dest: List) returns (ok: bool)
      requires Usable() && dest.Valid() && dest != list
      modifies this, dest
      ensures Good() && list.Flat() == old(list.Flat()) && dest.Valid()
      ensures ok <==> old(aOff) + n <= |list.Flat()|
      ensures old(aOff) <= aOff == (if ok then old(aOff) + n else |list.Flat()|)
      ensures dest.Flat() == old(dest.Flat()) + list.Flat()[old(aOff)..aOff]
      ensures forall b: List :: old(allocated(b)) && b != dest && old(b.Valid()) ==>
        b.Valid() && b.Flat() == old(b.Flat())
    {
      hide Concat, Fold, List.Valid, List.Flat, Iterator.Good, Iterator.Stranded;
      ghost var had := dest.Flat();
      Resume();
      forall b: List | old(allocated(b)) && old(b.Valid())
        ensures b.Valid() && b.Flat() == old(b.Flat())
      {
        ListKept(b);
      }
      Where();
      ghost var flat, a := list.Flat(), aOff;
      var left: nat := n;
      assert had + flat[a..a] == had;
      while left > 0
        invariant left <= n && Good() && list.Valid() && list.Flat() == flat && list.buffers == old(list.buffers)
        invariant aOff == a + n - left <= |flat| && dest.Valid() && dest.Flat() == had + flat[a..aOff]
        invariant forall b: List :: old(allocated(b)) && b != dest && old(b.Valid()) ==>
          b.Valid() && b.Flat() == old(b.Flat())
        decreases left, |list.buffers| - it
      {
        Where();
        if it == |list.buffers| {
          return false;
        }
        var k := NextWindow(left, dest);
        Where();
        SliceGrows(flat, a, aOff - k, aOff);
        Assoc(had, flat[a..aOff - k], flat[aOff - k..aOff]);
        left := left - k;
      }
      ok := true;
    }

    // One round of it.
    method NextWindow(want: nat, dest: List) returns (k: nat)
      requires Good() && it < |list.buffers| && dest.Valid() && dest != list
      modifies this, dest
      ensures Good() && list.Flat() == old(list.Flat()) && dest.Valid()
      ensures k <= want && aOff == old(aOff) + k <= |list.Flat()|
      ensures dest.Flat() == old(dest.Flat()) + list.Flat()[old(aOff)..aOff]
      ensures it >= old(it) && (k < want ==> it > old(it)) && list.buffers == old(list.buffers)
      ensures old(it) < |list.buffers| &&
        var node := list.buffers[old(it)];
        dest.buffers == Joined(old(dest.buffers), Ptr(node.raw, node.off + old(rOff), k))
      ensures forall b: List :: old(allocated(b)) && b != dest && old(b.Valid()) ==>
        b.Valid() && b.Flat() == old(b.Flat())
    {
      hide Concat, Fold, List.Valid, List.Flat, List.Parts, Iterator.Stranded;
      k := Share(want);
      Piece(k);
      var node := list.buffers[it];
      label shared:
      dest.AppendSub(node, rOff, k);
      ListKept@shared(list);
      Where();
      label added:
      var ok := Advance(k);
      forall b: List | old(allocated(b)) && old@added(b.Valid())
        ensures b.Valid() && b.Flat() == old@added(b.Flat())
      {
        ListKept@added(b);
      }
    }

    // copy_all: every byte from here on is copied to the end of another list, to
    // places that no window showed before.
    method CopyAll(dest: List)
      requires Usable() && dest.Valid() && dest != list
      modifies this, dest, set r: Raw {:trigger r.slot} | allocated(r)
      ensures Good() && list.Flat() == old(list.Flat()) && dest.Valid()
      ensures old(aOff) <= aOff == |list.Flat()|
      ensures dest.Flat() == old(dest.Flat()) + list.Flat()[old(aOff)..]
      ensures CellsOf(old(dest.buffers)) <= CellsOf(dest.buffers)
      ensures forall p: Ptr, k :: old(allocated(p)) && old(p.Ok()) ==>
        |CellsOf(old(dest.buffers))| <= k < |CellsOf(dest.buffers)| ==> !Shows(p, CellsOf(dest.buffers)[k])
      ensures forall b: List :: old(allocated(b)) && b != dest && old(b.Valid()) ==>
        b.Valid() && b.Flat() == old(b.Flat())
    {
      hide Concat, Fold, List.Valid, List.Flat, Iterator.Good, Iterator.Stranded, CellsOf;
      ghost var had := dest.Flat();
      Resume();
      forall b: List | old(allocated(b)) && old(b.Valid())
        ensures b.Valid() && b.Flat() == old(b.Flat())
      {
        ListKept(b);
      }
      Where();
      ghost var flat, a := list.Flat(), aOff;
      assert had + flat[a..a] == had;
      while it < |list.buffers|
        invariant Good() && list.Valid() && list.Flat() == flat && list.buffers == old(list.buffers)
        invariant a <= aOff <= |flat| && dest.Valid() && dest.Flat() == had + flat[a..aOff]
        invariant forall b: List :: old(allocated(b)) && b != dest && old(b.Valid()) ==>
          b.Valid() && b.Flat() == old(b.Flat())
        invariant forall p: Ptr :: old(allocated(p)) && old(p.Ok()) ==> p.Ok()
        invariant CellsOf(old(dest.buffers)) <= CellsOf(dest.buffers)
        invariant forall p: Ptr, k :: old(allocated(p)) && old(p.Ok()) ==>
          |CellsOf(old(dest.buffers))| <= k < |CellsOf(dest.buffers)| ==> !Shows(p, CellsOf(dest.buffers)[k])
        decreases |list.buffers| - it
      {
        ghost var b := aOff;
        NextCopied(dest);
        Where();
        SliceGrows(flat, a, b, aOff);
        Assoc(had, flat[a..b], flat[b..aOff]);
      }
      Where();
    }

    // One round of it.
    method NextCopied(dest: List)
      requires Good() && it < |list.buffers| && dest.Valid() && dest != list
      modifies this, dest, dest.TailRaw()
      ensures Good() && list.Flat() == old(list.Flat()) && dest.Valid() && list.buffers == old(list.buffers)
      ensures old(aOff) <= aOff <= |list.Flat()|
      ensures dest.Flat() == old(dest.Flat()) + list.Flat()[old(aOff)..aOff]
      ensures it > old(it)
      ensures forall p: Ptr :: old(allocated(p)) && old(p.Ok()) ==> p.Ok()
      ensures CellsOf(old(dest.buffers)) <= CellsOf(dest.buffers)
      ensures forall p: Ptr, k :: old(allocated(p)) && old(p.Ok()) ==>
        |CellsOf(old(dest.buffers))| <= k < |CellsOf(dest.buffers)| ==> !Shows(p, CellsOf(dest.buffers)[k])
      ensures forall b: List :: old(allocated(b)) && b != dest && old(b.Valid()) ==>
        b.Valid() && b.Flat() == old(b.Flat())
    {
      hide Concat, Fold, List.Valid, List.Flat, List.Parts, Iterator.Stranded, List.TailRaw, List.Gap, CellsOf;
      var k := list.buffers[it].len - rOff;
      var k', bytes := Peek(k);
      forall b: List | old(allocated(b)) && old(b.Valid())
        ensures b.Valid() && b.Flat() == old(b.Flat())
      {
        ListKept(b);
      }
      label peeked:
      dest.AppendData(bytes);
      StillGood@peeked();
      Where();
      label added:
      var ok := Advance(k);
      forall b: List | old(allocated(b)) && old@added(b.Valid())
        ensures b.Valid() && b.Flat() == old@added(b.Flat())
      {
        ListKept@added(b);
      }
    }

    // A cursor stays good when its list keeps its nodes and every window its bytes.
    twostate lemma StillGood()
      requires old(Good()) && unchanged(this) && unchanged(list) && list.Valid()
      requires forall p: Ptr :: old(allocated(p)) && old(p.Ok()) ==> p.Ok() && p.Bytes() == old(p.Bytes())
      ensures Good() && list.Parts() == old(list.Parts()) && list.Flat() == old(list.Flat())
    {
      hide Concat, Fold;
      assert Chunks(list.buffers) == old(Chunks(list.buffers));
    }

    // copy_deep: a new raw with the next n bytes.  Unlike copy, there is no way
    // back from the sentinel.  When there are fewer, the new raw has those.
    method CopyDeep(n: nat) returns (ok: bool, dest: Option<Ptr>)
      requires Usable()
      modifies this
      ensures Usable() && list.Flat() == old(list.Flat())
      ensures ok <==> n == 0 || (old(it) < |list.buffers| && old(aOff) + n <= |list.Flat()|)
      ensures dest == None <==> n == 0 || old(it) == |list.buffers|
      ensures dest == None ==> aOff == old(aOff)
      ensures dest.Some? ==>
        && Good() && old(aOff) <= aOff == (if ok then old(aOff) + n else |list.Flat()|)
        && fresh(dest.value.raw) && dest.value.Ok() && dest.value.len == n
        && list.Flat()[old(aOff)..aOff] <= dest.value.Bytes()
      ensures forall b: List :: old(allocated(b)) && old(b.Valid()) ==> b.Valid() && b.Flat() == old(b.Flat())
    {
      dest, ok := None, true;
      if n == 0 {
        return;
      }
      Within();
      if it == |list.buffers| {
        return false, None;
      }
      hide Concat, Fold, List.Valid, List.Flat, Iterator.Good, Iterator.Stranded;
      var bytes;
      ok, bytes := Copy(n);
      var unset := seq(n - |bytes|, _ => 0);
      label copied:
      var p := NewPtr(bytes + unset);
      forall b: List | old(allocated(b)) && old@copied(b.Valid())
        ensures b.Valid() && b.Flat() == old@copied(b.Flat())
      {
        ListKept@copied(b);
      }
      StillGood@copied();
      dest := Some(p);
    }

    // copy_shallow: a window when the node has enough, else a copy.
    method CopyShallow(n: nat) returns (ok: bool, dest: Option<Ptr>)
      requires Usable()
      modifies this
      ensures Usable() && list.Flat() == old(list.Flat())
      ensures ok <==> n == 0 || (old(it) < |list.buffers| && old(aOff) + n <= |list.Flat()|)
      ensures dest == None <==> n == 0 || old(it) == |list.buffers|
      ensures dest == None ==> aOff == old(aOff)
      ensures dest.Some? ==>
        && Good() && old(aOff) <= aOff == (if ok then old(aOff) + n else |list.Flat()|)
        && dest.value.Ok() && dest.value.len == n && list.Flat()[old(aOff)..aOff] <= dest.value.Bytes()
      ensures dest.Some? ==>
        var node := list.buffers[old(it)];
        if old(rOff) + n <= node.len then dest.value == Ptr(node.raw, node.off + old(rOff), n)
        else fresh(dest.value.raw)
      ensures forall b: List :: old(allocated(b)) && old(b.Valid()) ==> b.Valid() && b.Flat() == old(b.Flat())
    {
      dest, ok := None, true;
      if n == 0 {
        return;
      }
      Within();
      if it == |list.buffers| {
        return false, None;
      }
      if list.buffers[it].len - rOff < n {
        ok, dest := CopyDeep(n);
      } else {
        var p := TakeWindow(n);
        dest := Some(p);
      }
    }

    // A window on the next n bytes of the current node.
    method TakeWindow(n: nat) returns (p: Ptr)
      requires Good() && it < |list.buffers| && rOff + n <= list.buffers[it].len
      modifies this
      ensures Good() && list.Flat() == old(list.Flat()) && list.buffers == old(list.buffers)
      ensures p == Ptr(list.buffers[old(it)].raw, list.buffers[old(it)].off + old(rOff), n)
      ensures aOff == old(aOff) + n <= |list.Flat()| && p.Ok() && p.Bytes() == list.Flat()[old(aOff)..aOff]
      ensures forall b: List :: old(allocated(b)) && old(b.Valid()) ==> b.Valid() && b.Flat() == old(b.Flat())
    {
      Piece(n);
      Where();
      hide Concat, Fold, List.Valid, List.Flat, Iterator.Good, Iterator.Stranded;
      p := Ptr(list.buffers[it].raw, list.buffers[it].off + rOff, n);
      var done := Advance(n);
      forall b: List | old(allocated(b)) && old(b.Valid())
        ensures b.Valid() && b.Flat() == old(b.Flat())
      {
        ListKept(b);
      }
    }

    // get_ptr_and_advance: the rest of the current node, or as much of it as is
    // wanted, which is nothing for an empty node.
    method GetPtrAndAdvance(want: nat) returns (p: Option<Ptr>, n: nat)
      requires Usable()
      modifies this
      ensures Good() && list.Flat() == old(list.Flat())
      ensures n <= want && aOff == old(aOff) + n <= |list.Flat()|
      ensures p.None? ==> n == 0 && aOff == |list.Flat()|
      ensures p.Some? ==> p.value.Ok() && p.value.len == n && p.value.Bytes() == list.Flat()[old(aOff)..aOff]
      ensures p.Some? ==> exists k :: 0 <= k < |list.buffers| && n <= list.buffers[k].len
      ensures old(it) < |list.buffers| ==> it >= old(it) && (n < want ==> it > old(it))
      ensures old(it) < |list.buffers| ==>
        var node := list.buffers[old(it)];
        && n == (if want < node.len - old(rOff) then want else node.len - old(rOff))
        && p == Some(Ptr(node.raw, node.off + old(rOff), n))
      ensures p.Some? ==> p.value.raw in RawsOf(list.buffers)
      ensures want > 0 && old(it) >= |list.buffers| && old(aOff) < |list.Flat()| ==> n > 0
    {
      Resume();
      Where();
      hide Concat, Fold, Raw.Coherent, List.Shape, List.Flat, List.Parts;
      if it == |list.buffers| {
        return None, 0;
      }
      n := Share(want);
      Piece(n);
      p := Some(Ptr(list.buffers[it].raw, list.buffers[it].off + rOff, n));
      label before:
      Pass(n);
    }

    // m_r_off and m_a_off go on inside the node, or to the start of the next.
    method Pass(n: nat)
      requires Good() && it < |list.buffers| && rOff + n <= list.buffers[it].len
      modifies this
      ensures Good() && list.Flat() == old(list.Flat()) && aOff == old(aOff) + n
      ensures it == if old(rOff) + n == list.buffers[old(it)].len then old(it) + 1 else old(it)
    {
      hide Concat, Fold, List.Valid, List.Shape, List.Parts, List.Flat;
      NodeLength(list, it);
      NextStart(list.Parts(), it);
      rOff := rOff + n;
      if rOff == list.buffers[it].len {
        it, rOff := it + 1, 0;
      }
      aOff := aOff + n;
      ListKept(list);
    }

    // crc32c: of the bytes from here on, at most length of them.
    method Crc32c(impl: Impl, length: nat, crcIn: word) returns (crc: word)
      requires Usable() && forall k :: 0 <= k < |list.buffers| ==> list.buffers[k].len < UINT_LIMIT
      modifies this
      ensures Usable() && list.Flat() == old(list.Flat())
      ensures old(aOff) <= aOff == if old(aOff) + length < |list.Flat()| then old(aOff) + length else |list.Flat()|
      ensures crc == Fold(crcIn, list.Flat()[old(aOff)..aOff])
    {
      Within();
      hide Concat, Fold, List.Valid, List.Flat, Iterator.Good, Iterator.Stranded;
      ghost var flat, a := list.Flat(), aOff;
      list.FlatIsParts();
      var left: nat := if length < list.len - aOff then length else list.len - aOff;
      crc := crcIn;
      FoldEmpty(crcIn);
      assert flat[a..a] == [];
      while left > 0
        invariant Usable() && list.Flat() == flat && list.buffers == old(list.buffers)
        invariant a <= aOff && aOff + left == a + (if length < |flat| - a then length else |flat| - a)
        invariant crc == Fold(crcIn, flat[a..aOff])
        decreases left, |list.buffers| - it
      {
        ghost var b := aOff;
        var n;
        crc, n := NextCrc(impl, left, crc);
        SliceGrows(flat, a, b, aOff);
        FoldSplit(crcIn, flat[a..b], flat[b..aOff]);
        left := left - n;
      }
    }

    // One round of it.
    method NextCrc(impl: Impl, want: nat, crcIn: word) returns (crc: word, n: nat)
      requires Usable() && aOff + want <= |list.Flat()| && want > 0
      requires forall k :: 0 <= k < |list.buffers| ==> list.buffers[k].len < UINT_LIMIT
      modifies this
      ensures Good() && list.Flat() == old(list.Flat()) && list.buffers == old(list.buffers)
      ensures n <= want && aOff == old(aOff) + n <= |list.Flat()|
      ensures old(it) < |list.buffers| ==> it >= old(it) && (n < want ==> it > old(it))
      ensures old(it) >= |list.buffers| ==> n > 0
      ensures crc == Fold(crcIn, list.Flat()[old(aOff)..aOff])
    {
      hide Concat, Fold, List.Valid, List.Flat, Iterator.Stranded;
      var p;
      p, n := GetPtrAndAdvance(want);
      assert p.Some?;
      label taken:
      crc := WindowCrc(impl, p.value, crcIn);
      ListKept@taken(list);
      StillGood@taken();
    }

    static method WindowCrc(impl: Impl, p: Ptr, crcIn: word) returns (crc: word)
      requires p.Ok() && p.len < UINT_LIMIT
      ensures crc == Fold(crcIn, old(p.Bytes()))
    {
      hide Fold;
      var mem := p.raw.data[p.off..];
      assert mem[..p.len] == p.Bytes();
      crc := SpecCrc32c(impl, crcIn, At(p.Address(), mem), p.len);
    }

    // Without a reset, no checksum may be remembered under the list.
    ghost predicate Resettable(crcReset: bool)
      reads list, RawsOf(list.buffers)
    {
      crcReset || forall k :: 0 <= k < |list.buffers| ==> list.buffers[k].raw.slot.NoCrc?
    }

    // copy_in(len, char*): the bytes from here on are written, in order, also
    // where nodes share bytes.  When the list ends first, the exception leaves
    // what has been written.
    method CopyIn(src: seq<byte>, crcReset: bool) returns (ok: bool, ghost ws: seq<Cell>)
      requires Usable() && Resettable(crcReset)
      modifies this, RawsOf(list.buffers)`data, RawsOf(list.buffers)`slot
      ensures Good() && Resettable(crcReset)
      ensures ok <==> old(aOff) + |src| <= |old(list.Flat())|
      ensures old(aOff) <= aOff == if ok then old(aOff) + |src| else |old(list.Flat())|
      ensures ws == old(list.Cells())[old(aOff)..aOff]
      ensures forall r: Raw :: old(allocated(r)) ==> Stored(r, ws, src[..|ws|])
      ensures forall b: List :: old(allocated(b)) && old(b.Valid()) ==>
        b.Valid() && b.Flat() == WrittenFlat(ws, src[..|ws|], old(b.Cells()), old(b.Flat()))
      ensures forall p: Ptr :: old(allocated(p)) && old(p.Ok()) ==> p.Ok()
      ensures Alone(old(list.Cells()), old(aOff), |ws|) ==>
        list.Flat() == Patched(old(list.Flat()), old(aOff), src[..|ws|])
    {
      hide Concat, Fold, Raw.Coherent, Iterator.Good, Iterator.Stranded, Stored, CellsOf, Patched;
      Within();
      list.FlatIsParts();
      ghost var cells, flat := list.Cells(), list.Flat();
      ok, ws := CopyCells(src, crcReset);
      forall b: List | old(allocated(b)) && old(b.Valid())
        ensures b.Valid() && b.Flat() == WrittenFlat(ws, src[..|ws|], old(b.Cells()), old(b.Flat()))
      {
        b.RewrittenFlat(ws, src[..|ws|]);
      }
      if Alone(cells, old(aOff), |ws|) {
        WriteExactly(cells, old(aOff), |ws|, flat, src[..|ws|]);
      }
    }

    // Its loop.
    method CopyCells(src: seq<byte>, crcReset: bool) returns (ok: bool, ghost ws: seq<Cell>)
      requires Usable() && Resettable(crcReset)
      modifies this, RawsOf(list.buffers)`data, RawsOf(list.buffers)`slot
      ensures Good() && Resettable(crcReset)
      ensures ok <==> old(aOff) + |src| <= |old(list.Flat())|
      ensures old(aOff) <= aOff == if ok then old(aOff) + |src| else |old(list.Flat())|
      ensures |ws| <= |src| && ws == old(list.Cells())[old(aOff)..aOff]
      ensures forall r: Raw :: old(allocated(r)) ==> Stored(r, ws, src[..|ws|])
      ensures forall p: Ptr :: old(allocated(p)) && old(p.Ok()) ==> p.Ok()
    {
      hide Concat, Fold, List.Valid, List.Shape, List.Flat, CellsOf, WrittenByte;
      hide Iterator.Good, Iterator.Stranded, Iterator.Resettable;
      Resume();
      Where();
      ghost var cells, a := list.Cells(), aOff;
      ws := [];
      forall r: Raw | old(allocated(r))
        ensures Stored(r, ws, src[..|ws|])
      {
        NothingStored(r, ws, src[..|ws|]);
      }
      var done: nat := 0;
      while done < |src|
        invariant done == |ws| <= |src| && Good() && Resettable(crcReset) && list.len == |cells|
        invariant aOff == a + |ws| <= |cells| && ws == cells[a..aOff]
        invariant forall p: Ptr :: old(allocated(p)) && old(p.Ok()) ==> p.Ok()
        invariant forall r: Raw :: old(allocated(r)) ==> Stored(r, ws, src[..|ws|])
        decreases |src| - done, |list.buffers| - it
      {
        Where();
        if it == |list.buffers| {
          return false, ws;
        }
        forall r: Raw | old(allocated(r))
          ensures |r.data| == |old(r.data)|
          ensures forall k :: 0 <= k < |r.data| ==>
            r.data[k] == WrittenByte(ws, src[..|ws|], Cell(r, k), old(r.data)[k])
        {
          assert Stored(r, ws, src[..|ws|]);
        }
        label mid:
        var k, more := NextWritten(src[done..], crcReset);
        ghost var first, next := src[..done], src[done..][..k];
        JoinedSlices(src, done, k);
        assert next == src[done..done + k];
        forall r: Raw | old(allocated(r))
          ensures Stored(r, ws + more, first + next)
        {
          assert old@mid(allocated(r)) && Stored@mid(r, more, next);
          WrittenTwice(r, old(r.data), old@mid(r.data), r.data, ws, first, more, next);
        }
        ws, done := ws + more, done + k;
        assert first + next == src[..done];
        Where();
      }
      ok := true;
    }

    // One round of it.
    method NextWritten(src: seq<byte>, crcReset: bool) returns (k: nat, ghost ws: seq<Cell>)
      requires Good() && Resettable(crcReset) && it < |list.buffers|
      modifies this, RawsOf(list.buffers)`data, RawsOf(list.buffers)`slot
      ensures Good() && Resettable(crcReset) && k == |ws| <= |src|
      ensures aOff == old(aOff) + k <= |CellsOf(list.buffers)| && ws == CellsOf(list.buffers)[old(aOff)..aOff]
      ensures it >= old(it) && (k < |src| ==> it > old(it))
      ensures forall r: Raw :: old(allocated(r)) ==> Stored(r, ws, src[..k])
      ensures forall p: Ptr :: old(allocated(p)) && old(p.Ok()) ==> p.Ok()
    {
      hide Concat, Fold, List.Valid, List.Flat, Iterator.Stranded, CellsOf, WrittenByte;
      k := Share(|src|);
      ws := Overwrite(src[..k], crcReset);
      Where();
      assert |list.Cells()| == list.len;
      label written:
      var ok := Advance(k);
    }

    // ptr::copy_in at the cursor.
    method Overwrite(bytes: seq<byte>, crcReset: bool) returns (ghost ws: seq<Cell>)
      requires Good() && Resettable(crcReset) && it < |list.buffers| && rOff + |bytes| <= list.buffers[it].len
      modifies {list.buffers[it].raw}`data, {list.buffers[it].raw}`slot
      ensures Good() && Resettable(crcReset) && |ws| == |bytes|
      ensures aOff + |ws| <= |CellsOf(list.buffers)| && ws == CellsOf(list.buffers)[aOff..aOff + |ws|]
      ensures forall r: Raw :: old(allocated(r)) ==> Stored(r, ws, bytes)
      ensures forall p: Ptr :: old(allocated(p)) && old(p.Ok()) ==> p.Ok()
    {
      hide Concat, Fold, Raw.Coherent, CellsOf, WrittenByte, PlaceOf;
      PlaceIsStart(list.buffers, it);
      CellsMatch(list.buffers);
      NodeCells(list.buffers, it, rOff, |bytes|);
      ws := list.OverwriteNode(it, rOff, bytes, crcReset);
      PlaceIsStart(list.buffers, it);
      CellsMatch(list.buffers);
      assert list.tailCache >= 0 ==> Stored(list.buffers[list.tailCache].raw, ws, bytes);
    }

    // copy_in(len, list): the bytes of another list, at most n of them; it is no
    // error when there are fewer.
    method CopyInList(n: nat, other: List) returns (ok: bool, ghost ws: seq<Cell>, ghost src: seq<byte>)
      requires Usable() && list.Valid() && other.Valid() && Apart(list.Cells(), aOff, other.Cells())
      modifies this, RawsOf(list.buffers)`data, RawsOf(list.buffers)`slot
      ensures Good() && other.Valid() && other.Flat() == old(other.Flat())
      ensures var due := |First(n, other.Flat())|;
        && (ok <==> old(aOff) + due <= |old(list.Flat())|)
        && old(aOff) <= aOff == (if ok then old(aOff) + due else |old(list.Flat())|)
      ensures |src| == |ws| && src <= other.Flat() && ws == old(list.Cells())[old(aOff)..aOff]
      ensures forall r: Raw :: old(allocated(r)) ==> Stored(r, ws, src)
      ensures forall b: List :: old(allocated(b)) && old(b.Valid()) ==>
        b.Valid() && b.Flat() == WrittenFlat(ws, src, old(b.Cells()), old(b.Flat()))
      ensures Alone(old(list.Cells()), old(aOff), |ws|) ==> list.Flat() == Patched(old(list.Flat()), old(aOff), src)
    {
      hide Concat, Fold, Raw.Coherent, Iterator.Good, Iterator.Stranded, Stored, CellsOf, Patched, First, Apart;
      Within();
      list.FlatIsParts();
      ghost var cells, flat := list.Cells(), list.Flat();
      ok, ws, src := CopyParts(n, other);
      forall b: List | old(allocated(b)) && old(b.Valid())
        ensures b.Valid() && b.Flat() == WrittenFlat(ws, src, old(b.Cells()), old(b.Flat()))
      {
        b.RewrittenFlat(ws, src);
      }
      if Alone(cells, old(aOff), |ws|) {
        WriteExactly(cells, old(aOff), |ws|, flat, src);
      }
    }

    // Memory alone.
    method CopyParts(n: nat, other: List) returns (ok: bool, ghost ws: seq<Cell>, ghost put: seq<byte>)
      requires Usable() && list.Valid() && other.Valid() && Apart(list.Cells(), aOff, other.Cells())
      modifies this, RawsOf(list.buffers)`data, RawsOf(list.buffers)`slot
      ensures Good() && other.Valid() && other.Flat() == old(other.Flat())
      ensures var due := |First(n, other.Flat())|;
        && (ok <==> old(aOff) + due <= |old(list.Flat())|)
        && old(aOff) <= aOff == (if ok then old(aOff) + due else |old(list.Flat())|)
      ensures |put| == |ws| && put <= other.Flat() && ws == old(list.Cells())[old(aOff)..aOff]
      ensures forall r: Raw :: old(allocated(r)) ==> Stored(r, ws, put)
      ensures forall p: Ptr :: old(allocated(p)) && old(p.Ok()) ==> p.Ok()
    {
      hide Concat, Fold, List.Valid, List.Shape, List.Flat, CellsOf, Iterator.Good, Iterator.Stranded, WrittenByte;
      Resume();
      ListKept(other);
      Where();
      label resumed:
      ok, ws, put := CopyNodes(n, other);
      forall r: Raw | old(allocated(r))
        ensures Stored(r, ws, put)
      {
        assert Stored@resumed(r, ws, put);
      }
    }

    // Its loop.
    method CopyNodes(n: nat, other: List) returns (ok: bool, ghost ws: seq<Cell>, ghost put: seq<byte>)
      requires Good() && list.Valid() && other.Valid() && Apart(list.Cells(), aOff, other.Cells())
      modifies this, RawsOf(list.buffers)`data, RawsOf(list.buffers)`slot
      ensures Good() && other.Valid() && other.Flat() == old(other.Flat())
      ensures var due := |First(n, other.Flat())|;
        && (ok <==> old(aOff) + due <= |old(list.Flat())|)
        && old(aOff) <= aOff == (if ok then old(aOff) + due else |old(list.Flat())|)
      ensures |put| == |ws| && put <= other.Flat() && ws == old(list.Cells())[old(aOff)..aOff]
      ensures forall r: Raw :: old(allocated(r)) ==> Stored(r, ws, put)
      ensures forall p: Ptr :: old(allocated(p)) && old(p.Ok()) ==> p.Ok()
    {
      hide Concat, Fold, List.Valid, List.Shape, List.Flat, CellsOf, PlaceOf, WrittenByte, Apart;
      hide Iterator.Good, Iterator.Stranded;
      Where();
      ghost var cells, theirs, flat, a := list.Cells(), other.Cells(), other.Flat(), aOff;
      var left: nat, i: nat := n, 0;
      PlaceEnds(other.buffers);
      ws, put := [], [];
      forall r: Raw | old(allocated(r))
        ensures Stored(r, ws, put)
      {
        NothingStored(r, ws, put);
      }
      ok := true;
      while i < |other.buffers|
        invariant i <= |other.buffers| && left <= n && n - left == |ws| == PlaceOf(other.buffers, i) <= |flat|
        invariant Good() && list.len == |cells| && other.Valid() && other.Flat() == flat
        invariant aOff == a + |ws| <= |cells| && ws == cells[a..aOff] && Apart(cells, aOff, theirs)
        invariant forall p: Ptr :: old(allocated(p)) && old(p.Ok()) ==> p.Ok()
        invariant |put| == |ws| && put <= flat
        invariant forall r: Raw :: old(allocated(r)) ==> Stored(r, ws, put)
      {
        forall r: Raw | old(allocated(r))
          ensures |r.data| == |old(r.data)|
          ensures forall k :: 0 <= k < |r.data| ==> r.data[k] == WrittenByte(ws, put, Cell(r, k), old(r.data)[k])
        {
          assert Stored(r, ws, put);
        }
        label mid:
        var l;
        ghost var more, next;
        l, ok, more, next := CopyNode(other, i, left);
        forall r: Raw | old(allocated(r))
          ensures Stored(r, ws + more, put + next)
        {
          assert old@mid(allocated(r)) && Stored@mid(r, more, next);
          WrittenTwice(r, old(r.data), old@mid(r.data), r.data, ws, put, more, next);
        }
        ApartOn(cells, a + |ws|, aOff, theirs);
        JoinedSlices(flat, |ws|, |more|);
        assert put == flat[..|ws|];
        ws, put := ws + more, put + next;
        Where();
        PlaceNext(other.buffers, i);
        if !ok {
          return;
        }
        left, i := left - l, i + 1;
        if left == 0 {
          return;
        }
      }
    }

    // One round of it: node i of the other list.
    method CopyNode(other: List, i: nat, left: nat)
      returns (l: nat, fits: bool, ghost ws: seq<Cell>, ghost src: seq<byte>)
      requires Good() && other.Valid() && Apart(list.Cells(), aOff, other.Cells()) && i < |other.buffers|
      modifies this, RawsOf(list.buffers)`data, RawsOf(list.buffers)`slot
      ensures Good() && other.Valid() && other.Flat() == old(other.Flat())
      ensures l == if left < other.buffers[i].len then left else other.buffers[i].len
      ensures fits <==> old(aOff) + l <= |CellsOf(list.buffers)|
      ensures old(aOff) <= aOff == if fits then old(aOff) + l else |CellsOf(list.buffers)|
      ensures |src| == |ws| <= l && ws == CellsOf(list.buffers)[old(aOff)..aOff]
      ensures var s := PlaceOf(other.buffers, i); s + |ws| <= |other.Flat()| && src == other.Flat()[s..s + |ws|]
      ensures forall r: Raw :: old(allocated(r)) ==> Stored(r, ws, src)
      ensures forall p: Ptr :: old(allocated(p)) && old(p.Ok()) ==> p.Ok()
    {
      hide Concat, Fold, List.Valid, List.Shape, List.Flat, CellsOf, PlaceOf, Iterator.Good, Iterator.Stranded;
      hide WrittenByte, Stored, Apart, Iterator.NodeBytes;
      Where();
      l := other.buffers[i].len;
      if left < l {
        l := left;
      }
      ghost var cells, theirs, flat, a := list.Cells(), other.Cells(), other.Flat(), aOff;
      NodePlace(other, i, l);
      fits, ws := CopyIn(NodeBytes(other, i, l), true);
      src := old(NodeBytes(other, i, l))[..|ws|];
      ApartOn(cells, a, aOff, theirs);
      WriteElsewhere(ws, src, theirs, flat);
    }

    static function NodeBytes(other: List, i: nat, l: nat): seq<byte>
      requires other.Valid() && i < |other.buffers| && l <= other.buffers[i].len
      reads other, RawsOf(other.buffers)
    {
      var p := other.buffers[i];
      p.raw.data[p.off..p.off + l]
    }

    static lemma NodePlace(other: List, i: nat, l: nat)
      requires other.Valid() && i < |other.buffers| && l <= other.buffers[i].len
      ensures var s := PlaceOf(other.buffers, i);
        s + l <= |other.Flat()| && NodeBytes(other, i, l) == other.Flat()[s..s + l]
    {
      hide Concat, Fold, Raw.Coherent;
      other.NodePart(i, 0, l);
      assert NodeBytes(other, i, l) == other.buffers[i].Bytes()[0..l];
    }
  }

  // No place from position a on shares its byte with the other places.
  ghost predicate Apart(cells: seq<Cell>, a: nat, others: seq<Cell>) {
    forall j, k :: a <= j < |cells| && 0 <= k < |others| ==> cells[j] != others[k]
  }

  lemma ApartOn(cells: seq<Cell>, a: nat, b: nat, others: seq<Cell>)
    requires a <= b <= |cells| && Apart(cells, a, others)
    ensures Apart(cells, b, others)
    ensures forall k :: 0 <= k < |others| ==> others[k] !in cells[a..b]
  {
  }

  // At most n of the bytes.
  function First(n: nat, bytes: seq<byte>): (b: seq<byte>)
    ensures b <= bytes && |b| == if n < |bytes| then n else |bytes|
  {
    if n < |bytes| then bytes[..n] else bytes
  }

  lemma JoinedSlices(flat: seq<byte>, a: nat, n: nat)
    requires a + n <= |flat|
    ensures flat[..a] + flat[a..a + n] == flat[..a + n]
  {
  }

  lemma SliceGrows(flat: seq<byte>, a: nat, b: nat, c: nat)
    requires a <= b <= c <= |flat|
    ensures flat[a..b] + flat[b..c] == flat[a..c]
  {
  }

  lemma StartOfNone(list: List)
    requires list.Valid()
    ensures StartOf(list.Parts(), 0) == 0
  {
    assert list.Parts()[..0] == [];
  }

  lemma NodeLength(list: List, i: nat)
    requires list.Valid() && i < |list.buffers|
    ensures i < |list.Parts()| && |list.Parts()[i]| == list.buffers[i].len
  {
  }

  lemma NextStart(c: seq<seq<byte>>, i: nat)
    requires i < |c|
    ensures StartOf(c, i + 1) == StartOf(c, i) + |c[i]| <= |Concat(c)|
  {
    hide Concat;
    ConcatAt(c, i);
  }

  lemma EndOfAll(c: seq<seq<byte>>)
    ensures StartOf(c, |c|) == |Concat(c)|
  {
    assert c[..|c|] == c;
  }
}
