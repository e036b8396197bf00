// A list on its chain: the windows of the nodes that the links lead through are the
// list's nodes, and every change of the nodes is made on both.
module ListOnChain {
  import opened Options
  import opened Crc
  import opened Rope
  import opened BufferRaw
  import opened BufferList
  import opened Chain

  ghost predicate Represents(chain: Buffers, list: List)
    reads chain, chain.root, chain.nodes, list, RawsOf(list.buffers)
  {
    chain.Valid() && list.Valid() && chain.Windows() == list.buffers
  }

  // A chain of which nothing is modified.
  twostate lemma ChainKept(chain: Buffers)
    requires old(chain.Valid()) && unchanged(chain) && unchanged(chain.root)
    requires forall h: Hook :: old(allocated(h)) ==> h.next == old(h.next) && h.window == old(h.window)
    ensures chain.Valid() && chain.Windows() == old(chain.Windows())
  {
    hide Distinct;
  }

  // Following the links from the root and reading each window gives the list's
  // bytes.
  method Collect(chain: Buffers, ghost list: List) returns (bytes: seq<byte>)
    requires Represents(chain, list)
    ensures Represents(chain, list) && bytes == list.Flat()
  {
    hide Concat, Fold, Raw.Coherent;
    ghost var c := list.Parts();
    list.FlatIsParts();
    ConcatEmpty<byte>();
    assert c[..0] == [] && c[..|c|] == c;
    var it := chain.root.next;
    bytes := [];
    ghost var k := 0;
    while it != chain.root
      invariant Represents(chain, list) && list.Parts() == c
      invariant k <= |chain.nodes| == |c| && it == chain.At(k + 1)
      invariant bytes == Concat(c[..k])
      decreases |chain.nodes| - k
    {
      var p := it.window.value;
      assert p == chain.Windows()[k] == list.buffers[k];
      ConcatAt(c, k);
      bytes := bytes + p.raw.data[p.off..p.off + p.len];
      it := it.next;
      k := k + 1;
    }
    ListKept(list);
    ChainKept(chain);
  }

  // push_back of a new node.
  method PushNode(chain: Buffers, list: List, p: Ptr)
    requires Represents(chain, list) && p.Ok()
    modifies chain, chain.tail`next, list
    ensures Represents(chain, list) && list.Flat() == old(list.Flat()) + old(p.Bytes())
  {
    hide List.Valid, List.Flat, Raw.Coherent, Distinct, Buffers.Valid;
    Hang(chain, p);
    ListKept(list);
    label linked:
    list.AddNode(p);
    ChainKept@linked(chain);
  }

  // The chain's half of it.
  method Hang(chain: Buffers, p: Ptr)
    requires chain.Valid()
    modifies chain, chain.tail`next
    ensures chain.Valid() && chain.Windows() == old(chain.Windows()) + [p]
  {
    hide Distinct;
    var node := new Hook(Some(p));
    chain.PushBack(node);
  }

  // insert_after and erase_after, as the cuts use them.
  method InsertNode(chain: Buffers, list: List, it: Hook, i: nat, p: Ptr)
    requires Represents(chain, list)
    requires i <= |chain.nodes| && it == chain.At(i) && list.tailCache == -1 && p.Ok()
    modifies chain, it`next, chain.root`next, list
    ensures Represents(chain, list)
    ensures list.buffers == old(list.buffers)[..i] + [p] + old(list.buffers)[i..]
  {
    hide List.Valid, List.Flat, Raw.Coherent, Distinct, Buffers.Valid;
    HangAt(chain, it, i, p);
    ListKept(list);
    label linked:
    list.InsertAt(i, p);
    ChainKept@linked(chain);
  }

  method HangAt(chain: Buffers, it: Hook, ghost i: nat, p: Ptr)
    requires chain.Valid() && i <= |chain.nodes| && it == chain.At(i)
    modifies chain, it`next, chain.root`next
    ensures chain.Valid() && chain.Windows() == old(chain.Windows())[..i] + [p] + old(chain.Windows())[i..]
  {
    hide Distinct;
    var node := new Hook(Some(p));
    chain.InsertAfter(it, node, i);
  }

  method EraseNode(chain: Buffers, list: List, it: Hook, i: nat)
    requires Represents(chain, list)
    requires i < |chain.nodes| && it == chain.At(i) && list.tailCache == -1
    modifies chain, it`next, chain.root`next, list
    ensures Represents(chain, list)
    ensures list.buffers == old(list.buffers)[..i] + old(list.buffers)[i + 1..]
  {
    hide List.Valid, List.Flat, Raw.Coherent, Distinct, Buffers.Valid;
    Unhang(chain, it, i);
    ListKept(list);
    label linked:
    list.EraseAt(i);
    ChainKept@linked(chain);
  }

  method Unhang(chain: Buffers, it: Hook, ghost i: nat)
    requires chain.Valid() && i < |chain.nodes| && it == chain.At(i)
    modifies chain, it`next, chain.root`next
    ensures chain.Valid() && chain.Windows() == old(chain.Windows())[..i] + old(chain.Windows())[i + 1..]
  {
    hide Distinct;
    var _ := chain.EraseAfter(it, i);
  }

  // The window without its first cut bytes.
  function Later(p: Ptr, cut: nat): Ptr
    requires cut <= p.len
  {
    Ptr(p.raw, p.off + cut, p.len - cut)
  }

  // set_offset and set_length on a node.
  method NarrowNode(chain: Buffers, list: List, node: Hook, i: nat, cut: nat)
    requires Represents(chain, list) && i < |list.buffers| && cut <= list.buffers[i].len
    requires i < |chain.nodes| && node == chain.nodes[i] && list.tailCache == -1
    modifies node`window, list
    ensures Represents(chain, list) && list.buffers == old(list.buffers)[i := Later(old(list.buffers)[i], cut)]
  {
    hide List.Valid, List.Flat, Raw.Coherent, Distinct, Buffers.Valid;
    var q := Later(list.buffers[i], cut);
    Reset(chain, node, i, q);
    ListKept(list);
    label linked:
    list.NarrowAt(i, cut);
    assert list.buffers == old(list.buffers)[i := q];
    ChainKept@linked(chain);
  }

  method Reset(chain: Buffers, node: Hook, ghost i: nat, p: Ptr)
    requires chain.Valid() && i < |chain.nodes| && node == chain.nodes[i]
    modifies node`window
    ensures chain.Valid() && chain.Windows() == old(chain.Windows())[i := p]
  {
    node.window := Some(p);
  }

  // clear
  method ClearBoth(chain: Buffers, list: List)
    requires Represents(chain, list)
    modifies chain, chain.root`next, list
    ensures Represents(chain, list) && list.Flat() == []
  {
    hide List.Valid, List.Flat, Raw.Coherent, Distinct, Buffers.Valid;
    ghost var _ := chain.ClearAndDispose();
    ListKept(list);
    label linked:
    list.Clear();
    ChainKept@linked(chain);
    assert chain.Windows() == [];
  }

  // claim_append: splice_back on the chains.
  method ClaimBoth(chain: Buffers, list: List, chain': Buffers, list': List)
    requires Represents(chain, list) && Represents(chain', list')
    requires chain.Apart(chain') && chain != chain' && list != list'
    modifies chain, chain', chain.tail`next, chain'.tail`next, chain'.root`next, list, list'
    ensures Represents(chain, list) && Represents(chain', list')
    ensures list.Flat() == old(list.Flat()) + old(list'.Flat()) && list'.Flat() == []
  {
    hide List.Valid, List.Flat, Raw.Coherent, Distinct, Buffers.Valid;
    Relink(chain, chain');
    ListKept(list);
    ListKept(list');
    label linked:
    list.ClaimAppend(list');
    ChainKept@linked(chain);
    ChainKept@linked(chain');
  }

  method Relink(chain: Buffers, chain': Buffers)
    requires chain.Valid() && chain'.Valid() && chain.Apart(chain') && chain != chain'
    modifies chain, chain', chain.tail`next, chain'.tail`next, chain'.root`next
    ensures chain.Valid() && chain.Windows() == old(chain.Windows()) + old(chain'.Windows())
    ensures chain'.Valid() && chain'.Windows() == []
  {
    hide Distinct;
    chain.SpliceBack(chain');
  }

  // operator=(const list&): clone_from on the chains.
  method CopyBoth(chain: Buffers, list: List, chain': Buffers, list': List)
    requires Represents(chain, list) && Represents(chain', list')
    requires chain.Apart(chain') && chain != chain' && list != list'
    modifies chain, chain.root`next, list
    ensures Represents(chain, list) && Represents(chain', list')
    ensures list.Flat() == list'.Flat() == old(list'.Flat())
  {
    hide List.Valid, List.Flat, Raw.Coherent, Distinct, Buffers.Valid;
    ghost var _ := chain.CloneFrom(chain');
    ListKept(list);
    ListKept(list');
    label linked:
    list.CopyFrom(list');
    ChainKept@linked(chain);
    ChainKept@linked(chain');
  }
}
