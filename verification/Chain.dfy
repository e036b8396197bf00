// buffers_t: the circular singly linked list under a buffer list.  The chain
// runs from the root hook through the nodes and back to the root; tail is the
// last node, or the root when there is none.
module Chain {
  import opened Options
  import opened BufferRaw

  ghost predicate Distinct<T>(s: seq<T>) {
    forall i, j :: 0 <= i < j < |s| ==> s[i] != s[j]
  }

  lemma DistinctAt<T>(s: seq<T>, i: nat)
    requires Distinct(s) && i < |s|
    ensures forall k :: 0 <= k < |s| && k != i ==> s[k] != s[i]
  {
  }

  lemma DistinctEmpty<T>()
    ensures Distinct<T>([])
  {
  }

  lemma DistinctInsert<T>(s: seq<T>, i: nat, x: T)
    requires Distinct(s) && i <= |s| && x !in s
    ensures Distinct(s[..i] + [x] + s[i..])
  {
    var t := s[..i] + [x] + s[i..];
    forall j, k | 0 <= j < k < |t|
      ensures t[j] != t[k]
    {
      assert t[j] == if j < i then s[j] else if j == i then x else s[j - 1];
      assert t[k] == if k < i then s[k] else if k == i then x else s[k - 1];
    }
  }

  lemma DistinctErase<T>(s: seq<T>, i: nat)
    requires Distinct(s) && i < |s|
    ensures Distinct(s[..i] + s[i + 1..])
  {
  }

  lemma DistinctJoin<T>(a: seq<T>, b: seq<T>)
    requires Distinct(a) && Distinct(b)
    requires forall i, j :: 0 <= i < |a| && 0 <= j < |b| ==> a[i] != b[j]
    ensures Distinct(a + b)
  {
  }

  // A hook, and the window of the ptr_node that it is part of; the root hook is
  // part of none.
  class Hook {
    var next: Hook?
    var window: Option<Ptr>

    constructor (window: Option<Ptr>)
      ensures next == null && this.window == window
    {
      next, this.window := null, window;
    }
  }

  class Buffers {
    const root: Hook
    var tail: Hook
    ghost var nodes: seq<Hook>

    // The hook at position i: the root, the nodes in order, and the root again.
    ghost function At(i: nat): Hook
      requires i <= |nodes| + 1
      reads this
    {
      if i == 0 || i == |nodes| + 1 then root else nodes[i - 1]
    }

    ghost predicate Valid()
      reads this, root, nodes
    {
      && root !in nodes
      && Distinct(nodes)
      && (forall i :: 0 <= i < |nodes| ==> nodes[i].window.Some?)
      && root.next == (if nodes == [] then root else nodes[0])
      && tail == (if nodes == [] then root else nodes[|nodes| - 1])
      && forall i {:trigger nodes[i].next} :: 0 <= i < |nodes| ==>
        nodes[i].next == if i + 1 < |nodes| then nodes[i + 1] else root
    }

    // The windows of the nodes, in order.
    ghost function Windows(): (w: seq<Ptr>)
      requires Valid()
      reads this, root, nodes
      ensures |w| == |nodes| && forall i :: 0 <= i < |w| ==> Some(w[i]) == nodes[i].window
    {
      seq(|nodes|, i requires 0 <= i < |nodes| && Valid() reads this, root, nodes => nodes[i].window.value)
    }

    // Two chains share no hook.
    ghost predicate Apart(other: Buffers)
      reads this, other
    {
      && root != other.root && root !in other.nodes && other.root !in nodes
      && forall i, j :: 0 <= i < |nodes| && 0 <= j < |other.nodes| ==> nodes[i] != other.nodes[j]
    }

    // What following next k times from the root reaches.
    ghost function Walk(k: nat): Hook?
      requires Valid()
      reads this, root, nodes
      decreases k
    {
      if k == 0 then root
      else
        var h := Walk(k - 1);
        if h == root || h in nodes then h.next else null
    }

    // Following next visits every node once, in order, and comes back to the
    // root exactly after the last one.
    lemma {:induction false} WalkVisits(k: nat)
      requires Valid() && k <= |nodes| + 1
      ensures Walk(k) == At(k)
      ensures 0 < k <= |nodes| ==> Walk(k) != root
      decreases k
    {
      if k > 0 {
        WalkVisits(k - 1);
      }
    }

    // The nodes are determined by the links: two chains with the same root and
    // the same links have the same nodes.
    lemma {:induction false} WalkDetermines(other: Buffers, k: nat)
      requires Valid() && other.Valid() && root == other.root && k <= |nodes| && k <= |other.nodes|
      ensures nodes[..k] == other.nodes[..k]
      decreases k
    {
      if k > 0 {
        WalkDetermines(other, k - 1);
        assert nodes[..k] == nodes[..k - 1] + [nodes[k - 1]];
        assert other.nodes[..k] == other.nodes[..k - 1] + [other.nodes[k - 1]];
        if k > 1 {
          assert nodes[k - 2] == nodes[..k - 1][k - 2] == other.nodes[..k - 1][k - 2] == other.nodes[k - 2];
          assert nodes[k - 2].next == nodes[k - 1] && other.nodes[k - 2].next == other.nodes[k - 1];
        }
      }
    }

    constructor ()
      ensures Valid() && nodes == [] && fresh(root)
    {
      root := new Hook(None);
      tail := root;
      nodes := [];
      new;
      root.next := root;
    }

    // The move constructor.
    constructor Move(other: Buffers)
      requires other.Valid()
      modifies other, other.root`next, other.tail`next
      ensures Valid() && nodes == old(other.nodes) && fresh(root)
      ensures other.Valid() && other.nodes == []
    {
      var r := new Hook(None);
      root := r;
      tail := if other.tail == other.root then r else other.tail;
      nodes := other.nodes;
      new;
      root.next := if other.root.next == other.root then root else other.root.next;
      other.root.next := other.root;
      other.tail := other.root;
      tail.next := root;
      other.nodes := [];
    }

    method PushBack(item: Hook)
      requires Valid() && item != root && item !in nodes && item.window.Some?
      modifies this`tail, this`nodes, tail`next, item`next
      ensures Valid() && nodes == old(nodes) + [item]
    {
      hide Distinct;
      if nodes != [] {
        DistinctAt(nodes, |nodes| - 1);
      }
      DistinctInsert(nodes, |nodes|, item);
      assert nodes[..|nodes|] + [item] + nodes[|nodes|..] == nodes + [item];
      item.next := root;
      tail.next := item;
      tail := item;
      nodes := nodes + [item];
    }

    method PushFront(item: Hook)
      requires Valid() && item != root && item !in nodes && item.window.Some?
      modifies this`tail, this`nodes, root`next, item`next
      ensures Valid() && nodes == [item] + old(nodes)
    {
      hide Distinct;
      DistinctInsert(nodes, 0, item);
      assert nodes[..0] + [item] + nodes[0..] == [item] + nodes;
      item.next := root.next;
      root.next := item;
      tail := if tail == root then item else tail;
      nodes := [item] + nodes;
      assert forall i :: 1 <= i < |nodes| ==> nodes[i] == old(nodes)[i - 1];
    }

    method Empty() returns (empty: bool)
      requires Valid()
      ensures empty <==> nodes == []
    {
      empty := tail == root;
    }

    // erase_after: takes out the node after position i, and returns the hook
    // that follows it now.
    method EraseAfter(it: Hook, ghost i: nat) returns (next: Hook)
      requires Valid() && i < |nodes| && it == At(i)
      modifies this`tail, this`nodes, it`next, root`next
      ensures Valid() && nodes == old(nodes)[..i] + old(nodes)[i + 1..]
      ensures next == At(i + 1)
    {
      hide Distinct;
      DistinctAt(nodes, i);
      if i > 0 {
        DistinctAt(nodes, i - 1);
      }
      DistinctErase(nodes, i);
      var toErase := it.next;
      assert toErase == nodes[i];
      var after := toErase.next;
      it.next := after;
      root.next := if root.next == toErase then after else root.next;
      tail := if tail == toErase then it else tail;
      nodes := nodes[..i] + nodes[i + 1..];
      forall k | 0 <= k < |nodes|
        ensures nodes[k] != root && nodes[k].next == if k + 1 < |nodes| then nodes[k + 1] else root
      {
        assert nodes[k] == old(nodes)[if k < i then k else k + 1];
      }
      next := it.next;
    }

    // insert_after: puts item after position i.
    method InsertAfter(it: Hook, item: Hook, ghost i: nat)
      requires Valid() && i <= |nodes| && it == At(i) && item != root && item !in nodes && item.window.Some?
      modifies this`tail, this`nodes, it`next, item`next, root`next
      ensures Valid() && nodes == old(nodes)[..i] + [item] + old(nodes)[i..]
    {
      hide Distinct;
      if i > 0 {
        DistinctAt(nodes, i - 1);
      }
      if nodes != [] {
        DistinctAt(nodes, |nodes| - 1);
      }
      DistinctInsert(nodes, i, item);
      item.next := it.next;
      it.next := item;
      root.next := if it == root then item else root.next;
      tail := if tail == it then item else tail;
      nodes := nodes[..i] + [item] + nodes[i..];
      forall k | 0 <= k < |nodes|
        ensures nodes[k] != root && nodes[k].next == if k + 1 < |nodes| then nodes[k + 1] else root
      {
        if k != i {
          assert nodes[k] == old(nodes)[if k < i then k else k - 1];
        }
      }
    }

    // splice_back: the nodes of another chain are relinked after this one's.
    method SpliceBack(other: Buffers)
      requires Valid() && other.Valid() && Apart(other) && other != this
      modifies this, other, tail`next, other.tail`next, other.root`next
      ensures Valid() && nodes == old(nodes) + old(other.nodes)
      ensures other.Valid() && other.nodes == []
    {
      hide Distinct;
      if other.tail == other.root {
        return;
      }
      if nodes != [] {
        DistinctAt(nodes, |nodes| - 1);
      }
      DistinctAt(other.nodes, |other.nodes| - 1);
      DistinctJoin(nodes, other.nodes);
      DistinctEmpty<Hook>();
      ghost var n, joined := |nodes|, nodes + other.nodes;
      assert forall k :: 0 <= k < n ==> joined[k] == nodes[k];
      assert forall k :: n <= k < |joined| ==> joined[k] == other.nodes[k - n];
      other.tail.next := root;
      tail.next := other.root.next;
      tail := other.tail;
      other.root.next := other.root;
      other.tail := other.root;
      nodes := joined;
      other.nodes := [];
    }

    method Swap(other: Buffers)
      requires Valid() && other.Valid() && Apart(other) && other != this
      modifies this, other, root`next, other.root`next, tail`next, other.tail`next
      ensures Valid() && nodes == old(other.nodes)
      ensures other.Valid() && other.nodes == old(nodes)
    {
      hide Distinct;
      if nodes != [] {
        DistinctAt(nodes, |nodes| - 1);
      }
      if other.nodes != [] {
        DistinctAt(other.nodes, |other.nodes| - 1);
      }
      var copyRoot := root.next;
      root.next := if other.root.next == other.root then root else other.root.next;
      other.root.next := if copyRoot == root then other.root else copyRoot;
      var copyTail := tail;
      tail := if other.tail == other.root then root else other.tail;
      other.tail := if copyTail == root then other.root else copyTail;
      tail.next := root;
      other.tail.next := other.root;
      nodes, other.nodes := other.nodes, nodes;
    }

    // clear_and_dispose: visits every node once, in order, and forgets them.
    method ClearAndDispose() returns (ghost disposed: seq<Hook>)
      requires Valid()
      modifies this, root`next
      ensures Valid() && nodes == [] && disposed == old(nodes)
    {
      var it := root.next;
      disposed := [];
      while it != root
        invariant Valid() && nodes == old(nodes)
        invariant |disposed| <= |nodes| && disposed == nodes[..|disposed|]
        invariant it == At(|disposed| + 1)
        decreases |nodes| - |disposed|
      {
        disposed := disposed + [it];
        it := it.next;
      }
      root.next := root;
      tail := root;
      nodes := [];
    }

    // operator=(buffers_t&&) on another chain.
    method MoveAssign(other: Buffers) returns (ghost disposed: seq<Hook>)
      requires Valid() && other.Valid() && Apart(other) && other != this
      modifies this, other, root`next, other.root`next, tail`next, other.tail`next
      ensures Valid() && nodes == old(other.nodes)
      ensures other.Valid() && other.nodes == [] && disposed == old(nodes)
    {
      disposed := ClearAndDispose();
      Swap(other);
    }

    // clone_from: a new node for every node of the other chain, on the same window.
    method CloneFrom(other: Buffers) returns (ghost disposed: seq<Hook>)
      requires Valid() && other.Valid() && Apart(other) && other != this
      modifies this, root`next
      ensures Valid() && fresh(set i | 0 <= i < |nodes| :: nodes[i]) && Windows() == other.Windows()
      ensures other.Valid() && other.nodes == old(other.nodes) && disposed == old(nodes)
      ensures other.Windows() == old(other.Windows())
    {
      hide Distinct;
      disposed := ClearAndDispose();
      var it := other.root.next;
      ghost var k := 0;
      while it != other.root
        invariant Valid() && other.Valid() && other.nodes == old(other.nodes)
        invariant |nodes| == k <= |other.nodes| && it == other.At(k + 1)
        invariant forall i :: 0 <= i < |nodes| ==> fresh(nodes[i]) && nodes[i].window == other.nodes[i].window
        decreases |other.nodes| - k
      {
        var clone := new Hook(it.window);
        PushBack(clone);
        it := it.next;
        k := k + 1;
      }
      assert forall i :: 0 <= i < |nodes| ==> Windows()[i] == other.Windows()[i];
    }
  }
}
