// deleter: an ownership graph with reference counts.  A deleter object is a slot
// that is empty, holds one plain object to free, or names a counted impl; an
// impl has an action of its own or holds another deleter, and a next deleter.
module Deleter {
  import opened Options
  import opened DeleterGraph
  import opened DeleterUnwind

  class Store {
    var slots: map<Slot, Target>
    var refs: map<Id, nat>
    var actions: map<Id, Option<Action>>
    var fired: seq<Action>
    var nextId: Id
    ghost var created: multiset<Action>
    ghost var rank: map<Id, real>

    // The graph is sound, counting as well the targets that are on their way
    // from one deleter object to another.
    ghost predicate Inv(moving: multiset<Target>)
      reads this
    {
      && refs.Keys == actions.Keys == rank.Keys
      && (forall i :: i in refs ==> i < nextId)
      && Shape(slots, refs.Keys, moving)
      && Counted(slots, refs, moving)
      && Conserved(slots, actions, moving, fired, created)
      && Falls(slots, rank)
    }

    constructor ()
      ensures Inv(multiset{}) && slots == map[] && refs == map[] && actions == map[]
      ensures fired == [] && created == multiset{}
    {
      slots, refs, actions, fired, nextId := map[], map[], map[], [], 0;
      created, rank := multiset{}, map[];
      new;
      assert forall t :: Naming(slots, t) == {};
      assert forall a :: Carrying(actions, a) == {};
    }

    // ----- Moving targets between deleter objects -----

    // A deleter object gives up its target.
    method Take(s: Slot, ghost moving: multiset<Target>) returns (t: Target)
      requires Inv(moving) && s in slots
      modifies this`slots
      ensures t == old(slots)[s] && slots == old(slots)[s := Empty]
      ensures Inv(moving + multiset{t})
    {
      hide Total, Counted, Conserved;
      t := slots[s];
      TakeTotals(slots, s, moving);
      SameTotalsKeep(slots, moving, slots[s := Empty], moving + multiset{t}, refs, actions, fired, created);
      slots := slots[s := Empty];
    }

    // An empty deleter object, perhaps a new client variable, gets a target.
    method Place(s: Slot, t: Target, ghost moving: multiset<Target>)
      requires Inv(moving) && t in moving
      requires if s in slots then slots[s] == Empty else s.Client?
      requires !s.Client? && t.Impl? ==> rank[t.id] < rank[s.i]
      modifies this`slots
      ensures slots == old(slots)[s := t]
      ensures Inv(moving - multiset{t})
    {
      hide Total, Counted, Conserved;
      PlaceTotals(slots, s, t, moving);
      SameTotalsKeep(slots, moving, slots[s := t], moving - multiset{t}, refs, actions, fired, created);
      slots := slots[s := t];
    }

    // A plain object, or the functor of an impl, enters the system.
    ghost method Create(a: Action, moving: multiset<Target>)
      requires Inv(moving)
      modifies this`created
      ensures created == old(created) + multiset{a}
      ensures Inv(moving + multiset{Object(a)})
    {
      hide Total, Counted, Conserved, Carriers;
      ArriveObject(slots, moving, a, refs, actions, fired, created);
      created := created + multiset{a};
    }

    // free, or the call of a functor.
    method Fire(a: Action, ghost moving: multiset<Target>)
      requires Inv(moving) && Object(a) in moving
      modifies this`fired
      ensures fired == old(fired) + [a]
      ensures Inv(moving - multiset{Object(a)})
    {
      hide Total, Counted, Conserved, Carriers;
      LeaveObject(slots, moving, a, refs, actions, fired, created);
      fired := fired + [a];
    }

    // ++refs
    method Retain(i: Id, ghost moving: multiset<Target>)
      requires Inv(moving) && i in refs
      modifies this`refs
      ensures refs == old(refs)[i := old(refs)[i] + 1]
      ensures Inv(moving + multiset{Impl(i)})
    {
      hide Total, Counted, Conserved, Carriers;
      ArriveImpl(slots, moving, i, refs, actions, fired, created);
      refs := refs[i := refs[i] + 1];
    }

    // --refs, which does not reach 0
    method Release(i: Id, ghost moving: multiset<Target>)
      requires Inv(moving) && Impl(i) in moving && i in refs && refs[i] > 1
      modifies this`refs
      ensures refs == old(refs)[i := old(refs)[i] - 1]
      ensures Inv(moving - multiset{Impl(i)})
    {
      hide Total, Counted, Conserved, Carriers;
      LeaveImpl(slots, moving, i, refs, actions, fired, created);
      refs := refs[i := refs[i] - 1];
    }

    // A new impl, named by nothing but the caller: its action, if it has one, is
    // a moving object; its members are empty.
    method NewImpl(o: Option<Action>, held: bool, ghost height: real, ghost moving: multiset<Target>) returns (w: Id)
      requires Inv(moving) && Content(o) <= moving
      modifies this`slots, this`refs, this`actions, this`nextId, this`rank
      ensures w == old(nextId) && w !in old(refs) && w !in old(rank)
      ensures slots == NewSlots(old(slots), w, held)
      ensures refs == old(refs)[w := 1] && actions == old(actions)[w := o] && rank == old(rank)[w := height]
      ensures Inv(moving - Content(o) + multiset{Impl(w)})
    {
      hide Total, Counted, Conserved, Carriers, Shape, Falls, NewSlots, Content;
      w := nextId;
      Unused(slots, refs.Keys, moving, w, held);
      NewSlotsTotals(slots, w, held, moving);
      SameTotalsKeep(slots, moving, NewSlots(slots, w, held), moving, refs, actions, fired, created);
      EnterImpl(NewSlots(slots, w, held), moving, w, o, refs, actions, fired, created);
      EnterShape(slots, refs.Keys, moving, w, held, o, rank, height);
      ghost var ids := refs.Keys + {w};
      assert refs[w := 1].Keys == ids && actions[w := o].Keys == ids && rank[w := height].Keys == ids;
      slots := NewSlots(slots, w, held);
      refs, actions, rank := refs[w := 1], actions[w := o], rank[w := height];
      nextId := nextId + 1;
    }

    // A new impl with the action of a moving object.
    method NewActing(a: Action, ghost height: real, ghost moving: multiset<Target>) returns (w: Id)
      requires Inv(moving + multiset{Object(a)})
      modifies this`slots, this`refs, this`actions, this`nextId, this`rank
      ensures w == old(nextId) && w !in old(refs)
      ensures slots == old(slots)[Next(w) := Empty]
      ensures refs == old(refs)[w := 1] && actions == old(actions)[w := Some(a)] && rank == old(rank)[w := height]
      ensures Inv(moving + multiset{Impl(w)})
    {
      hide Store.Inv;
      assert Content(Some(a)) == multiset{Object(a)};
      w := NewImpl(Some(a), false, height, moving + multiset{Object(a)});
      Undone(moving, Object(a));
    }

    // delete of an impl whose last name is moving and whose members have been
    // emptied: its action is a moving object from now on.
    method Unlink(i: Id, ghost moving: multiset<Target>)
      requires Inv(moving) && Impl(i) in moving && i in refs && refs[i] == 1
      requires slots[Next(i)] == Empty && (Held(i) in slots ==> slots[Held(i)] == Empty)
      modifies this`slots, this`refs, this`actions, this`rank
      ensures slots == OldSlots(old(slots), i) && refs == old(refs) - {i}
      ensures actions == old(actions) - {i} && rank == old(rank) - {i}
      ensures Inv(moving - multiset{Impl(i)} + Content(old(actions)[i]))
    {
      hide Total, Counted, Conserved, Carriers;
      ghost var m := moving - multiset{Impl(i)} + Content(actions[i]);
      LeaveLastImpl(slots, moving, i, refs, actions, fired, created);
      Unnamed(slots, m, Impl(i));
      OldSlotsTotals(slots, i, m);
      SameTotalsKeep(slots, m, OldSlots(slots, i), m, refs - {i}, actions - {i}, fired, created);
      LeaveShape(slots, refs.Keys, moving, i, actions[i], rank);
      hide Shape, Falls;
      slots := OldSlots(slots, i);
      refs, actions, rank := refs - {i}, actions - {i}, rank - {i};
    }

    lemma EmptyMoves(moving: multiset<Target>, moving': multiset<Target>)
      requires Inv(moving) && moving[Empty := 0] == moving'[Empty := 0]
      ensures Inv(moving')
    {
      hide Carriers;
      forall u | u != Empty
        ensures moving'[u] == moving[u]
      {
        assert moving[Empty := 0][u] == moving'[Empty := 0][u];
      }
      assert SameTotals(slots, moving, slots, moving');
      SameTotalsKeep(slots, moving, slots, moving', refs, actions, fired, created);
    }

    // ----- Destruction -----

    // delete of an impl: its action runs; the deleters it held are to go next.
    method Delete(i: Id, ghost moving: multiset<Target>) returns (held: Target, next: Target)
      requires Inv(moving) && Impl(i) in moving && i in refs && refs[i] == 1
      modifies this`slots, this`refs, this`actions, this`fired, this`rank
      ensures Inv(moving - multiset{Impl(i)} + multiset{held} + multiset{next})
      ensures refs == old(refs) - {i} && actions == old(actions) - {i} && rank == old(rank) - {i}
      ensures slots == OldSlots(old(slots), i)
      ensures fired == if old(actions)[i].Some? then old(fired) + [old(actions)[i].value] else old(fired)
      ensures next == old(slots)[Next(i)]
      ensures held == if Held(i) in old(slots) then old(slots)[Held(i)] else Empty
    {
      hide Store.Inv, Content, OldSlots;
      next, held := TakeMembers(i, moving);
      var o := actions[i];
      Unlink(i, moving + multiset{next} + multiset{held});
      Reordered(moving, Impl(i), next, held);
      EndAction(o, moving - multiset{Impl(i)} + multiset{held} + multiset{next});
    }

    // The deleters that impl i holds leave it: its next deleter, and the one that
    // an object_deleter_impl carries.
    method TakeMembers(i: Id, ghost moving: multiset<Target>) returns (next: Target, held: Target)
      requires Inv(moving) && i in refs
      modifies this`slots
      ensures Inv(moving + multiset{next} + multiset{held})
      ensures refs.Keys == actions.Keys && Next(i) in slots && slots[Next(i)] == Empty
      ensures Held(i) in slots ==> slots[Held(i)] == Empty
      ensures Next(i) in old(slots) && next == old(slots)[Next(i)]
      ensures held == if Held(i) in old(slots) then old(slots)[Held(i)] else Empty
      ensures OldSlots(slots, i) == OldSlots(old(slots), i)
    {
      hide Store.Inv, OldSlots;
      InUse(moving, i);
      MembersGone(slots, i);
      next := Take(Next(i), moving);
      held := Empty;
      if Held(i) in slots {
        held := Take(Held(i), moving + multiset{next});
      } else {
        EmptyMoves(moving + multiset{next}, moving + multiset{next} + multiset{held});
      }
    }

    // The action of an impl that is gone runs, if there is one.
    method EndAction(o: Option<Action>, ghost m: multiset<Target>)
      requires Inv(m + Content(o))
      modifies this`fired
      ensures Inv(m) && fired == if o.Some? then old(fired) + [o.value] else old(fired)
    {
      hide Store.Inv;
      if o.Some? {
        Fire(o.value, m + Content(o));
        assert m + Content(o) - multiset{Object(o.value)} == m;
      } else {
        assert m + Content(o) == m;
      }
    }

    // ~deleter: free a plain object; give up one name of an impl, and when it was
    // the last, run the action of the impl, then destroy the deleter it carries,
    // and then its next one.
    method Drop(t: Target, ghost moving: multiset<Target>)
      requires Inv(moving) && t in moving
      modifies this`slots, this`refs, this`actions, this`fired, this`rank
      ensures Inv(moving - multiset{t})
      ensures Unwound(slots, refs, actions, fired, old(slots), old(refs), old(actions), old(fired), t)
      ensures !t.Impl? || (t.id in old(refs) && old(refs)[t.id] > 1) ==>
        slots == old(slots) && actions == old(actions) && fired == old(fired) + if t.Object? then [t.a] else []
      ensures !t.Impl? ==> refs == old(refs)
      ensures t.Impl? && t.id in old(refs) && old(refs)[t.id] > 1 ==> refs == old(refs)[t.id := old(refs)[t.id] - 1]
      ensures old(fired) <= fired
      decreases refs.Keys, 1
    {
      hide Store.Inv, Unwound;
      AllSurvive(moving);
      match t
      case Empty =>
        EmptyMoves(moving, moving - multiset{t});
        UnwoundName(slots, refs, actions, fired, t, refs, fired);
      case Object(a) =>
        Fire(a, moving);
        UnwoundName(slots, refs, actions, old(fired), t, refs, fired);
      case Impl(i) =>
        InUse(moving, i);
        if refs[i] > 1 {
          Release(i, moving);
          UnwoundName(slots, old(refs), actions, fired, t, refs, fired);
        } else {
          DropLast(i, moving);
        }
    }

    method DropLast(i: Id, ghost moving: multiset<Target>)
      requires Inv(moving) && Impl(i) in moving && i in refs && refs[i] == 1
      modifies this`slots, this`refs, this`actions, this`fired, this`rank
      ensures Inv(moving - multiset{Impl(i)})
      ensures Unwound(slots, refs, actions, fired, old(slots), old(refs), old(actions), old(fired), Impl(i))
      ensures i in old(actions) && old(fired) + ActionOf(old(actions), Impl(i)) <= fired
      decreases refs.Keys, 0
    {
      hide Store.Inv, Unwound, OldSlots;
      InUse(moving, i);
      var held, next := Delete(i, moving);
      assert fired == old(fired) + ActionOf(old(actions), Impl(i));
      ghost var m := moving - multiset{Impl(i)} + multiset{held} + multiset{next};
      ghost var slots0, refs0, actions0, fired0 := slots, refs, actions, fired;
      Drop(held, m);
      UnwoundKeys(slots, refs, actions, fired, slots0, refs0, actions0, fired0, held);
      m := m - multiset{held};
      ghost var slots', refs', actions', fired' := slots, refs, actions, fired;
      Drop(next, m);
      TwoGone(moving - multiset{Impl(i)}, held, next);
      UnwoundMembers(old(slots), old(refs), old(actions), old(fired), i, slots', refs', actions', fired',
                     slots, refs, actions, fired);
    }

    // Nothing is there of impls that are gone.
    lemma AllSurvive(moving: multiset<Target>)
      requires Inv(moving)
      ensures Surviving(slots, refs) == slots && Remaining(actions, refs) == actions
    {
    }

    lemma InUse(moving: multiset<Target>, i: Id)
      requires Inv(moving)
      ensures refs.Keys == actions.Keys == rank.Keys
      ensures Impl(i) in moving ==> i in refs
      ensures i in refs ==> refs[i] > 0 && Next(i) in slots
    {
    }

    // ----- Client operations -----

    // deleter(): an empty deleter.
    method New(h: nat)
      requires Inv(multiset{}) && Client(h) !in slots
      modifies this`slots
      ensures Inv(multiset{}) && slots == old(slots)[Client(h) := Empty]
    {
      hide Store.Inv;
      EmptyMoves(multiset{}, multiset{} + multiset{Empty});
      Settle(Client(h), Empty, multiset{});
    }

    // make_free_deleter(obj): an empty deleter for a null pointer.
    method MakeFree(h: nat, obj: Option<Action>)
      requires Inv(multiset{}) && Client(h) !in slots
      modifies this`slots, this`created
      ensures Inv(multiset{})
      ensures slots == old(slots)[Client(h) := if obj.Some? then Object(obj.value) else Empty]
      ensures created == if obj.Some? then old(created) + multiset{obj.value} else old(created)
    {
      hide Store.Inv;
      if obj.Some? {
        Create(obj.value, multiset{});
        Settle(Client(h), Object(obj.value), multiset{});
      } else {
        New(h);
      }
    }

    // make_deleter(next, obj), the deleter in variable n becoming the next one.
    method Make(h: nat, n: nat, a: Action) returns (w: Id)
      requires Inv(multiset{}) && Client(h) !in slots && Client(n) in slots
      modifies this`slots, this`refs, this`actions, this`nextId, this`created, this`rank
      ensures Inv(multiset{}) && created == old(created) + multiset{a}
      ensures w !in old(refs) && refs == old(refs)[w := 1] && actions == old(actions)[w := Some(a)]
      ensures slots ==
        old(slots)[Client(n) := Empty][Next(w) := Empty][Next(w) := old(slots)[Client(n)]][Client(h) := Impl(w)]
    {
      hide Store.Inv;
      var t := Take(Client(n), multiset{});
      ghost var m := multiset{} + multiset{t};
      Create(a, m);
      w := NewOver(a, t, m);
      Undone(multiset{}, t);
      Settle(Client(h), Impl(w), multiset{});
    }

    // new lambda_deleter_impl(next, obj): a moving target becomes the next deleter
    // of a new impl.
    method NewOver(a: Action, t: Target, ghost moving: multiset<Target>) returns (w: Id)
      requires Inv(moving + multiset{Object(a)}) && t in moving
      modifies this`slots, this`refs, this`actions, this`nextId, this`rank
      ensures Inv(moving - multiset{t} + multiset{Impl(w)})
      ensures w !in old(refs) && refs == old(refs)[w := 1] && actions == old(actions)[w := Some(a)]
      ensures slots == old(slots)[Next(w) := Empty][Next(w) := t]
    {
      hide Store.Inv;
      InUse(moving + multiset{Object(a)}, if t.Impl? then t.id else 0);
      ghost var height := if t.Impl? then rank[t.id] + 1.0 else 0.0;
      w := NewActing(a, height, moving);
      Swapped(moving, t, Impl(w));
      Place(Next(w), t, moving + multiset{Impl(w)});
    }

    // deleter(deleter&&)
    method MoveTo(h: nat, from: nat)
      requires Inv(multiset{}) && Client(h) !in slots && Client(from) in slots
      modifies this`slots
      ensures Inv(multiset{}) && slots == old(slots)[Client(from) := Empty][Client(h) := old(slots)[Client(from)]]
    {
      hide Store.Inv;
      var t := Take(Client(from), multiset{});
      Settle(Client(h), t, multiset{});
    }

    // A deleter object is destroyed.
    method Destroy(h: nat)
      requires Inv(multiset{}) && Client(h) in slots
      modifies this`slots, this`refs, this`actions, this`fired, this`rank
      ensures Inv(multiset{}) && Client(h) !in slots && OthersKept(slots, old(slots), {h})
      ensures old(fired) <= fired && ActionsKept(old(actions), actions) && MembersKept(slots, old(slots))
      ensures Unwound(slots, refs, actions, fired,
                      old(slots) - {Client(h)}, old(refs), old(actions), old(fired), old(slots)[Client(h)])
    {
      hide Store.Inv;
      var t := Take(Client(h), multiset{});
      Drop(t, multiset{} + multiset{t});
      assert multiset{} + multiset{t} - multiset{t} == multiset{};
      UnwoundWithout(slots, refs, actions, fired, old(slots), old(refs), old(actions), old(fired),
                     t, Client(h), Empty);
      Forget(h, multiset{});
    }

    // An empty deleter variable goes out of scope.
    method Forget(h: nat, ghost moving: multiset<Target>)
      requires Inv(moving) && Client(h) in slots && slots[Client(h)] == Empty
      modifies this`slots
      ensures Inv(moving) && slots == old(slots) - {Client(h)}
    {
      hide Total, Counted, Conserved;
      DropEmptyTotals(slots, Client(h), moving);
      SameTotalsKeep(slots, moving, slots - {Client(h)}, moving, refs, actions, fired, created);
      slots := slots - {Client(h)};
    }

    // operator=(deleter&&)
    method Assign(h: nat, from: nat)
      requires Inv(multiset{}) && Client(h) in slots && Client(from) in slots
      modifies this`slots, this`refs, this`actions, this`fired, this`rank
      ensures Inv(multiset{}) && OthersKept(slots, old(slots), {h, from})
      ensures Client(h) in slots && slots[Client(h)] == old(slots)[Client(from)]
      ensures Client(from) in slots && (from != h ==> slots[Client(from)] == Empty)
      ensures old(fired) <= fired && ActionsKept(old(actions), actions) && MembersKept(slots, old(slots))
      ensures h == from ==>
        slots == old(slots) && refs == old(refs) && actions == old(actions) && fired == old(fired)
      ensures h != from ==>
        Unwound(slots - {Client(h), Client(from)}, refs, actions, fired,
                old(slots) - {Client(h)} - {Client(from)}, old(refs), old(actions), old(fired), old(slots)[Client(h)])
    {
      hide Store.Inv;
      if h != from {
        Destroy(h);
        ghost var slots0, slots' := old(slots) - {Client(h)}, slots;
        MoveTo(h, from);
        assert slots - {Client(h), Client(from)} == slots' - {Client(from)};
        assert slots0[Client(from) := slots0[Client(from)]] == slots0;
        UnwoundWithout(slots', refs, actions, fired, slots0, old(refs), old(actions), old(fired),
                       old(slots)[Client(h)], Client(from), slots0[Client(from)]);
      }
    }

    // share
    method Share(h: nat, h': nat)
      requires Inv(multiset{}) && Client(h) in slots && Client(h') !in slots
      modifies this`slots, this`refs, this`actions, this`nextId, this`rank
      ensures Inv(multiset{}) && OthersKept(slots, old(slots), {h, h'})
      ensures Client(h) in slots && Client(h') in slots && slots[Client(h)] == slots[Client(h')]
      ensures !old(slots)[Client(h)].Object? ==> slots == old(slots)[Client(h') := old(slots)[Client(h)]]
      ensures old(slots)[Client(h)].Object? ==>
        var a := old(slots)[Client(h)].a; var t := slots[Client(h)];
        t.Impl? && t.id !in old(refs) && t.id in actions && actions[t.id] == Some(a)
      ensures old(slots)[Client(h)].Impl? ==>
        var i := old(slots)[Client(h)].id;
        i in old(refs) && refs == old(refs)[i := old(refs)[i] + 1] && actions == old(actions)
      ensures old(slots)[Client(h)].Object? ==>
        var w := slots[Client(h)].id;
        && refs == old(refs)[w := 2] && actions == old(actions)[w := Some(old(slots)[Client(h)].a)]
        && slots == old(slots)[Client(h) := Impl(w)][Next(w) := Empty][Client(h') := Impl(w)]
    {
      hide Store.Inv;
      if slots[Client(h)] == Empty {
        New(h');
        return;
      }
      if slots[Client(h)].Object? {
        var _, _ := WrapObject(Client(h), multiset{});
      }
      InUse(multiset{}, 0);
      ShareImpl(h, h');
    }

    // The names of an impl beyond the first.
    method ShareImpl(h: nat, h': nat)
      requires Inv(multiset{}) && Client(h) in slots && Client(h') !in slots && slots[Client(h)].Impl?
      modifies this`slots, this`refs
      ensures Inv(multiset{}) && slots == old(slots)[Client(h') := old(slots)[Client(h)]]
      ensures var i := old(slots)[Client(h)].id; i in old(refs) && refs == old(refs)[i := old(refs)[i] + 1]
    {
      var i := slots[Client(h)].id;
      assert i in refs;
      hide Store.Inv;
      Retain(i, multiset{});
      Settle(Client(h'), Impl(i), multiset{});
    }

    // new free_deleter_impl: a plain object gets an impl of its own.
    method WrapObject(s: Slot, ghost moving: multiset<Target>) returns (w: Id, ghost height: real)
      requires Inv(moving) && s in slots && slots[s].Object?
      modifies this`slots, this`refs, this`actions, this`nextId, this`rank
      ensures Inv(moving) && w == old(nextId) && w !in old(refs)
      ensures slots == old(slots)[s := Empty][Next(w) := Empty][s := Impl(w)]
      ensures !s.Client? ==> s.i in old(rank) && height < old(rank)[s.i]
      ensures refs == old(refs)[w := 1] && actions == old(actions)[w := Some(old(slots)[s].a)]
      ensures rank == old(rank)[w := height]
    {
      hide Store.Inv;
      Placed(moving, s);
      height := if s.Client? then 0.0 else rank[s.i] - 1.0;
      var t := Take(s, moving);
      w := ActAt(s, t.a, height, moving);
    }

    // A moving object becomes the action of a new impl, which s names.
    method ActAt(s: Slot, a: Action, ghost height: real, ghost moving: multiset<Target>) returns (w: Id)
      requires Inv(moving + multiset{Object(a)}) && s in slots && slots[s] == Empty
      requires !s.Client? ==> s.i in refs && s.i in rank && height < rank[s.i]
      modifies this`slots, this`refs, this`actions, this`nextId, this`rank
      ensures Inv(moving) && w == old(nextId) && w !in old(refs)
      ensures slots == old(slots)[Next(w) := Empty][s := Impl(w)]
      ensures refs == old(refs)[w := 1] && actions == old(actions)[w := Some(a)]
      ensures rank == old(rank)[w := height]
    {
      hide Store.Inv;
      w := NewActing(a, height, moving);
      Settle(s, Impl(w), moving);
    }

    // The last moving target finds its place.
    method Settle(s: Slot, t: Target, ghost moving: multiset<Target>)
      requires Inv(moving + multiset{t})
      requires if s in slots then slots[s] == Empty else s.Client?
      requires !s.Client? && t.Impl? ==> t.id in rank && s.i in rank && rank[t.id] < rank[s.i]
      modifies this`slots
      ensures Inv(moving) && slots == old(slots)[s := t]
    {
      hide Store.Inv;
      InUse(moving + multiset{t}, 0);
      Undone(moving, t);
      Place(s, t, moving + multiset{t});
    }

    // The owner of a deleter object, and the impl it names, are in use.
    lemma Placed(moving: multiset<Target>, s: Slot)
      requires Inv(moving) && s in slots
      ensures nextId !in refs && refs.Keys == actions.Keys == rank.Keys
      ensures !s.Client? ==> s.i in refs
      ensures slots[s].Impl? ==> slots[s].id in refs
      ensures !s.Client? && slots[s].Impl? ==> rank[slots[s].id] < rank[s.i]
    {
    }

    // An impl that is shared with other deleters gives its name at s, and its next
    // deleter, to a new object_deleter_impl.
    method WrapShared(s: Slot, x: Id, ghost height: real, ghost moving: multiset<Target>) returns (w: Id)
      requires Inv(moving) && s in slots && slots[s] == Impl(x)
      requires x in rank && rank[x] < height && (!s.Client? ==> s.i in rank && height < rank[s.i])
      modifies this`slots, this`refs, this`actions, this`nextId, this`rank
      ensures Inv(moving) && w == old(nextId) && w !in old(refs) && Next(x) in old(slots) && x in old(refs)
      ensures slots == Wrapped(old(slots), s, x, w)
      ensures refs == old(refs)[w := 1] && rank == old(rank)[w := height]
      ensures actions == old(actions)[w := None]
    {
      hide Store.Inv;
      Placed(moving, s);
      InUse(moving, x);
      Placed(moving, Next(x));
      var t := Take(Next(x), moving);
      var u := Take(s, moving + multiset{t});
      w := WrapMoved(s, t, u, height, moving);
    }

    method WrapMoved(s: Slot, t: Target, u: Target, ghost height: real, ghost moving: multiset<Target>) returns (w: Id)
      requires Inv(moving + multiset{t} + multiset{u})
      requires s in slots && slots[s] == Empty
      requires t.Impl? ==> t.id in rank && rank[t.id] < height
      requires u.Impl? && u.id in rank && rank[u.id] < height
      requires !s.Client? ==> s.i in refs && s.i in rank && height < rank[s.i]
      modifies this`slots, this`refs, this`actions, this`nextId, this`rank
      ensures Inv(moving) && w == old(nextId) && w !in old(refs)
      ensures slots == old(slots)[Next(w) := Empty][Held(w) := Empty][Next(w) := t][Held(w) := u][s := Impl(w)]
      ensures refs == old(refs)[w := 1] && rank == old(rank)[w := height]
      ensures actions == old(actions)[w := None]
    {
      hide Store.Inv;
      w := NewWrapper(height, moving + multiset{t} + multiset{u});
      FillWrapper(s, w, t, u, moving);
    }

    method NewWrapper(ghost height: real, ghost moving: multiset<Target>) returns (w: Id)
      requires Inv(moving)
      modifies this`slots, this`refs, this`actions, this`nextId, this`rank
      ensures w == old(nextId) && w !in old(refs) && w !in old(rank) &&
        slots == old(slots)[Next(w) := Empty][Held(w) := Empty]
      ensures refs == old(refs)[w := 1] && rank == old(rank)[w := height]
      ensures Inv(moving + multiset{Impl(w)})
      ensures actions == old(actions)[w := None]
    {
      hide Store.Inv;
      assert moving - Content(None) == moving;
      w := NewImpl(None, true, height, moving);
    }

    method FillWrapper(s: Slot, w: Id, t: Target, u: Target, ghost moving: multiset<Target>)
      requires Inv(moving + multiset{t} + multiset{u} + multiset{Impl(w)})
      requires s in slots && slots[s] == Empty && s != Next(w) && s != Held(w)
      requires Next(w) in slots && slots[Next(w)] == Empty && Held(w) in slots && slots[Held(w)] == Empty
      requires w in rank && (t.Impl? ==> t.id in rank && rank[t.id] < rank[w])
      requires u.Impl? && u.id in rank && rank[u.id] < rank[w]
      requires !s.Client? ==> s.i in rank && rank[w] < rank[s.i]
      modifies this`slots
      ensures Inv(moving) && slots == old(slots)[Next(w) := t][Held(w) := u][s := Impl(w)]
    {
      hide Store.Inv;
      Undone(moving, t);
      FourFirst(moving, t, u, Impl(w));
      Place(Next(w), t, moving + multiset{t} + multiset{u} + multiset{Impl(w)});
      Place(Held(w), u, moving + multiset{u} + multiset{Impl(w)});
      Settle(s, Impl(w), moving);
    }

    // ----- Appending -----

    // One round of append's walk at s, the end of the way: a plain object gets an
    // impl of its own.
    method OwnObject(h: nat, ghost ids: seq<Id>, s: Slot, ghost moving: multiset<Target>)
      returns (v: Id, ghost height: real)
      requires Inv(moving) && Path(slots, rank, h, ids) && s == Spot(h, ids, |ids|) && slots[s].Object?
      modifies this`slots, this`refs, this`actions, this`nextId, this`rank
      ensures Inv(moving) && Path(slots, rank, h, ids + [v])
      ensures v == old(nextId) && v !in old(refs) && slots == old(slots)[s := Empty][Next(v) := Empty][s := Impl(v)]
      ensures refs == old(refs)[v := 1]
      ensures rank == old(rank)[v := height]
      ensures actions == old(actions)[v := Some(old(slots)[s].a)]
    {
      NotNamed(moving);
      ghost var slots0, rank0 := slots, rank;
      hide Store.Inv;
      v, height := WrapObject(s, moving);
      BelowLast(slots0, rank0, h, ids, height);
      hide Spot, Path;
      PathThroughObject(slots0, rank0, h, ids, v, height);
    }

    // A shared impl is wrapped.
    method OwnShared(h: nat, ghost ids: seq<Id>, s: Slot, x: Id, ghost moving: multiset<Target>)
      returns (v: Id, ghost height: real)
      requires Inv(moving) && Path(slots, rank, h, ids) && s == Spot(h, ids, |ids|) && slots[s] == Impl(x)
      modifies this`slots, this`refs, this`actions, this`nextId, this`rank
      ensures Inv(moving) && Path(slots, rank, h, ids + [v])
      ensures v == old(nextId) && v !in old(refs) && Next(x) in old(slots) && slots == Wrapped(old(slots), s, x, v)
      ensures refs == old(refs)[v := 1]
      ensures x in old(rank) && height > old(rank)[x] && rank == old(rank)[v := height]
      ensures actions == old(actions)[v := None]
    {
      NotNamed(moving);
      InUse(moving, x);
      Placed(moving, s);
      height := Between(moving, h, ids, x);
      ghost var slots0, rank0 := slots, rank;
      hide Store.Inv, Path, Spot;
      v := WrapShared(s, x, height, moving);
      PathThroughWrapper(slots0, rank0, h, ids, x, v, height);
    }

    // A rank between what the end of the way names and the way.
    lemma Between(moving: multiset<Target>, h: nat, ids: seq<Id>, x: Id) returns (height: real)
      requires Inv(moving) && Path(slots, rank, h, ids) && slots[Spot(h, ids, |ids|)] == Impl(x)
      ensures Above(rank, ids, x) && rank[x] < height
      ensures forall k :: 0 <= k < |ids| ==> rank[ids[k]] > height
      ensures var s := Spot(h, ids, |ids|); !s.Client? ==> s.i in rank && height < rank[s.i]
    {
      var s := Spot(h, ids, |ids|);
      Placed(moving, s);
      hide Store.Inv;
      height := if s.Client? then rank[x] + 1.0 else (rank[x] + rank[s.i]) / 2.0;
      BelowLast(slots, rank, h, ids, height);
    }

    // The next impl's number is not in use.
    lemma NotNamed(moving: multiset<Target>)
      requires Inv(moving)
      ensures nextId !in refs && nextId !in rank && Next(nextId) !in slots && Held(nextId) !in slots
      ensures forall s :: s in slots ==> slots[s] != Impl(nextId)
    {
    }

    // An impl with one name is on the way of one client only.
    lemma OwnSole(h: nat, ids: seq<Id>, x: Id, moving: multiset<Target>)
      requires Inv(moving) && Path(slots, rank, h, ids)
      requires slots[Spot(h, ids, |ids|)] == Impl(x) && x in refs && refs[x] == 1
      ensures Path(slots, rank, h, ids + [x])
    {
      var s := Spot(h, ids, |ids|);
      InUse(moving, x);
      var _ := Between(moving, h, ids, x);
      forall r | r in slots && slots[r] == Impl(x)
        ensures r == s
      {
        SoleName(slots, refs, moving, x, s, r);
      }
      hide Store.Inv;
      PathExtends(slots, rank, h, ids, x);
    }

    // One round of append's walk: what s names is made the client's own, and
    // becomes the next impl on the way.
    method Own(h: nat, ghost ids: seq<Id>, s: Slot, ghost moving: multiset<Target>) returns (v: Id)
      requires Inv(moving) && Path(slots, rank, h, ids) && s == Spot(h, ids, |ids|)
      requires s in slots && slots[s] != Empty
      modifies this`slots, this`refs, this`actions, this`nextId, this`rank
      ensures Inv(moving) && Path(slots, rank, h, ids + [v]) && Next(v) in slots
      ensures OthersKept(slots, old(slots), {h}) && Nearer(rank, slots[Next(v)], old(rank), old(slots)[s])
      ensures FollowsOn(slots[Next(v)], old(slots), old(slots)[s])
      ensures Took(slots, old(slots), old(refs), s, Loses(old(refs), old(slots)[s]))
      ensures RefsKept(refs, old(refs)) && RanksKept(rank, old(rank))
      ensures v in old(refs) ==> old(slots)[s] == Impl(v) && old(refs)[v] == 1
      ensures StandsFor(slots, actions, old(refs), old(slots)[s], v)
      ensures ActionsKept(actions, old(actions))
    {
      hide Store.Inv, Path, Spot, Nearer, OthersKept, Took, Loses, ActionsKept;
      Placed(moving, s);
      ActionsStill(actions, actions, actions);
      match slots[s]
      case Object(a) =>
        v := PassObject(h, ids, s, moving);
      case Impl(x) =>
        if refs[x] == 1 {
          PassSole(h, ids, s, x, moving);
          v := x;
        } else {
          v := PassShared(h, ids, s, x, moving);
        }
    }

    method PassObject(h: nat, ghost ids: seq<Id>, s: Slot, ghost moving: multiset<Target>) returns (v: Id)
      requires Inv(moving) && Path(slots, rank, h, ids) && s == Spot(h, ids, |ids|)
      requires slots[s].Object?
      modifies this`slots, this`refs, this`actions, this`nextId, this`rank
      ensures Inv(moving) && Path(slots, rank, h, ids + [v]) && Next(v) in slots
      ensures OthersKept(slots, old(slots), {h}) && Nearer(rank, slots[Next(v)], old(rank), old(slots)[s])
      ensures FollowsOn(slots[Next(v)], old(slots), old(slots)[s])
      ensures Took(slots, old(slots), old(refs), s, Loses(old(refs), old(slots)[s]))
      ensures RefsKept(refs, old(refs)) && RanksKept(rank, old(rank))
      ensures v !in old(refs)
      ensures StandsFor(slots, actions, old(refs), old(slots)[s], v)
      ensures ActionsKept(actions, old(actions))
    {
      hide Store.Inv, Path, Spot, Nearer, OthersKept, Took, NextsIn, Loses, FollowsOn, ActionsKept, RefsKept, RanksKept;
      AtObject(moving, h, ids, s);
      ghost var slots0, rank0, refs0, height := slots, rank, refs, 0.0;
      v, height := OwnObject(h, ids, s, moving);
      BeyondObject(slots0, rank0, refs0, h, s, v, height);
      ObjectStands(slots0, slots, actions, refs0, s, v);
    }

    lemma AtObject(moving: multiset<Target>, h: nat, ids: seq<Id>, s: Slot)
      requires Inv(moving) && Path(slots, rank, h, ids) && s == Spot(h, ids, |ids|) && slots[s].Object?
      ensures s in slots && (s == Client(h) || s.Next?) && NextsIn(slots, refs)
      ensures refs.Keys == rank.Keys && Next(nextId) !in slots && Held(nextId) !in slots
      ensures ActionsKept(actions[nextId := Some(slots[s].a)], actions)
    {
      hide Store.Inv, NextsIn;
      Placed(moving, s);
      SpotIs(h, ids, |ids|);
      hide Spot, Path;
      NotNamed(moving);
      NextsThere(moving);
    }

    lemma PassSole(h: nat, ids: seq<Id>, s: Slot, x: Id, moving: multiset<Target>)
      requires Inv(moving) && Path(slots, rank, h, ids) && s == Spot(h, ids, |ids|)
      requires slots[s] == Impl(x) && x in refs && refs[x] == 1
      ensures Path(slots, rank, h, ids + [x]) && Next(x) in slots
      ensures OthersKept(slots, slots, {h}) && Nearer(rank, slots[Next(x)], rank, slots[s])
      ensures FollowsOn(slots[Next(x)], slots, slots[s])
      ensures Took(slots, slots, refs, s, Loses(refs, slots[s]))
      ensures StandsFor(slots, actions, refs, slots[s], x)
    {
      InUse(moving, x);
      Placed(moving, Next(x));
      OwnSole(h, ids, x, moving);
      NextsThere(moving);
      hide Store.Inv;
      BeyondSole(slots, rank, h, x);
    }

    method PassShared(h: nat, ghost ids: seq<Id>, s: Slot, x: Id, ghost moving: multiset<Target>) returns (v: Id)
      requires Inv(moving) && Path(slots, rank, h, ids) && s == Spot(h, ids, |ids|)
      requires slots[s] == Impl(x) && x in refs && refs[x] != 1
      modifies this`slots, this`refs, this`actions, this`nextId, this`rank
      ensures Inv(moving) && Path(slots, rank, h, ids + [v]) && Next(v) in slots
      ensures OthersKept(slots, old(slots), {h}) && Nearer(rank, slots[Next(v)], old(rank), old(slots)[s])
      ensures FollowsOn(slots[Next(v)], old(slots), old(slots)[s])
      ensures Took(slots, old(slots), old(refs), s, Loses(old(refs), old(slots)[s]))
      ensures RefsKept(refs, old(refs)) && RanksKept(rank, old(rank))
      ensures v !in old(refs)
      ensures StandsFor(slots, actions, old(refs), old(slots)[s], v)
      ensures ActionsKept(actions, old(actions))
    {
      hide Store.Inv, Path, Spot, Nearer, OthersKept, Wrapped, Took, NextsIn, Loses, FollowsOn, ActionsKept;
      hide RefsKept, RanksKept;
      AtShared(moving, h, ids, s, x);
      ghost var slots0, rank0, refs0, height := slots, rank, refs, 0.0;
      v, height := OwnShared(h, ids, s, x, moving);
      BeyondWrapper(slots0, rank0, refs0, h, s, x, v, height);
      WrapperStands(slots0, slots, actions, refs0, rank0, h, s, x, v);
    }

    lemma AtShared(moving: multiset<Target>, h: nat, ids: seq<Id>, s: Slot, x: Id)
      requires Inv(moving) && Path(slots, rank, h, ids) && s == Spot(h, ids, |ids|) && slots[s] == Impl(x)
      ensures BeforeWrapper(slots, rank, refs, h, s, x, nextId) && ActionsKept(actions[nextId := None], actions)
    {
      hide Store.Inv, NextsIn;
      InUse(moving, x);
      Placed(moving, s);
      Placed(moving, Next(x));
      SpotIs(h, ids, |ids|);
      hide Spot, Path;
      NotNamed(moving);
      NextsThere(moving);
    }

    lemma NextsThere(moving: multiset<Target>)
      requires Inv(moving)
      ensures NextsIn(slots, refs)
    {
    }

    // append's loop: from client h along the next members, to the end or to d.
    method Walk(h: nat, d: Target, ghost moving: multiset<Target>)
      returns (s: Slot, found: bool, ghost ids: seq<Id>, ghost lost: set<Id>)
      requires Inv(moving) && d in moving && d != Empty && Client(h) in slots
      modifies this`slots, this`refs, this`actions, this`nextId, this`rank
      ensures Inv(moving) && Path(slots, rank, h, ids) && s == Spot(h, ids, |ids|)
      ensures s in slots && slots[s] == if found then d else Empty
      ensures Walking(slots, refs, rank, old(slots), old(refs), old(rank), h, ids, d, lost)
      ensures Standing(slots, actions, old(slots), old(refs), old(rank), ids, old(slots)[Client(h)], slots[s], d)
      ensures ActionsKept(actions, old(actions))
    {
      s, found, ids, lost := Client(h), false, [], {};
      hide Store.Inv, Spot, Nearer, Below, Path, Walking, Ordered, Orders, ActionsKept;
      Orderly(moving);
      Placed(moving, s);
      assert Standing(slots, actions, slots, refs, rank, [], slots[Client(h)], slots[s], d);
      hide Standing;
      Starts(slots, refs, rank, h, d);
      ActionsStill(actions, actions, actions);
      while slots[s] != Empty
        invariant Inv(moving) && Path(slots, rank, h, ids) && s == Spot(h, ids, |ids|) && s in slots
        invariant Walking(slots, refs, rank, old(slots), old(refs), old(rank), h, ids, d, lost)
        invariant Standing(slots, actions, old(slots), old(refs), old(rank), ids, old(slots)[Client(h)], slots[s], d)
        invariant ActionsKept(actions, old(actions))
        decreases Below(rank, slots[s]), slots[s].Object?
      {
        if slots[s] == d {
          found := true;
          break;
        }
        ghost var rank1, actions1, t := rank, actions, slots[s];
        var v;
        v, lost := WalkStep(h, ids, s, d, lost, moving, old(slots), old(refs), old(rank));
        NearerMeans(rank, slots[Next(v)], rank1, t);
        ActionsStill(actions, actions1, old(actions));
        ids := ids + [v];
        s := Next(v);
        SpotIs(h, ids, |ids|);
      }
    }

    lemma WayInUse(h: nat, ids: seq<Id>, moving: multiset<Target>)
      requires Inv(moving) && Path(slots, rank, h, ids)
      ensures forall k :: 0 <= k < |ids| ==> ids[k] in refs
    {
    }

    method WalkStep(h: nat, ghost ids: seq<Id>, s: Slot, ghost d: Target, ghost lost: set<Id>,
                    ghost moving: multiset<Target>, ghost slots0: map<Slot, Target>, ghost refs0: map<Id, nat>,
                    ghost rank0: map<Id, real>)
      returns (v: Id, ghost lost': set<Id>)
      requires Inv(moving) && d in moving && s in slots && slots[s] != Empty && slots[s] != d
      requires Path(slots, rank, h, ids) && s == Spot(h, ids, |ids|)
      requires Walking(slots, refs, rank, slots0, refs0, rank0, h, ids, d, lost)
      requires Standing(slots, actions, slots0, refs0, rank0, ids, slots0[Client(h)], slots[s], d)
      modifies this`slots, this`refs, this`actions, this`nextId, this`rank
      ensures Inv(moving) && Path(slots, rank, h, ids + [v]) && Next(v) in slots
      ensures Walking(slots, refs, rank, slots0, refs0, rank0, h, ids + [v], d, lost')
      ensures Standing(slots, actions, slots0, refs0, rank0, ids + [v], slots0[Client(h)], slots[Next(v)], d)
      ensures Nearer(rank, slots[Next(v)], old(rank), old(slots)[s])
      ensures ActionsKept(actions, old(actions))
    {
      hide Store.Inv, Path, Took, Nearer, Loses, FollowsOn, Ordered, SharedOn, Walked, Walking, OthersKept;
      hide ActionsKept, RefsKept, RanksKept;
      hide Standing, StandsFor, HeldKept;
      InUse(moving, if d.Impl? then d.id else 0);
      EndKnown(slots, refs, rank, slots0, refs0, rank0, h, ids, d, lost);
      ghost var slots1, refs1, rank1, actions1 := slots, refs, rank, actions;
      WayInUse(h, ids, moving);
      v := Own(h, ids, s, moving);
      TookHeld(slots, slots1, refs1, s, Loses(refs1, slots1[s]));
      StandsNext(slots1, refs1, rank1, actions1, slots, actions, slots0, refs0, rank0, h, ids, d, lost, v);
      lost' := lost + Loses(refs1, slots1[s]);
      WalksOn(slots1, refs1, rank1, slots, refs, rank, slots0, refs0, rank0, h, ids, d, lost, v);
    }

    // append: the deleter in variable d, which goes away, joins the end of the
    // chain of h, unless the chain has it already.  A shared impl on the chain is
    // wrapped, and loses its next deleter to the wrapper.  The way ids stands, impl
    // for target, for the chain there was.  No action runs, except that of a plain
    // object that the chain has already.
    method Append(h: nat, d: nat) returns (ghost ids: seq<Id>)
      requires Inv(multiset{}) && Client(h) in slots && Client(d) in slots && h != d
      modifies this`slots, this`refs, this`actions, this`fired, this`nextId, this`rank
      ensures Inv(multiset{}) && Client(h) in slots && Client(d) !in slots && OthersKept(slots, old(slots), {h, d})
      ensures old(slots)[Client(d)] == Empty ==> slots == old(slots)[Client(d) := Empty] - {Client(d)}
      ensures old(slots)[Client(d)] != Empty ==>
        Leads(slots, h, ids) && slots[Spot(h, ids, |ids|)] == old(slots)[Client(d)]
      ensures old(slots)[Client(d)] != Empty ==>
        Stripped(slots, old(slots), old(refs), ids,
                 SharedOn(old(slots), old(refs), old(rank), old(slots)[Client(h)], old(slots)[Client(d)]))
      ensures var t := old(slots)[Client(d)];
        fired == old(fired) + if t.Object? && Meets(old(slots), old(rank), old(slots)[Client(h)], t) then [t.a] else []
      ensures old(slots)[Client(d)] != Empty ==>
        AllStand(slots, actions, old(refs),
                 Met(old(slots), old(rank), old(slots)[Client(h)], old(slots)[Client(d)]), ids)
      ensures old(slots)[Client(d)] != Empty ==> OwnChain(slots, refs, ids, old(slots)[Client(d)])
      ensures var t := old(slots)[Client(d)];
        NamesKept(refs, old(refs), t, t != Empty && Meets(old(slots), old(rank), old(slots)[Client(h)], t))
      ensures ActionsKept(actions, old(actions))
    {
      hide Store.Inv, SharedOn, Meets, Met, AllStand, OwnChain, Sole;
      ids := [];
      var t := Take(Client(d), multiset{});
      SharedOnNexts(old(slots), slots, refs, rank, slots[Client(h)], t);
      MeetsNexts(old(slots), slots, rank, slots[Client(h)], t);
      MetNexts(old(slots), slots, rank, slots[Client(h)], t);
      if t == Empty {
        EmptyMoves(multiset{} + multiset{t}, multiset{});
      } else {
        ids := AppendTarget(h, t);
      }
      ghost var slots1 := slots;
      Forget(d, multiset{});
      if t != Empty {
        AllStandStill(slots, slots1, actions, old(refs), Met(old(slots), old(rank), old(slots)[Client(h)], t), ids);
        SoleStill(slots1, h, ids, Client(d));
        WayIsOwn(h, ids, t);
      }
    }

    // The way to an appended deleter is the client's own chain.
    lemma WayIsOwn(h: nat, ids: seq<Id>, t: Target)
      requires Inv(multiset{}) && Leads(slots, h, ids) && Sole(slots, h, ids)
      requires slots[Spot(h, ids, |ids|)] == t && (t.Impl? ==> t.id !in ids)
      ensures OwnChain(slots, refs, ids, t)
    {
      forall k | 0 <= k < |ids|
        ensures ids[k] in refs && refs[ids[k]] == 1
      {
        assert Naming(slots, Impl(ids[k])) == {Spot(h, ids, k)};
      }
      hide Store.Inv;
      WayIsChain(slots, refs, h, ids, t);
    }

    method AppendTarget(h: nat, t: Target) returns (ghost ids: seq<Id>)
      requires Inv(multiset{} + multiset{t}) && Client(h) in slots && t != Empty
      modifies this`slots, this`refs, this`actions, this`fired, this`nextId, this`rank
      ensures Inv(multiset{}) && Client(h) in slots && OthersKept(slots, old(slots), {h})
      ensures Leads(slots, h, ids) && slots[Spot(h, ids, |ids|)] == t
      ensures Stripped(slots, old(slots), old(refs), ids,
                       SharedOn(old(slots), old(refs), old(rank), old(slots)[Client(h)], t))
      ensures fired == old(fired) +
        if t.Object? && Meets(old(slots), old(rank), old(slots)[Client(h)], t) then [t.a] else []
      ensures AllStand(slots, actions, old(refs), Met(old(slots), old(rank), old(slots)[Client(h)], t), ids)
      ensures Sole(slots, h, ids) && (t.Impl? ==> t.id !in ids)
      ensures NamesKept(refs, old(refs), t, Meets(old(slots), old(rank), old(slots)[Client(h)], t))
      ensures ActionsKept(actions, old(actions))
    {
      hide Store.Inv, Sole;
      ghost var m := multiset{} + multiset{t};
      var s, found;
      ghost var lost;
      s, found, ids, lost := Walk(h, t, m);
      WalkEnds(slots, refs, rank, old(slots), old(refs), old(rank), h, ids, t, lost);
      StandingEnds(slots, actions, old(slots), old(refs), old(rank), ids, old(slots)[Client(h)], slots[s], t);
      ghost var slots1, met := slots, Met(old(slots), old(rank), old(slots)[Client(h)], t);
      EndNotHeld(h, ids, s);
      PathSole(slots, rank, h, ids, s, t);
      assert found ==> slots == slots[s := t];
      hide Walking, Path, Leads, Stripped, SharedOn, Meets, OthersKept, Met, AllStand, Standing;
      if found {
        Undone(multiset{}, t);
        if t.Impl? {
          AppearsTwice(t.id, s, m);
        }
        Drop(t, m);
      } else {
        Link(h, ids, s, t, multiset{});
      }
      AllStandStill(slots, slots1, actions, old(refs), met, ids);
      LeadsFrom(slots, h, ids);
    }

    lemma EndNotHeld(h: nat, ids: seq<Id>, s: Slot)
      requires s == Spot(h, ids, |ids|)
      ensures !s.Held?
    {
      SpotIs(h, ids, |ids|);
    }

    lemma AppearsTwice(x: Id, s: Slot, moving: multiset<Target>)
      requires Inv(moving) && s in slots && slots[s] == Impl(x) && Impl(x) in moving
      ensures x in refs && refs[x] > 1
    {
      NamedTwice(slots, refs, moving, x, s);
    }

    // A moving target becomes the end of the way; the ranks on the way are raised
    // above it.
    method Link(h: nat, ghost ids: seq<Id>, s: Slot, t: Target, ghost moving: multiset<Target>)
      requires Inv(moving + multiset{t}) && Path(slots, rank, h, ids) && s == Spot(h, ids, |ids|)
      requires slots[s] == Empty && (t.Impl? ==> t.id !in ids)
      modifies this`slots, this`rank
      ensures Inv(moving) && slots == old(slots)[s := t]
    {
      ghost var up := RaiseAbove(moving + multiset{t}, h, ids, s, t);
      hide Store.Inv, Raised, Path, Falls;
      Rerank(Raised(rank, ids, up), moving + multiset{t});
      Settle(s, t, moving);
    }

    ghost method Rerank(rank': map<Id, real>, moving: multiset<Target>)
      requires Inv(moving) && Falls(slots, rank') && rank'.Keys == rank.Keys
      modifies this`rank
      ensures Inv(moving) && rank == rank'
    {
      hide Shape, Counted, Conserved, Falls;
      rank := rank';
    }

    // The last deleters of the clients go, one after another.
    method Finish(hs: seq<nat>)
      requires Inv(multiset{}) && forall h :: Client(h) in slots <==> h in hs
      requires forall j, k :: 0 <= j < k < |hs| ==> hs[j] != hs[k]
      modifies this`slots, this`refs, this`actions, this`fired, this`rank
      ensures slots == map[] && refs == map[] && old(fired) <= fired
      ensures multiset(fired) == created
    {
      hide Store.Inv;
      for k := 0 to |hs|
        invariant Inv(multiset{}) && old(fired) <= fired
        invariant forall h {:trigger Client(h)} :: Client(h) in slots <==> h in hs[k..]
      {
        Destroy(hs[k]);
      }
      AllGone();
    }

    // ----- What holds over every run -----

    // When the last deleter of the clients has gone, nothing is left, and every
    // action has run exactly as often as it was handed in.
    lemma AllGone()
      requires Inv(multiset{}) && forall h :: Client(h) !in slots
      ensures slots == map[] && refs == map[] && multiset(fired) == created
    {
      if refs.Keys != {} {
        InUse(multiset{}, 0);
        var i := Highest(refs.Keys, rank);
        var s := Namer(i);
      }
      Nothing();
      forall a: Action
        ensures created[a] == multiset(fired)[a]
      {
        assert Naming(slots, Object(a)) == {} && Carrying(actions, a) == {};
      }
    }

    lemma Nothing()
      requires Inv(multiset{}) && refs.Keys == {} && forall h :: Client(h) !in slots
      ensures slots == map[] && actions == map[]
    {
      forall s
        ensures s !in slots
      {
        if s in slots {
          Placed(multiset{}, s);
        }
      }
    }

    // Some deleter object names an impl in use.
    lemma Namer(i: Id) returns (s: Slot)
      requires Inv(multiset{}) && i in refs
      ensures s in slots && slots[s] == Impl(i)
      ensures i in rank && (!s.Client? ==> s.i in refs && s.i in rank && rank[i] < rank[s.i])
    {
      assert refs[i] == |Naming(slots, Impl(i))| > 0;
      s :| s in Naming(slots, Impl(i));
      Placed(multiset{}, s);
    }

    // An action handed in once has run exactly when no deleter is left that would
    // run it.
    lemma FiredWhenUnheld(a: Action)
      requires Inv(multiset{}) && created[a] == 1
      ensures a in fired <==>
        (forall i :: i in actions ==> actions[i] != Some(a)) && (forall s :: s in slots ==> slots[s] != Object(a))
    {
      assert a in fired <==> multiset(fired)[a] > 0;
      Unnamed(slots, multiset{}, Object(a));
      NotCarried(actions, a);
    }

    // An impl is in use exactly when a client's deleter leads to it.
    lemma InUseIffReached(i: Id)
      requires Inv(multiset{})
      ensures i in refs <==> exists n: nat :: Reached(slots, i, n)
    {
      if i in refs {
        InUse(multiset{}, i);
        var n := Root(i, set j | j in refs && rank[j] > rank[i]);
        assert Reached(slots, i, n);
      }
      forall n: nat | Reached(slots, i, n)
        ensures i in refs
      {
        var s :| s in slots && slots[s] == Impl(i);
        Placed(multiset{}, s);
      }
    }

    lemma {:induction false} Root(i: Id, above: set<Id>) returns (n: nat)
      requires Inv(multiset{}) && i in refs && refs.Keys == rank.Keys
      requires above == set j | j in refs && rank[j] > rank[i]
      ensures Reached(slots, i, n)
      decreases above
    {
      var s := Namer(i);
      InUse(multiset{}, i);
      hide Store.Inv;
      n := 0;
      if !s.Client? {
        assert s.i in above;
        var higher := set j | j in refs && rank[j] > rank[s.i];
        assert s.i !in higher && higher <= above;
        n := Root(s.i, higher);
        n := n + 1;
      }
      assert Reached(slots, i, n) by {
        assert slots[s] == Impl(i);
      }
    }

    // Ranks on the way that are above that of t.
    lemma RaiseAbove(moving: multiset<Target>, h: nat, ids: seq<Id>, s: Slot, t: Target) returns (up: real)
      requires Inv(moving) && t in moving && Path(slots, rank, h, ids) && s == Spot(h, ids, |ids|)
      requires t.Impl? ==> t.id !in ids
      ensures Falls(slots, Raised(rank, ids, up)) && Raised(rank, ids, up).Keys == rank.Keys
      ensures t.Impl? && !s.Client? ==>
        t.id in rank && s.i in rank && Raised(rank, ids, up)[t.id] < Raised(rank, ids, up)[s.i]
    {
      SpotIs(h, ids, |ids|);
      Placed(moving, s);
      InUse(moving, if t.Impl? then t.id else 0);
      up := if t.Impl? && !s.Client? && rank[s.i] <= rank[t.id] then rank[t.id] - rank[s.i] + 1.0 else 0.0;
      RaiseFalls(slots, rank, h, ids, up);
    }

    // When the clients name x only, and x has no next deleter, an action that is
    // not the one of x has run.
    lemma SoleSurvivor(x: Id)
      requires Inv(multiset{}) && created[1] == 1
      requires forall h {:trigger Client(h)} :: Client(h) in slots ==>
        slots[Client(h)] == Empty || slots[Client(h)] == Impl(x)
      requires x in refs && x in actions && actions[x] == Some(2)
      requires Next(x) in slots && slots[Next(x)] == Empty && Held(x) !in slots
      ensures 1 in fired
    {
      FiredWhenUnheld(1);
      InUse(multiset{}, x);
      forall i | i in refs
        ensures i == x
      {
        InUseIffReached(i);
        var n: nat :| Reached(slots, i, n);
        OnlyX(x, i, n);
      }
      forall s | s in slots
        ensures slots[s] != Object(1)
      {
        Placed(multiset{}, s);
        assert s.Client? ==> s == Client(s.h);
      }
    }

    lemma {:induction false} OnlyX(x: Id, i: Id, n: nat)
      requires forall h {:trigger Client(h)} :: Client(h) in slots ==>
        slots[Client(h)] == Empty || slots[Client(h)] == Impl(x)
      requires Next(x) in slots && slots[Next(x)] == Empty && Held(x) !in slots
      requires Reached(slots, i, n)
      ensures i == x
      decreases n
    {
      var s :| s in slots && slots[s] == Impl(i) &&
        (if n == 0 then s.Client? else !s.Client? && Reached(slots, s.i, n - 1));
      if n == 0 {
        assert s == Client(s.h);
      } else {
        OnlyX(x, s.i, n - 1);
      }
    }

    // Every impl's next deleter is in use, and of lower rank.
    lemma Orderly(moving: multiset<Target>)
      requires Inv(moving)
      ensures Orders(slots, refs, rank)
    {
    }
  }

  // Departure: deleter x with a next deleter is shared, and then something is
  // appended to one of the two.  When that one goes, action 1 of the next deleter
  // runs although the other is still there.
  method SharerLosesNext() returns (s: Store, x: Id)
    ensures s.Inv(multiset{}) && Client(3) in s.slots && s.slots[Client(3)] == Impl(x)
    ensures 1 in s.fired
  {
    s, x := SharedWithNext();
    hide Store.Inv, OwnChain, Unwound;
    s.InUse(multiset{}, x);
    assert x in SharedOn(s.slots, s.refs, s.rank, s.slots[Client(2)], s.slots[Client(4)]);
    var ids := s.Append(2, 4);
    assert Next(x) in s.slots && s.slots[Next(x)] == Empty && Held(x) !in s.slots;
    s.Destroy(2);
    s.Placed(multiset{}, Client(3));
    s.InUse(multiset{}, x);
    s.SoleSurvivor(x);
  }

  method SharedWithNext() returns (s: Store, x: Id)
    ensures fresh(s) && s.Inv(multiset{})
    ensures forall h {:trigger Client(h)} :: Client(h) in s.slots <==> h in {0, 2, 3, 4}
    ensures s.slots[Client(0)] == Empty && s.slots[Client(2)] == s.slots[Client(3)] == Impl(x)
    ensures s.slots[Client(4)] == Object(3)
    ensures Next(x) in s.slots && s.slots[Next(x)] == Object(1) && Held(x) !in s.slots
    ensures s.refs == map[x := 2] && s.actions == map[x := Some(2)] && s.created == multiset{1, 2, 3}
    ensures s.fired == []
  {
    s := new Store();
    hide Store.Inv;
    s.MakeFree(0, Some(1));
    x := s.Make(2, 0, 2);
    s.Share(2, 3);
    s.MakeFree(4, Some(3));
  }

  // An impl's own action, 2, runs before that of its next deleter, 1.
  method OwnActionFirst() returns (s: Store)
    ensures s.Inv(multiset{}) && s.fired == [2, 1]
  {
    s := new Store();
    hide Store.Inv, Unwound;
    s.MakeFree(0, Some(1));
    var x := s.Make(2, 0, 2);
    ghost var slots, refs, actions, fired := s.slots - {Client(2)}, s.refs, s.actions, s.fired;
    s.Destroy(2);
    OneThenObject(slots, refs, actions, x, 1);
    UnwoundRuns(s.slots, s.refs, s.actions, s.fired, slots, refs, actions, fired, Impl(x));
  }

  lemma UnwoundRuns(slots': map<Slot, Target>, refs': map<Id, nat>, actions': map<Id, Option<Action>>,
                    fired': seq<Action>, slots: map<Slot, Target>, refs: map<Id, nat>,
                    actions: map<Id, Option<Action>>, fired: seq<Action>, t: Target)
    requires Unwound(slots', refs', actions', fired', slots, refs, actions, fired, t)
    ensures fired' == fired + Runs(actions, Unwind(slots, refs, t).0)
  {
  }

  lemma OneThenObject(slots: map<Slot, Target>, refs: map<Id, nat>, actions: map<Id, Option<Action>>, x: Id, a: Action)
    requires x in refs && refs[x] == 1 && HeldOf(slots, x) == Empty && NextOf(slots, x) == Object(a)
    ensures Runs(actions, Unwind(slots, refs, Impl(x)).0) == ActionOf(actions, Impl(x)) + [a]
  {
    assert Unwind(slots, refs - {x}, Empty) == ([], refs - {x});
    assert Unwind(slots, refs, Impl(x)).0 == [Impl(x)] + [Object(a)];
    RunsJoin(actions, [Impl(x)], [Object(a)]);
    LastRun(actions, [Impl(x)]);
    LastRun(actions, [Object(a)]);
  }

  // Deleter x, with action 2, and action 1 in its next deleter, is shared, and
  // action 3 is appended to one of the two.  When both have gone, the actions have
  // run in the order of the chain: that of the shared impl first, although a
  // wrapper carries it, and the appended one last.
  method AppendedActionLast() returns (s: Store)
    ensures s.Inv(multiset{}) && s.fired == [2, 1, 3]
  {
    var x;
    s, x := SharedWithNext();
    hide Store.Inv, Unwound, Stripped;
    s.InUse(multiset{}, x);
    MeetsTwo(s.slots, s.refs, s.rank, x);
    hide Met, Meets, SharedOn;
    ghost var slots0, refs0 := s.slots, s.refs;
    var ids := s.Append(2, 4);
    s.InUse(multiset{}, x);
    WrappedTwo(s.slots, s.refs, s.actions, slots0, refs0, ids, x);
    hide Leads, OwnChain, AllStand;
    ghost var slots1, refs1, actions1 := s.slots, s.refs, s.actions;
    s.Destroy(3);
    NameGone(s.slots, s.refs, s.actions, s.fired, slots1, refs1, actions1, [], ids, x);
    ghost var slots2, refs2, actions2, fired2 := s.slots, s.refs, s.actions, s.fired;
    s.Destroy(2);
    BothGone(s.slots, s.refs, s.actions, s.fired, slots2, refs2, actions2, ids, x);
  }

  // What append(d) meets then, and what is shared of it.
  lemma MeetsTwo(slots: map<Slot, Target>, refs: map<Id, nat>, rank: map<Id, real>, x: Id)
    requires x in refs && refs[x] == 2 && x in rank && Next(x) in slots && slots[Next(x)] == Object(1)
    ensures Met(slots, rank, Impl(x), Object(3)) == [Impl(x), Object(1)]
    ensures !Meets(slots, rank, Impl(x), Object(3))
    ensures SharedOn(slots, refs, rank, Impl(x), Object(3)) == {x}
  {
    assert Met(slots, rank, Object(1), Object(3)) == [Object(1)];
    assert SharedOn(slots, refs, rank, Object(1), Object(3)) == {};
  }

  // A wrapper w that carries x, and then an impl v with action 1 before the
  // appended deleter.
  ghost predicate Wrapping(slots: map<Slot, Target>, refs: map<Id, nat>, actions: map<Id, Option<Action>>,
                           ids: seq<Id>, x: Id)
  {
    && |ids| == 2 && ids[0] != ids[1] && x !in ids && {x, ids[0], ids[1]} <= refs.Keys <= actions.Keys
    && refs[ids[0]] == 1 && refs[ids[1]] == 1
    && actions[ids[0]] == None && actions[ids[1]] == Some(1) && actions[x] == Some(2)
    && HeldOf(slots, ids[0]) == Impl(x) && NextOf(slots, ids[0]) == Impl(ids[1])
    && HeldOf(slots, ids[1]) == Empty && NextOf(slots, ids[1]) == Object(3)
    && HeldOf(slots, x) == Empty && NextOf(slots, x) == Empty
    && Client(2) in slots && slots[Client(2)] == Impl(ids[0])
  }

  lemma WrappedTwo(slots: map<Slot, Target>, refs: map<Id, nat>, actions: map<Id, Option<Action>>,
                   slots0: map<Slot, Target>, refs0: map<Id, nat>, ids: seq<Id>, x: Id)
    requires refs0 == map[x := 2] && x in refs && refs[x] == 2 && Held(x) !in slots0
    requires Leads(slots, 2, ids) && OwnChain(slots, refs, ids, Object(3)) && refs.Keys <= actions.Keys
    requires AllStand(slots, actions, refs0, [Impl(x), Object(1)], ids) && x in actions && actions[x] == Some(2)
    requires Stripped(slots, slots0, refs0, ids, {x})
    ensures Wrapping(slots, refs, actions, ids, x)
  {
    assert StandsFor(slots, actions, refs0, Impl(x), ids[0]);
    assert StandsFor(slots, actions, refs0, Object(1), ids[1]);
    assert Spot(2, ids, 0) in slots;
    hide AllStand;
  }

  lemma NameGone(slots': map<Slot, Target>, refs': map<Id, nat>, actions': map<Id, Option<Action>>,
                 fired': seq<Action>, slots: map<Slot, Target>, refs: map<Id, nat>,
                 actions: map<Id, Option<Action>>, fired: seq<Action>, ids: seq<Id>, x: Id)
    requires Wrapping(slots, refs, actions, ids, x) && refs[x] == 2
    requires Unwound(slots', refs', actions', fired', slots - {Client(3)}, refs, actions, fired, Impl(x))
    ensures Wrapping(slots', refs', actions', ids, x) && refs'[x] == 1 && fired' == fired
  {
  }

  lemma BothGone(slots': map<Slot, Target>, refs': map<Id, nat>, actions': map<Id, Option<Action>>,
                 fired': seq<Action>, slots: map<Slot, Target>, refs: map<Id, nat>,
                 actions: map<Id, Option<Action>>, ids: seq<Id>, x: Id)
    requires Wrapping(slots, refs, actions, ids, x) && refs[x] == 1
    requires Unwound(slots', refs', actions', fired', slots - {Client(2)}, refs, actions, [], Impl(ids[0]))
    ensures fired' == [2, 1, 3]
  {
    var slots1, w, v := slots - {Client(2)}, ids[0], ids[1];
    var r := refs - {w};
    assert Unwind(slots1, r - {x}, Empty) == ([], r - {x});
    assert HeldOf(slots1, x) == Empty && NextOf(slots1, x) == Empty && x in r && r[x] == 1;
    assert Unwind(slots1, r, Impl(x)).0 == [Impl(x)] && Unwind(slots1, r, Impl(x)).1 == r - {x};
    assert Unwind(slots1, refs, Impl(w)).0 == [Impl(w), Impl(x)] + Unwind(slots1, r - {x}, Impl(v)).0;
    OneThenObject(slots1, r - {x}, actions, v, 3);
    var rest := Unwind(slots1, r - {x}, Impl(v)).0;
    hide Unwind;
    RunsJoin(actions, [Impl(w), Impl(x)], rest);
    assert [Impl(w), Impl(x)] == [Impl(w)] + [Impl(x)];
    RunsJoin(actions, [Impl(w)], [Impl(x)]);
    LastRun(actions, [Impl(w)]);
    LastRun(actions, [Impl(x)]);
  }
}
