// The ownership graph of deleters as values: who names what, what is counted and
// conserved, and the way that append walks.
module DeleterGraph {
  import opened Options

  type Action = nat
  type Id = nat

  // Every deleter object there is: a client's variable, the next member of an
  // impl, or the deleter that a wrapping object_deleter_impl carries.
  datatype Slot = Client(h: nat) | Next(i: Id) | Held(i: Id)

  datatype Target = Empty | Object(a: Action) | Impl(id: Id)

  // The deleter objects whose target is t.
  ghost function Naming(slots: map<Slot, Target>, t: Target): set<Slot> {
    set s | s in slots && slots[s] == t
  }

  ghost function Carrying(actions: map<Id, Option<Action>>, a: Action): set<Id> {
    set i | i in actions && actions[i] == Some(a)
  }

  // How many deleter objects have the target t, counting those on their way from
  // one place to another.
  ghost function Total(slots: map<Slot, Target>, moving: multiset<Target>, t: Target): nat {
    |Naming(slots, t)| + moving[t]
  }

  ghost function Carriers(actions: map<Id, Option<Action>>, a: Action): nat {
    |Carrying(actions, a)|
  }

  lemma SetSlot(slots: map<Slot, Target>, s: Slot, t: Target, moving: multiset<Target>, u: Target)
    ensures Total(slots[s := t], moving, u) ==
      Total(slots, moving, u) + (if u == t then 1 else 0) - (if s in slots && slots[s] == u then 1 else 0)
  {
    var x, y := Naming(slots, u), Naming(slots[s := t], u);
    assert y - {s} == x - {s};
    assert s in x <==> s in slots && slots[s] == u;
    assert s in y <==> u == t;
    SameBut(x, y, s);
  }

  lemma DropSlot(slots: map<Slot, Target>, s: Slot, moving: multiset<Target>, u: Target)
    ensures Total(slots - {s}, moving, u) ==
      Total(slots, moving, u) - (if s in slots && slots[s] == u then 1 else 0)
  {
    var x, y := Naming(slots, u), Naming(slots - {s}, u);
    assert y - {s} == x - {s};
    SameBut(x, y, s);
  }

  lemma SetAction(actions: map<Id, Option<Action>>, i: Id, o: Option<Action>, a: Action)
    requires i !in actions
    ensures Carriers(actions[i := o], a) == Carriers(actions, a) + if o == Some(a) then 1 else 0
  {
    var x, y := Carrying(actions, a), Carrying(actions[i := o], a);
    assert y - {i} == x - {i};
    SameBut(x, y, i);
  }

  lemma DropAction(actions: map<Id, Option<Action>>, i: Id, a: Action)
    requires i in actions
    ensures Carriers(actions, a) == Carriers(actions - {i}, a) + if actions[i] == Some(a) then 1 else 0
  {
    var x, y := Carrying(actions, a), Carrying(actions - {i}, a);
    assert y - {i} == x - {i};
    SameBut(x, y, i);
  }

  lemma SameBut<T>(x: set<T>, y: set<T>, s: T)
    requires x - {s} == y - {s}
    ensures |y| - (if s in y then 1 else 0) == |x| - (if s in x then 1 else 0)
  {
    assert x == if s in x then (x - {s}) + {s} else x - {s};
    assert y == if s in y then (y - {s}) + {s} else y - {s};
  }

  // Ranks fall along every edge from an impl, so the graph has no cycle.
  ghost predicate Falls(slots: map<Slot, Target>, rank: map<Id, real>) {
    forall s :: s in slots && !s.Client? && slots[s].Impl? ==>
      s.i in rank && slots[s].id in rank && rank[slots[s].id] < rank[s.i]
  }

  // Impls in use have a next member; a target that is named is in use.
  ghost predicate Shape(slots: map<Slot, Target>, ids: set<Id>, moving: multiset<Target>) {
    && (forall i {:trigger Next(i)} :: Next(i) in slots <==> i in ids)
    && (forall i {:trigger Held(i)} :: Held(i) in slots ==> i in ids)
    && (forall s :: s in slots && slots[s].Impl? ==> slots[s].id in ids)
    && (forall i :: Impl(i) in moving ==> i in ids)
  }

  // refs is the number of deleter objects that name the impl.
  ghost predicate Counted(slots: map<Slot, Target>, refs: map<Id, nat>, moving: multiset<Target>) {
    forall i :: i in refs ==> refs[i] == Total(slots, moving, Impl(i)) > 0
  }

  // Every action was fired or is waiting in one place.
  ghost predicate Conserved(slots: map<Slot, Target>, actions: map<Id, Option<Action>>, moving: multiset<Target>,
                            fired: seq<Action>, created: multiset<Action>)
  {
    forall a: Action :: created[a] ==
      multiset(fired)[a] + Carriers(actions, a) + Total(slots, moving, Object(a))
  }

  // The targets in deleter objects and on their way are the same but for Empty.
  ghost predicate SameTotals(slots: map<Slot, Target>, moving: multiset<Target>,
                             slots': map<Slot, Target>, moving': multiset<Target>)
  {
    forall u :: u != Empty ==> Total(slots', moving', u) == Total(slots, moving, u)
  }

  lemma TakeTotals(slots: map<Slot, Target>, s: Slot, moving: multiset<Target>)
    requires s in slots
    ensures SameTotals(slots, moving, slots[s := Empty], moving + multiset{slots[s]})
  {
    hide Total;
    forall u | u != Empty
      ensures Total(slots[s := Empty], moving + multiset{slots[s]}, u) == Total(slots, moving, u)
    {
      SetSlot(slots, s, Empty, moving, u);
      Arrives(slots[s := Empty], moving, slots[s], u);
    }
  }

  lemma PlaceTotals(slots: map<Slot, Target>, s: Slot, t: Target, moving: multiset<Target>)
    requires t in moving && (s in slots ==> slots[s] == Empty)
    ensures SameTotals(slots, moving, slots[s := t], moving - multiset{t})
  {
    hide Total;
    forall u | u != Empty
      ensures Total(slots[s := t], moving - multiset{t}, u) == Total(slots, moving, u)
    {
      SetSlot(slots, s, t, moving, u);
      Leaves(slots[s := t], moving, t, u);
    }
  }

  lemma SameTotalsKeep(slots: map<Slot, Target>, moving: multiset<Target>,
                       slots': map<Slot, Target>, moving': multiset<Target>, refs: map<Id, nat>,
                       actions: map<Id, Option<Action>>, fired: seq<Action>, created: multiset<Action>)
    requires SameTotals(slots, moving, slots', moving')
    ensures Counted(slots, refs, moving) ==> Counted(slots', refs, moving')
    ensures Conserved(slots, actions, moving, fired, created) ==> Conserved(slots', actions, moving', fired, created)
  {
    hide Total;
  }

  // The ranks of ids raised.
  ghost function Raised(rank: map<Id, real>, ids: seq<Id>, up: real): map<Id, real> {
    map i | i in rank :: if i in ids then rank[i] + up else rank[i]
  }

  lemma RaiseFalls(slots: map<Slot, Target>, rank: map<Id, real>, h: nat, ids: seq<Id>, up: real)
    requires Path(slots, rank, h, ids) && Falls(slots, rank) && up >= 0.0
    ensures Falls(slots, Raised(rank, ids, up))
  {
    forall s | s in slots && !s.Client? && slots[s].Impl?
      ensures Raised(rank, ids, up)[slots[s].id] < Raised(rank, ids, up)[s.i]
    {
      if slots[s].id in ids {
        var k :| 0 <= k < |ids| && ids[k] == slots[s].id;
        assert s == Spot(h, ids, k);
        SpotIs(h, ids, k);
      }
    }
  }

  // What became of the members of the impls: those in lost lost their next
  // deleters, and the others off the way ids keep theirs.  The impls on the way
  // that there were before had one name.
  ghost predicate Stripped(slots': map<Slot, Target>, slots: map<Slot, Target>, refs: map<Id, nat>,
                           ids: seq<Id>, lost: set<Id>)
  {
    && HeldKept(slots', slots, refs)
    && (forall k :: 0 <= k < |ids| && ids[k] in refs ==> refs[ids[k]] == 1)
    && forall i {:trigger Next(i)} :: i in refs && i !in ids ==>
         Next(i) in slots && Next(i) in slots' && slots'[Next(i)] == if i in lost then Empty else slots[Next(i)]
  }

  // append(d) meets d itself from the target t on.
  ghost predicate Meets(slots: map<Slot, Target>, rank: map<Id, real>, t: Target, d: Target)
    decreases Below(rank, t)
  {
    t == d || (t.Impl? && Ordered(slots, rank, t.id) &&
      (assert t.id in Below(rank, t) && t.id !in Below(rank, slots[Next(t.id)]);
       Meets(slots, rank, slots[Next(t.id)], d)))
  }

  // The targets that append(d) meets from the target t on, before d itself.
  ghost function Met(slots: map<Slot, Target>, rank: map<Id, real>, t: Target, d: Target): seq<Target>
    decreases Below(rank, t)
  {
    if t == d || t == Empty then []
    else if !t.Impl? || !Ordered(slots, rank, t.id) then [t]
    else
      assert t.id in Below(rank, t) && t.id !in Below(rank, slots[Next(t.id)]);
      [t] + Met(slots, rank, slots[Next(t.id)], d)
  }

  // Impl v has come to stand for the target t: the impl itself when it had one
  // name, else a new impl that carries what t names, or has the plain object's
  // action.
  ghost predicate StandsFor(slots': map<Slot, Target>, actions': map<Id, Option<Action>>, refs: map<Id, nat>,
                            t: Target, v: Id)
  {
    match t
    case Empty => false
    case Object(a) => v !in refs && Held(v) !in slots' && v in actions' && actions'[v] == Some(a)
    case Impl(x) =>
      if x in refs && refs[x] == 1 then v == x
      else v !in refs && Held(v) in slots' && slots'[Held(v)] == t && v in actions' && actions'[v] == None
  }

  // The impls on the way stand for the targets met, and from t' on there are more.
  ghost predicate Standing(slots': map<Slot, Target>, actions': map<Id, Option<Action>>, slots: map<Slot, Target>,
                           refs: map<Id, nat>, rank: map<Id, real>, ids: seq<Id>, t: Target, t': Target, d: Target)
  {
    var met := Met(slots, rank, t, d);
    && |ids| <= |met| && met[|ids|..] == Met(slots, rank, t', d)
    && forall k :: 0 <= k < |ids| ==> StandsFor(slots', actions', refs, met[k], ids[k])
  }

  // At the end of the way there is an impl for each target met.
  ghost predicate AllStand(slots': map<Slot, Target>, actions': map<Id, Option<Action>>, refs: map<Id, nat>,
                           met: seq<Target>, ids: seq<Id>)
  {
    |ids| == |met| && forall k :: 0 <= k < |ids| ==> StandsFor(slots', actions', refs, met[k], ids[k])
  }

  lemma StandingEnds(slots': map<Slot, Target>, actions': map<Id, Option<Action>>, slots: map<Slot, Target>,
                     refs: map<Id, nat>, rank: map<Id, real>, ids: seq<Id>, t: Target, t': Target, d: Target)
    requires Standing(slots', actions', slots, refs, rank, ids, t, t', d) && (t' == d || t' == Empty)
    ensures AllStand(slots', actions', refs, Met(slots, rank, t, d), ids)
  {
  }

  // Only what impls carry and their actions matter for that.
  lemma AllStandStill(slots'': map<Slot, Target>, slots': map<Slot, Target>, actions': map<Id, Option<Action>>,
                      refs: map<Id, nat>, met: seq<Target>, ids: seq<Id>)
    requires AllStand(slots', actions', refs, met, ids)
    requires forall i {:trigger Held(i)} ::
      (Held(i) in slots'' <==> Held(i) in slots') && (Held(i) in slots' ==> slots''[Held(i)] == slots'[Held(i)])
    ensures AllStand(slots'', actions', refs, met, ids)
  {
    forall k | 0 <= k < |ids|
      ensures StandsFor(slots'', actions', refs, met[k], ids[k])
    {
      assert StandsFor(slots', actions', refs, met[k], ids[k]);
    }
  }

  lemma MetNext(slots: map<Slot, Target>, rank: map<Id, real>, t: Target, t': Target, d: Target)
    requires t != d && t != Empty && FollowsOn(t', slots, t) && (t.Impl? ==> Ordered(slots, rank, t.id))
    ensures Met(slots, rank, t, d) == [t] + Met(slots, rank, t', d)
  {
  }

  lemma {:induction false} MetNexts(slots: map<Slot, Target>, slots': map<Slot, Target>, rank: map<Id, real>,
                                    t: Target, d: Target)
    requires forall i {:trigger Next(i)} ::
      (Next(i) in slots <==> Next(i) in slots') && (Next(i) in slots ==> slots'[Next(i)] == slots[Next(i)])
    ensures Met(slots', rank, t, d) == Met(slots, rank, t, d)
    decreases Below(rank, t)
  {
    if t != d && t.Impl? && Ordered(slots, rank, t.id) {
      assert t.id in Below(rank, t) && t.id !in Below(rank, slots[Next(t.id)]);
      MetNexts(slots, slots', rank, slots[Next(t.id)], d);
    }
  }

  // One more impl on the way.
  lemma StandsOn(slots: map<Slot, Target>, actions: map<Id, Option<Action>>, refs: map<Id, nat>,
                 slots': map<Slot, Target>, actions': map<Id, Option<Action>>,
                 slots0: map<Slot, Target>, refs0: map<Id, nat>, rank0: map<Id, real>,
                 ids: seq<Id>, t0: Target, t: Target, t': Target, d: Target, v: Id)
    requires Standing(slots, actions, slots0, refs0, rank0, ids, t0, t, d)
    requires t != d && t != Empty && FollowsOn(t', slots0, t) && (t.Impl? ==> Ordered(slots0, rank0, t.id))
    requires forall k :: 0 <= k < |ids| ==> ids[k] in refs
    requires HeldKept(slots', slots, refs) && ActionsKept(actions', actions)
    requires StandsFor(slots', actions', refs0, t, v)
    ensures Standing(slots', actions', slots0, refs0, rank0, ids + [v], t0, t', d)
  {
    MetNext(slots0, rank0, t, t', d);
    hide Met, FollowsOn, Ordered;
    var met := Met(slots0, rank0, t0, d);
    assert met[|ids|] == t && met[|ids| + 1..] == met[|ids|..][1..];
    forall k | 0 <= k < |ids| + 1
      ensures StandsFor(slots', actions', refs0, met[k], (ids + [v])[k])
    {
      if k < |ids| {
        assert StandsFor(slots, actions, refs0, met[k], ids[k]) && ids[k] in refs;
      }
    }
  }

  // A client's deleter leads to impl i, by n deleter objects of other impls.
  ghost predicate Reached(slots: map<Slot, Target>, i: Id, n: nat)
    decreases n
  {
    exists s :: s in slots && slots[s] == Impl(i) &&
      (if n == 0 then s.Client? else !s.Client? && Reached(slots, s.i, n - 1))
  }

  lemma NotCarried(actions: map<Id, Option<Action>>, a: Action)
    ensures Carriers(actions, a) == 0 <==> forall i :: i in actions ==> actions[i] != Some(a)
  {
    if i :| i in actions && actions[i] == Some(a) {
      assert i in Carrying(actions, a);
    } else {
      assert Carrying(actions, a) == {};
    }
  }

  lemma {:induction false} Highest(ids: set<Id>, rank: map<Id, real>) returns (i: Id)
    requires ids != {} && ids <= rank.Keys
    ensures i in ids && forall j :: j in ids ==> rank[j] <= rank[i]
    decreases ids
  {
    i :| i in ids;
    if ids != {i} {
      var k := Highest(ids - {i}, rank);
      if rank[k] > rank[i] {
        i := k;
      }
    }
  }

  lemma {:induction false} SharedAreShared(slots: map<Slot, Target>, refs: map<Id, nat>, rank: map<Id, real>,
                                           t: Target, d: Target)
    ensures forall i :: i in SharedOn(slots, refs, rank, t, d) ==> i in refs && refs[i] != 1
    decreases Below(rank, t)
  {
    if t != d && t.Impl? && Ordered(slots, rank, t.id) {
      assert t.id in Below(rank, t) && t.id !in Below(rank, slots[Next(t.id)]);
      SharedAreShared(slots, refs, rank, slots[Next(t.id)], d);
    }
  }

  // append leaves to the other sharers what they share exactly when no shared impl
  // that it meets has a next deleter.
  lemma SharersKeepNext(slots': map<Slot, Target>, slots: map<Slot, Target>, refs: map<Id, nat>, rank: map<Id, real>,
                        t: Target, d: Target, ids: seq<Id>)
    requires Stripped(slots', slots, refs, ids, SharedOn(slots, refs, rank, t, d))
    ensures (forall i :: i in refs && refs[i] != 1 ==> slots'[Next(i)] == slots[Next(i)])
       <==> (forall i :: i in SharedOn(slots, refs, rank, t, d) ==> Next(i) in slots && slots[Next(i)] == Empty)
  {
    SharedAreShared(slots, refs, rank, t, d);
    hide SharedOn;
    assert forall i {:trigger Next(i)} :: i in SharedOn(slots, refs, rank, t, d) ==>
      Next(i) in slots && slots'[Next(i)] == Empty;
  }

  lemma WalkEnds(slots: map<Slot, Target>, refs: map<Id, nat>, rank: map<Id, real>, slots0: map<Slot, Target>,
                 refs0: map<Id, nat>, rank0: map<Id, real>, h: nat, ids: seq<Id>, d: Target, lost: set<Id>)
    requires Path(slots, rank, h, ids) && Walking(slots, refs, rank, slots0, refs0, rank0, h, ids, d, lost)
    requires var t := slots[Spot(h, ids, |ids|)]; t == Empty || t == d
    ensures d.Impl? ==> d.id !in ids
    ensures var slots' := slots[Spot(h, ids, |ids|) := d];
      && OthersKept(slots', slots0, {h}) && Leads(slots', h, ids)
      && Stripped(slots', slots0, refs0, ids, SharedOn(slots0, refs0, rank0, slots0[Client(h)], d))
    ensures d != Empty ==> (slots[Spot(h, ids, |ids|)] == d <==> Meets(slots0, rank0, slots0[Client(h)], d))
    ensures RefsKept(refs, refs0)
  {
    var s := Spot(h, ids, |ids|);
    assert lost == SharedOn(slots0, refs0, rank0, slots0[Client(h)], d);
    SpotIs(h, ids, |ids|);
    forall k | 0 <= k < |ids|
      ensures Spot(h, ids, k) != s
    {
      EndIsNew(slots, rank, h, ids, k);
    }
    hide Spot, SharedOn;
  }

  // The state of append's walk: the way from h through ids, the impls that lost
  // their next deleters on it, and those that will.
  ghost predicate Walking(slots: map<Slot, Target>, refs: map<Id, nat>, rank: map<Id, real>,
                          slots0: map<Slot, Target>, refs0: map<Id, nat>, rank0: map<Id, real>,
                          h: nat, ids: seq<Id>, d: Target, lost: set<Id>)
  {
    var s := Spot(h, ids, |ids|);
    && s in slots && Client(h) in slots0
    && Orders(slots0, refs0, rank0)
    && Walked(slots, refs, rank, slots0, refs0, rank0, ids, slots[s], lost)
    && lost + SharedOn(slots0, refs0, rank0, slots[s], d) == SharedOn(slots0, refs0, rank0, slots0[Client(h)], d)
    && (d != Empty ==> (Meets(slots0, rank0, slots[s], d) <==> Meets(slots0, rank0, slots0[Client(h)], d)))
    && OthersKept(slots, slots0, {h})
    && (d.Impl? ==> d.id !in ids)
  }

  ghost predicate Orders(slots: map<Slot, Target>, refs: map<Id, nat>, rank: map<Id, real>) {
    && (forall i :: i in refs ==> Ordered(slots, rank, i))
    && (forall i {:trigger Next(i)} :: i in refs && Next(i) in slots && slots[Next(i)].Impl? ==>
      slots[Next(i)].id in refs)
  }

  lemma Starts(slots: map<Slot, Target>, refs: map<Id, nat>, rank: map<Id, real>, h: nat, d: Target)
    requires Client(h) in slots && (slots[Client(h)].Impl? ==> slots[Client(h)].id in refs) && Orders(slots, refs, rank)
    ensures Path(slots, rank, h, []) && Spot(h, [], 0) == Client(h)
    ensures Walking(slots, refs, rank, slots, refs, rank, h, [], d, {})
  {
    assert forall i {:trigger Next(i)} :: i in refs ==> Ordered(slots, rank, i);
  }

  lemma WalksOn(slots: map<Slot, Target>, refs: map<Id, nat>, rank: map<Id, real>,
                slots': map<Slot, Target>, refs': map<Id, nat>, rank': map<Id, real>,
                slots0: map<Slot, Target>, refs0: map<Id, nat>, rank0: map<Id, real>,
                h: nat, ids: seq<Id>, d: Target, lost: set<Id>, v: Id)
    requires Walking(slots, refs, rank, slots0, refs0, rank0, h, ids, d, lost)
    requires var t := slots[Spot(h, ids, |ids|)]; t != d && (t.Impl? ==> Ordered(slots0, rank0, t.id) && t.id !in ids)
    requires d.Impl? ==> d.id in refs
    requires RefsKept(refs', refs) && RanksKept(rank', rank)
    requires v in refs ==> slots[Spot(h, ids, |ids|)] == Impl(v) && refs[v] == 1
    requires Next(v) in slots' && FollowsOn(slots'[Next(v)], slots, slots[Spot(h, ids, |ids|)])
    requires Took(slots', slots, refs, Spot(h, ids, |ids|), Loses(refs, slots[Spot(h, ids, |ids|)]))
    requires OthersKept(slots', slots, {h})
    ensures Walking(slots', refs', rank', slots0, refs0, rank0, h, ids + [v], d,
                    lost + Loses(refs, slots[Spot(h, ids, |ids|)]))
  {
    var s := Spot(h, ids, |ids|);
    hide Spot, Took, FollowsOn, Walked, SharedOn, Meets, Loses, Ordered, RefsKept, RanksKept;
    WalkOn(slots, refs, rank, slots', refs', rank', slots0, refs0, rank0, h, ids, s, slots'[Next(v)], d, lost, v);
    SpotIs(h, ids + [v], |ids| + 1);
    OthersStill(slots', slots, slots0, h);
    hide OthersKept;
  }

  // The same for what the impls on the way stand for.
  lemma StandsNext(slots: map<Slot, Target>, refs: map<Id, nat>, rank: map<Id, real>, actions: map<Id, Option<Action>>,
                   slots': map<Slot, Target>, actions': map<Id, Option<Action>>,
                   slots0: map<Slot, Target>, refs0: map<Id, nat>, rank0: map<Id, real>,
                   h: nat, ids: seq<Id>, d: Target, lost: set<Id>, v: Id)
    requires Walking(slots, refs, rank, slots0, refs0, rank0, h, ids, d, lost)
    requires var t := slots[Spot(h, ids, |ids|)];
      && t != d && t != Empty && (t.Impl? ==> Ordered(slots0, rank0, t.id) && t.id !in ids)
      && Standing(slots, actions, slots0, refs0, rank0, ids, slots0[Client(h)], t, d)
      && StandsFor(slots', actions', refs, t, v)
      && Next(v) in slots' && FollowsOn(slots'[Next(v)], slots, t)
    requires forall k :: 0 <= k < |ids| ==> ids[k] in refs
    requires HeldKept(slots', slots, refs) && ActionsKept(actions', actions)
    ensures Standing(slots', actions', slots0, refs0, rank0, ids + [v], slots0[Client(h)], slots'[Next(v)], d)
  {
    var t := slots[Spot(h, ids, |ids|)];
    hide Spot, Met, SharedOn, Meets, Standing;
    if t.Impl? {
      assert slots[Next(t.id)] == slots0[Next(t.id)];
    }
    assert FollowsOn(slots'[Next(v)], slots0, t);
    assert StandsFor(slots', actions', refs0, t, v);
    StandsOn(slots, actions, refs, slots', actions', slots0, refs0, rank0, ids, slots0[Client(h)], t,
      slots'[Next(v)], d, v);
  }

  lemma ObjectStands(slots: map<Slot, Target>, slots': map<Slot, Target>, actions': map<Id, Option<Action>>,
                     refs: map<Id, nat>, s: Slot, v: Id)
    requires s in slots && slots[s].Object? && !s.Held? && Held(v) !in slots && v !in refs
    requires slots' == slots[s := Empty][Next(v) := Empty][s := Impl(v)]
    requires v in actions' && actions'[v] == Some(slots[s].a)
    ensures StandsFor(slots', actions', refs, slots[s], v)
  {
  }

  lemma WrapperStands(slots: map<Slot, Target>, slots': map<Slot, Target>, actions': map<Id, Option<Action>>,
                      refs: map<Id, nat>, rank: map<Id, real>, h: nat, s: Slot, x: Id, w: Id)
    requires BeforeWrapper(slots, rank, refs, h, s, x, w) && refs[x] != 1 && slots' == Wrapped(slots, s, x, w)
    requires w in actions' && actions'[w] == None
    ensures StandsFor(slots', actions', refs, slots[s], w)
  {
  }

  lemma OthersStill(slots': map<Slot, Target>, slots: map<Slot, Target>, slots0: map<Slot, Target>, h: nat)
    requires OthersKept(slots', slots, {h}) && OthersKept(slots, slots0, {h})
    ensures OthersKept(slots', slots0, {h})
  {
  }

  lemma NearerMeans(rank': map<Id, real>, t': Target, rank: map<Id, real>, t: Target)
    requires Nearer(rank', t', rank, t)
    ensures Below(rank', t') < Below(rank, t) || (Below(rank', t') == Below(rank, t) && t.Object? && !t'.Object?)
  {
  }

  // What the end of the way names is not on the way.
  lemma EndKnown(slots: map<Slot, Target>, refs: map<Id, nat>, rank: map<Id, real>, slots0: map<Slot, Target>,
                 refs0: map<Id, nat>, rank0: map<Id, real>, h: nat, ids: seq<Id>, d: Target, lost: set<Id>)
    requires Path(slots, rank, h, ids) && Walking(slots, refs, rank, slots0, refs0, rank0, h, ids, d, lost)
    ensures var t := slots[Spot(h, ids, |ids|)]; t.Impl? ==> Ordered(slots0, rank0, t.id) && t.id !in ids
  {
    var t := slots[Spot(h, ids, |ids|)];
    forall k | t.Impl? && 0 <= k < |ids|
      ensures ids[k] != t.id
    {
      EndIsNew(slots, rank, h, ids, k);
    }
  }

  // A target further down: of lower rank, or no plain object any more.
  ghost predicate Nearer(rank': map<Id, real>, t': Target, rank: map<Id, real>, t: Target) {
    Below(rank', t') < Below(rank, t) || (Below(rank', t') == Below(rank, t) && t.Object? && !t'.Object?)
  }

  ghost function Below(rank: map<Id, real>, t: Target): set<Id> {
    set i | i in rank && t.Impl? && t.id in rank && rank[i] <= rank[t.id]
  }

  // What follows a target that the walk has passed: the next deleter it had.
  ghost predicate FollowsOn(t': Target, slots: map<Slot, Target>, t: Target) {
    t' == if t.Impl? && Next(t.id) in slots then slots[Next(t.id)] else Empty
  }

  // Every impl has a next member.
  ghost predicate NextsIn(slots: map<Slot, Target>, refs: map<Id, nat>) {
    forall i {:trigger Next(i)} :: i in refs ==> Next(i) in slots
  }

  // The impls in refs carry what they did.
  ghost predicate HeldKept(slots': map<Slot, Target>, slots: map<Slot, Target>, refs: map<Id, nat>) {
    forall i {:trigger Held(i)} :: i in refs ==>
      (Held(i) in slots' <==> Held(i) in slots) && (Held(i) in slots ==> slots'[Held(i)] == slots[Held(i)])
  }

  // But for the deleter object s, the impls in refs keep their next deleters,
  // except those in lost, which have none any more.
  ghost predicate Took(slots': map<Slot, Target>, slots: map<Slot, Target>, refs: map<Id, nat>, s: Slot,
                       lost: set<Id>)
  {
    HeldKept(slots', slots, refs) &&
    forall i {:trigger Next(i)} :: i in refs && Next(i) != s ==>
      Next(i) in slots && Next(i) in slots' && slots'[Next(i)] == if i in lost then Empty else slots[Next(i)]
  }

  lemma TookHeld(slots': map<Slot, Target>, slots: map<Slot, Target>, refs: map<Id, nat>, s: Slot, lost: set<Id>)
    requires Took(slots', slots, refs, s, lost)
    ensures HeldKept(slots', slots, refs)
  {
  }

  // The impl that wrapping t empties: t is shared.
  ghost function Loses(refs: map<Id, nat>, t: Target): set<Id> {
    if t.Impl? && t.id in refs && refs[t.id] != 1 then {t.id} else {}
  }

  lemma TookObject(slots: map<Slot, Target>, refs: map<Id, nat>, s: Slot, v: Id)
    requires s in slots && !s.Held? && slots[s].Object? && NextsIn(slots, refs) && v !in refs
    ensures Took(slots[s := Empty][Next(v) := Empty][s := Impl(v)], slots, refs, s, Loses(refs, slots[s]))
  {
  }

  lemma TookShared(slots: map<Slot, Target>, refs: map<Id, nat>, s: Slot, x: Id, v: Id)
    requires s in slots && !s.Held? && slots[s] == Impl(x) && NextsIn(slots, refs) && v !in refs
    requires x in refs && refs[x] != 1 && s != Next(x) && Next(v) !in slots && Held(v) !in slots
    ensures Took(Wrapped(slots, s, x, v), slots, refs, s, Loses(refs, slots[s]))
  {
    WrappedIs(slots, s, x, v);
    hide Wrapped;
  }

  // The shared impls that append(d) meets from the target t on: those whose next
  // deleter it takes away.
  ghost function SharedOn(slots: map<Slot, Target>, refs: map<Id, nat>, rank: map<Id, real>, t: Target,
                          d: Target): set<Id>
    decreases Below(rank, t)
  {
    if t == d || !t.Impl? || !Ordered(slots, rank, t.id) then {}
    else
      assert t.id in Below(rank, t) && t.id !in Below(rank, slots[Next(t.id)]);
      Loses(refs, t) + SharedOn(slots, refs, rank, slots[Next(t.id)], d)
  }

  // Clients' variables are not on the next chains.
  lemma {:induction false} SharedOnNexts(slots: map<Slot, Target>, slots': map<Slot, Target>, refs: map<Id, nat>,
                                         rank: map<Id, real>, t: Target, d: Target)
    requires forall i {:trigger Next(i)} :: (Next(i) in slots <==> Next(i) in slots') && (Next(i) in slots ==>
      slots'[Next(i)] == slots[Next(i)])
    ensures SharedOn(slots', refs, rank, t, d) == SharedOn(slots, refs, rank, t, d)
    decreases Below(rank, t)
  {
    if t != d && t.Impl? && Ordered(slots, rank, t.id) {
      assert t.id in Below(rank, t) && t.id !in Below(rank, slots[Next(t.id)]);
      SharedOnNexts(slots, slots', refs, rank, slots[Next(t.id)], d);
    }
  }

  lemma {:induction false} MeetsNexts(slots: map<Slot, Target>, slots': map<Slot, Target>, rank: map<Id, real>,
                                      t: Target, d: Target)
    requires forall i {:trigger Next(i)} ::
      (Next(i) in slots <==> Next(i) in slots') && (Next(i) in slots ==> slots'[Next(i)] == slots[Next(i)])
    ensures Meets(slots', rank, t, d) <==> Meets(slots, rank, t, d)
    decreases Below(rank, t)
  {
    if t != d && t.Impl? && Ordered(slots, rank, t.id) {
      assert t.id in Below(rank, t) && t.id !in Below(rank, slots[Next(t.id)]);
      MeetsNexts(slots, slots', rank, slots[Next(t.id)], d);
    }
  }

  ghost predicate Ordered(slots: map<Slot, Target>, rank: map<Id, real>, x: Id) {
    && x in rank && Next(x) in slots
    && (slots[Next(x)].Impl? ==> slots[Next(x)].id in rank && rank[slots[Next(x)].id] < rank[x])
  }

  // How far append's walk has come from the state slots0, refs0, rank0: t is what
  // the end of the way names, and the impls in lost have lost their next deleters.
  ghost predicate Walked(slots: map<Slot, Target>, refs: map<Id, nat>, rank: map<Id, real>,
                         slots0: map<Slot, Target>, refs0: map<Id, nat>, rank0: map<Id, real>,
                         ids: seq<Id>, t: Target, lost: set<Id>)
  {
    && HeldKept(slots, slots0, refs0)
    && (forall i :: i in refs0 ==> i in refs && refs[i] == refs0[i])
    && (forall i :: i in rank0 ==> i in rank && rank[i] == rank0[i])
    && (forall k :: 0 <= k < |ids| && ids[k] in refs0 ==> refs0[ids[k]] == 1)
    && (t.Impl? ==> t.id in refs0)
    && (forall i :: i in lost ==>
         i in refs0 && i in rank0 && refs0[i] != 1 && (t.Impl? && t.id in rank0 ==> rank0[i] > rank0[t.id]))
    && (forall i {:trigger Next(i)} :: i in refs0 && i !in ids ==>
         Next(i) in slots0 && Next(i) in slots && slots[Next(i)] == if i in lost then Empty else slots0[Next(i)])
  }

  lemma WalkOn(slots: map<Slot, Target>, refs: map<Id, nat>, rank: map<Id, real>,
               slots': map<Slot, Target>, refs': map<Id, nat>, rank': map<Id, real>,
               slots0: map<Slot, Target>, refs0: map<Id, nat>, rank0: map<Id, real>,
               h: nat, ids: seq<Id>, s: Slot, t': Target, d: Target, lost: set<Id>, v: Id)
    requires s in slots && s == Spot(h, ids, |ids|) && slots[s] != d
    requires Walked(slots, refs, rank, slots0, refs0, rank0, ids, slots[s], lost)
    requires slots[s].Impl? ==> Ordered(slots0, rank0, slots[s].id) && slots[s].id !in ids
    requires forall i {:trigger Next(i)} :: i in refs0 && Next(i) in slots0 && slots0[Next(i)].Impl? ==>
      slots0[Next(i)].id in refs0
    requires RefsKept(refs', refs) && RanksKept(rank', rank)
    requires v in refs ==> slots[s] == Impl(v) && refs[v] == 1
    requires FollowsOn(t', slots, slots[s]) && Took(slots', slots, refs, s, Loses(refs, slots[s]))
    ensures Walked(slots', refs', rank', slots0, refs0, rank0, ids + [v], t', lost + Loses(refs, slots[s]))
    ensures Loses(refs, slots[s]) + SharedOn(slots0, refs0, rank0, t', d) == SharedOn(slots0, refs0, rank0, slots[s], d)
    ensures d != Empty ==> (Meets(slots0, rank0, t', d) <==> Meets(slots0, rank0, slots[s], d))
  {
    SpotIs(h, ids, |ids|);
    hide Spot, SharedOn, Meets;
    if slots[s].Impl? {
      var x := slots[s].id;
      assert slots[Next(x)] == slots0[Next(x)];
    }
    MetOn(slots0, refs0, rank0, refs, slots[s], t', d);
  }

  // What append meets from t on is t and what it meets from the next target on.
  lemma MetOn(slots0: map<Slot, Target>, refs0: map<Id, nat>, rank0: map<Id, real>, refs: map<Id, nat>,
              t: Target, t': Target, d: Target)
    requires t != d && FollowsOn(t', slots0, t) && Loses(refs, t) == Loses(refs0, t)
    requires t.Impl? ==> Ordered(slots0, rank0, t.id)
    ensures Loses(refs, t) + SharedOn(slots0, refs0, rank0, t', d) == SharedOn(slots0, refs0, rank0, t, d)
    ensures d != Empty ==> (Meets(slots0, rank0, t', d) <==> Meets(slots0, rank0, t, d))
  {
  }

  lemma BeyondObject(slots: map<Slot, Target>, rank: map<Id, real>, refs: map<Id, nat>, h: nat, s: Slot, v: Id,
                     height: real)
    requires s in slots && slots[s].Object? && (s == Client(h) || s.Next?) && Next(v) !in slots
    requires NextsIn(slots, refs) && v !in refs && v !in rank
    ensures RefsKept(refs[v := 1], refs) && RanksKept(rank[v := height], rank)
    ensures var slots' := slots[s := Empty][Next(v) := Empty][s := Impl(v)];
      && OthersKept(slots', slots, {h}) && Nearer(rank[v := height], slots'[Next(v)], rank, slots[s])
      && FollowsOn(slots'[Next(v)], slots, slots[s]) && Took(slots', slots, refs, s, Loses(refs, slots[s]))
  {
    TookObject(slots, refs, s, v);
    hide Took;
    assert Below(rank, slots[s]) == {} && Below(rank[v := height], Empty) == {};
  }

  lemma BeyondSole(slots: map<Slot, Target>, rank: map<Id, real>, h: nat, x: Id)
    requires x in rank && Next(x) in slots
    requires slots[Next(x)].Impl? ==> slots[Next(x)].id in rank && rank[slots[Next(x)].id] < rank[x]
    ensures Nearer(rank, slots[Next(x)], rank, Impl(x)) && OthersKept(slots, slots, {h})
  {
    assert x in Below(rank, Impl(x)) && x !in Below(rank, slots[Next(x)]);
  }

  // The deleter object s names impl x, which is to be wrapped by a new impl w.
  ghost predicate BeforeWrapper(slots: map<Slot, Target>, rank: map<Id, real>, refs: map<Id, nat>,
                                h: nat, s: Slot, x: Id, w: Id)
  {
    && s in slots && slots[s] == Impl(x) && (s == Client(h) || s.Next?) && s != Next(x)
    && x in refs && refs.Keys == rank.Keys && w !in refs
    && Next(w) !in slots && Held(w) !in slots && NextsIn(slots, refs) && Next(x) in slots
    && (slots[Next(x)].Impl? ==> slots[Next(x)].id in rank && rank[slots[Next(x)].id] < rank[x])
  }

  lemma BeyondWrapper(slots: map<Slot, Target>, rank: map<Id, real>, refs: map<Id, nat>,
                      h: nat, s: Slot, x: Id, w: Id, height: real)
    requires BeforeWrapper(slots, rank, refs, h, s, x, w) && height > rank[x] && refs[x] != 1
    ensures RefsKept(refs[w := 1], refs) && RanksKept(rank[w := height], rank)
    ensures Next(w) in Wrapped(slots, s, x, w) && FollowsOn(Wrapped(slots, s, x, w)[Next(w)], slots, slots[s])
    ensures Nearer(rank[w := height], Wrapped(slots, s, x, w)[Next(w)], rank, slots[s])
    ensures OthersKept(Wrapped(slots, s, x, w), slots, {h})
    ensures Took(Wrapped(slots, s, x, w), slots, refs, s, Loses(refs, slots[s]))
  {
    TookShared(slots, refs, s, x, w);
    WrappedIs(slots, s, x, w);
    hide Wrapped, Took;
    assert x in Below(rank, Impl(x)) && x !in Below(rank[w := height], slots[Next(x)]);
  }

  // What is below the owner of the end of the way is below the way.
  lemma BelowLast(slots: map<Slot, Target>, rank: map<Id, real>, h: nat, ids: seq<Id>, height: real)
    requires Path(slots, rank, h, ids)
    requires var s := Spot(h, ids, |ids|); !s.Client? ==> s.i in rank && height < rank[s.i]
    ensures forall k :: 0 <= k < |ids| ==> rank[ids[k]] > height
  {
    SpotIs(h, ids, |ids|);
    hide Spot;
  }

  // The slots after impl x has been wrapped at s.
  ghost function Wrapped(slots: map<Slot, Target>, s: Slot, x: Id, w: Id): map<Slot, Target>
    requires s in slots && Next(x) in slots
  {
    slots[Next(x) := Empty][s := Empty][Next(w) := Empty][Held(w) := Empty]
      [Next(w) := slots[Next(x)]][Held(w) := slots[s]][s := Impl(w)]
  }

  lemma FourFirst<T>(m: multiset<T>, a: T, b: T, c: T)
    ensures m + multiset{a} + multiset{b} + multiset{c} - multiset{a} == m + multiset{b} + multiset{c}
    ensures m + multiset{b} + multiset{c} - multiset{b} == m + multiset{c}
  {
  }

  // The k-th deleter object on the way from a client's variable along impls ids.
  ghost function Spot(h: nat, ids: seq<Id>, k: nat): Slot
    requires k <= |ids|
  {
    if k == 0 then Client(h) else Next(ids[k - 1])
  }

  // The way from client h leads through ids, each named from nowhere else.
  ghost predicate Path(slots: map<Slot, Target>, rank: map<Id, real>, h: nat, ids: seq<Id>) {
    && Leads(slots, h, ids)
    && (forall k :: 0 <= k < |ids| ==> ids[k] in rank)
    && (forall k, l :: 0 <= k < l < |ids| ==> rank[ids[k]] > rank[ids[l]])
    && (forall s, k :: s in slots && 0 <= k < |ids| && slots[s] == Impl(ids[k]) ==> s == Spot(h, ids, k))
  }

  // From client h the next members lead through ids.
  ghost predicate Leads(slots: map<Slot, Target>, h: nat, ids: seq<Id>) {
    && (forall k {:trigger Spot(h, ids, k)} :: 0 <= k < |ids| ==>
         Spot(h, ids, k) in slots && slots[Spot(h, ids, k)] == Impl(ids[k]))
    && Spot(h, ids, |ids|) in slots
  }

  // Each impl on the way is named from the way only.
  ghost predicate Sole(slots: map<Slot, Target>, h: nat, ids: seq<Id>) {
    && (forall k, l :: 0 <= k < l < |ids| ==> ids[k] != ids[l])
    && forall s, k :: s in slots && 0 <= k < |ids| && slots[s] == Impl(ids[k]) ==> s == Spot(h, ids, k)
  }

  lemma PathSole(slots: map<Slot, Target>, rank: map<Id, real>, h: nat, ids: seq<Id>, s: Slot, t: Target)
    requires Path(slots, rank, h, ids) && (t.Impl? ==> t.id !in ids)
    ensures Sole(slots[s := t], h, ids)
  {
  }

  lemma SoleStill(slots: map<Slot, Target>, h: nat, ids: seq<Id>, s: Slot)
    requires Sole(slots, h, ids)
    ensures Sole(slots - {s}, h, ids)
  {
  }

  lemma LeadsFrom(slots: map<Slot, Target>, h: nat, ids: seq<Id>)
    requires Leads(slots, h, ids)
    ensures Client(h) in slots
  {
    SpotIs(h, ids, 0);
    assert Spot(h, ids, 0) in slots;
  }

  // One more impl on the way.
  lemma PathExtends(slots: map<Slot, Target>, rank: map<Id, real>, h: nat, ids: seq<Id>, v: Id)
    requires Path(slots, rank, h, ids) && slots[Spot(h, ids, |ids|)] == Impl(v)
    requires v in rank && Next(v) in slots
    requires forall k :: 0 <= k < |ids| ==> rank[ids[k]] > rank[v]
    requires forall s :: s in slots && slots[s] == Impl(v) ==> s == Spot(h, ids, |ids|)
    ensures Path(slots, rank, h, ids + [v])
  {
    var ids' := ids + [v];
    forall k | 0 <= k <= |ids|
      ensures Spot(h, ids', k) == Spot(h, ids, k)
    {
    }
    hide Spot;
    assert Spot(h, ids', |ids'|) == Next(v) by {
      SpotIs(h, ids', |ids'|);
    }
    forall s, k | s in slots && 0 <= k < |ids'| && slots[s] == Impl(ids'[k])
      ensures s == Spot(h, ids', k)
    {
      assert k < |ids| ==> ids'[k] == ids[k];
    }
  }

  // The end of the way is not on the way.
  lemma EndIsNew(slots: map<Slot, Target>, rank: map<Id, real>, h: nat, ids: seq<Id>, k: nat)
    requires Path(slots, rank, h, ids) && k < |ids|
    ensures Spot(h, ids, k) != Spot(h, ids, |ids|)
  {
    SpotIs(h, ids, k);
    SpotIs(h, ids, |ids|);
    hide Spot;
  }

  lemma SpotIs(h: nat, ids: seq<Id>, k: nat)
    requires k <= |ids|
    ensures Spot(h, ids, k) == if k == 0 then Client(h) else Next(ids[k - 1])
  {
  }

  // No more deleter objects name ids than did.
  ghost predicate NoneJoins(slots': map<Slot, Target>, slots: map<Slot, Target>, ids: seq<Id>) {
    forall s, k :: s in slots' && 0 <= k < |ids| && slots'[s] == Impl(ids[k]) ==> s in slots && slots[s] == Impl(ids[k])
  }

  // The way stays when its deleter objects do and no new one joins it.
  lemma PathStays(slots: map<Slot, Target>, rank: map<Id, real>, slots': map<Slot, Target>, rank': map<Id, real>,
                  h: nat, ids: seq<Id>)
    requires Path(slots, rank, h, ids)
    requires Spot(h, ids, |ids|) in slots'
    requires forall k {:trigger Spot(h, ids, k)} :: 0 <= k < |ids| ==>
      Spot(h, ids, k) in slots' && slots'[Spot(h, ids, k)] == Impl(ids[k]) && ids[k] in rank' &&
        rank'[ids[k]] == rank[ids[k]]
    requires NoneJoins(slots', slots, ids)
    ensures Path(slots', rank', h, ids)
  {
    hide Spot;
    forall k | 0 <= k < |ids|
      ensures ids[k] in rank' && rank'[ids[k]] == rank[ids[k]]
      ensures Spot(h, ids, k) in slots' && slots'[Spot(h, ids, k)] == Impl(ids[k])
    {
    }
    forall k, l | 0 <= k < l < |ids|
      ensures rank'[ids[k]] > rank'[ids[l]]
    {
      assert rank[ids[k]] > rank[ids[l]];
    }
    forall s, k | s in slots' && 0 <= k < |ids| && slots'[s] == Impl(ids[k])
      ensures s == Spot(h, ids, k)
    {
      assert s in slots && slots[s] == Impl(ids[k]);
    }
  }

  // A target that nothing else may have: what the end of the way names is below
  // everything on the way.
  ghost predicate Above(rank: map<Id, real>, ids: seq<Id>, x: Id) {
    x in rank && forall k :: 0 <= k < |ids| ==> ids[k] in rank && rank[ids[k]] > rank[x]
  }

  // A plain object at the end of the way has become an impl.
  lemma PathThroughObject(slots: map<Slot, Target>, rank: map<Id, real>, h: nat, ids: seq<Id>, w: Id, height: real)
    requires Path(slots, rank, h, ids) && w !in rank && Next(w) !in slots
    requires !slots[Spot(h, ids, |ids|)].Impl?
    requires forall s :: s in slots ==> slots[s] != Impl(w)
    requires forall k :: 0 <= k < |ids| ==> rank[ids[k]] > height
    ensures var s := Spot(h, ids, |ids|);
      Path(slots[s := Empty][Next(w) := Empty][s := Impl(w)], rank[w := height], h, ids + [w])
  {
    var s := Spot(h, ids, |ids|);
    var slots' := slots[s := Empty][Next(w) := Empty][s := Impl(w)];
    forall k | 0 <= k < |ids|
      ensures Spot(h, ids, k) != s && Spot(h, ids, k) in slots && Spot(h, ids, k) != Next(w)
    {
      EndIsNew(slots, rank, h, ids, k);
    }
    hide Spot;
    PathStays(slots, rank, slots', rank[w := height], h, ids);
    PathExtends(slots', rank[w := height], h, ids, w);
  }

  // A shared impl at the end of the way has been wrapped.
  lemma PathThroughWrapper(slots: map<Slot, Target>, rank: map<Id, real>, h: nat, ids: seq<Id>, x: Id, w: Id,
                           height: real)
    requires Path(slots, rank, h, ids) && w !in rank && Next(w) !in slots && Held(w) !in slots
    requires slots[Spot(h, ids, |ids|)] == Impl(x) && Next(x) in slots && Above(rank, ids, x)
    requires forall s :: s in slots ==> slots[s] != Impl(w)
    requires forall k :: 0 <= k < |ids| ==> rank[ids[k]] > height
    ensures Path(Wrapped(slots, Spot(h, ids, |ids|), x, w), rank[w := height], h, ids + [w])
  {
    var s := Spot(h, ids, |ids|);
    var slots' := Wrapped(slots, s, x, w);
    PathBesideWrapper(slots, rank, h, ids, x, w, height);
    OffTheWay(slots, rank, h, ids, x, |ids|);
    WrappedIs(slots, s, x, w);
    hide Spot, Wrapped, Path, Leads;
    PathExtends(slots', rank[w := height], h, ids, w);
  }

  lemma PathBesideWrapper(slots: map<Slot, Target>, rank: map<Id, real>, h: nat, ids: seq<Id>, x: Id, w: Id,
                          height: real)
    requires Path(slots, rank, h, ids) && w !in rank && Next(w) !in slots && Held(w) !in slots
    requires slots[Spot(h, ids, |ids|)] == Impl(x) && Next(x) in slots && Above(rank, ids, x)
    ensures Path(Wrapped(slots, Spot(h, ids, |ids|), x, w), rank[w := height], h, ids)
  {
    var s := Spot(h, ids, |ids|);
    var slots' := Wrapped(slots, s, x, w);
    hide Wrapped, Path, Leads, Spot, Above;
    BesideWrapper(slots, rank, h, ids, x, w, |ids|, s);
    forall k | 0 <= k < |ids|
      ensures ids[k] in rank && ids[k] != w && Spot(h, ids, k) in slots' && slots'[Spot(h, ids, k)] == Impl(ids[k])
    {
      BesideWrapper(slots, rank, h, ids, x, w, k, s);
    }
    NoneJoinsWrapper(slots, rank, h, ids, x, w);
    hide NoneJoins;
    PathStays(slots, rank, slots', rank[w := height], h, ids);
  }

  lemma NoneJoinsWrapper(slots: map<Slot, Target>, rank: map<Id, real>, h: nat, ids: seq<Id>, x: Id, w: Id)
    requires Path(slots, rank, h, ids) && w !in rank && Next(w) !in slots && Held(w) !in slots
    requires slots[Spot(h, ids, |ids|)] == Impl(x) && Next(x) in slots && Above(rank, ids, x)
    ensures NoneJoins(Wrapped(slots, Spot(h, ids, |ids|), x, w), slots, ids)
  {
    var slots' := Wrapped(slots, Spot(h, ids, |ids|), x, w);
    hide Wrapped, Path, Leads, Spot, Above;
    forall r, k | r in slots' && 0 <= k < |ids| && slots'[r] == Impl(ids[k])
      ensures r in slots && slots[r] == Impl(ids[k])
    {
      BesideWrapper(slots, rank, h, ids, x, w, k, r);
    }
  }

  // The deleter object at k on the way stays, and no other one, as r, joins it.
  lemma BesideWrapper(slots: map<Slot, Target>, rank: map<Id, real>, h: nat, ids: seq<Id>, x: Id, w: Id, k: nat,
                      r: Slot)
    requires Path(slots, rank, h, ids) && w !in rank && Next(w) !in slots && Held(w) !in slots && k <= |ids|
    requires Spot(h, ids, |ids|) in slots ==>
      slots[Spot(h, ids, |ids|)] == Impl(x) && Next(x) in slots && Above(rank, ids, x)
    ensures Spot(h, ids, |ids|) in slots && Next(x) in slots
    ensures var slots' := Wrapped(slots, Spot(h, ids, |ids|), x, w);
      && Spot(h, ids, k) in slots'
      && (k < |ids| ==> ids[k] in rank && ids[k] != w && slots'[Spot(h, ids, k)] == Impl(ids[k]))
      && (k < |ids| && r in slots' && slots'[r] == Impl(ids[k]) ==> r in slots && slots[r] == Impl(ids[k]))
  {
    var s := Spot(h, ids, |ids|);
    OffTheWay(slots, rank, h, ids, x, |ids|);
    OffTheWay(slots, rank, h, ids, x, k);
    hide Path, Leads, Above, Wrapped;
    WrapperAdds(slots, s, x, w, r);
    WrapperAdds(slots, s, x, w, Spot(h, ids, k));
  }

  // What a deleter object names after the wrapping it named before, but for x, w
  // and the next deleter of x.
  lemma WrapperAdds(slots: map<Slot, Target>, s: Slot, x: Id, w: Id, r: Slot)
    requires s in slots && Next(x) in slots && s != Next(x) && Next(w) !in slots && Held(w) !in slots
    requires slots[s] == Impl(x)
    ensures r in slots ==> r in Wrapped(slots, s, x, w)
    ensures r in slots && r != s && r != Next(x) ==> Wrapped(slots, s, x, w)[r] == slots[r]
    ensures r in Wrapped(slots, s, x, w) ==> var t := Wrapped(slots, s, x, w)[r];
      t == Empty || t == Impl(w) || t == Impl(x) || t == slots[Next(x)] || (r in slots && t == slots[r])
  {
  }

  // What stands below everything on the way is not on it.
  lemma OffTheWay(slots: map<Slot, Target>, rank: map<Id, real>, h: nat, ids: seq<Id>, x: Id, k: nat)
    requires Path(slots, rank, h, ids) && k <= |ids| && Above(rank, ids, x)
    ensures Spot(h, ids, k) in slots && Spot(h, ids, k) != Next(x)
    ensures k < |ids| ==>
      && Spot(h, ids, k) != Spot(h, ids, |ids|) && slots[Spot(h, ids, k)] == Impl(ids[k])
      && x != ids[k] && ids[k] in rank && (Next(x) in slots ==> slots[Next(x)] != Impl(ids[k]))
  {
    SpotIs(h, ids, k);
    if k < |ids| {
      EndIsNew(slots, rank, h, ids, k);
    }
    hide Spot;
  }

  lemma WrappedIs(slots: map<Slot, Target>, s: Slot, x: Id, w: Id)
    requires s in slots && Next(x) in slots && s != Next(x) && Next(w) !in slots && Held(w) !in slots
    ensures var slots' := Wrapped(slots, s, x, w);
      && slots'.Keys == slots.Keys + {Next(w), Held(w)}
      && slots'[s] == Impl(w) && slots'[Next(x)] == Empty
      && slots'[Next(w)] == slots[Next(x)] && slots'[Held(w)] == slots[s]
      && forall r :: r in slots && r != s && r != Next(x) ==> slots'[r] == slots[r]
  {
  }

  // An impl that is named once is named only here.
  lemma SoleName(slots: map<Slot, Target>, refs: map<Id, nat>, moving: multiset<Target>, x: Id, s: Slot, r: Slot)
    requires Counted(slots, refs, moving) && x in refs && refs[x] == 1
    requires s in slots && slots[s] == Impl(x) && r in slots && slots[r] == Impl(x)
    ensures r == s && Impl(x) !in moving
  {
    var n := Naming(slots, Impl(x));
    assert {s} <= n && {s, r} <= n;
    Fewer({s}, n);
    Fewer({s, r}, n);
  }

  lemma NamedTwice(slots: map<Slot, Target>, refs: map<Id, nat>, moving: multiset<Target>, x: Id, s: Slot)
    requires Counted(slots, refs, moving) && x in refs && s in slots && slots[s] == Impl(x) && Impl(x) in moving
    ensures refs[x] > 1
  {
    Fewer({s}, Naming(slots, Impl(x)));
  }

  lemma Fewer<T>(a: set<T>, b: set<T>)
    requires a <= b
    ensures |a| <= |b|
  {
    assert b == a + (b - a);
  }

  // The deleters of the clients but for some are the same.
  ghost predicate OthersKept(slots': map<Slot, Target>, slots: map<Slot, Target>, but: set<nat>) {
    forall h {:trigger Client(h)} :: h !in but ==>
      (Client(h) in slots' <==> Client(h) in slots) &&
      (Client(h) in slots ==> slots'[Client(h)] == slots[Client(h)])
  }

  ghost predicate RefsKept(refs': map<Id, nat>, refs: map<Id, nat>) {
    forall i :: i in refs ==> i in refs' && refs'[i] == refs[i]
  }

  // The same, but that one name of d has gone if it is given up.
  ghost predicate NamesKept(refs': map<Id, nat>, refs: map<Id, nat>, d: Target, gone: bool) {
    forall i :: i in refs ==> i in refs' && refs'[i] + (if gone && d == Impl(i) then 1 else 0) == refs[i]
  }

  ghost predicate RanksKept(rank': map<Id, real>, rank: map<Id, real>) {
    forall i :: i in rank ==> i in rank' && rank'[i] == rank[i]
  }

  // No impl has gone, and none has another action.
  ghost predicate ActionsKept(actions': map<Id, Option<Action>>, actions: map<Id, Option<Action>>) {
    forall i :: i in actions ==> i in actions' && actions'[i] == actions[i]
  }

  lemma ActionsStill(actions'': map<Id, Option<Action>>, actions': map<Id, Option<Action>>,
                     actions: map<Id, Option<Action>>)
    ensures ActionsKept(actions, actions)
    ensures ActionsKept(actions'', actions') && ActionsKept(actions', actions) ==> ActionsKept(actions'', actions)
  {
  }

  // The deleters that remaining impls hold are the same.
  ghost predicate MembersKept(slots': map<Slot, Target>, slots: map<Slot, Target>) {
    forall s :: s in slots' && !s.Client? ==> s in slots && slots'[s] == slots[s]
  }

  // What destruction leaves: some impls' members go, nothing else changes.
  ghost predicate Rest(slots': map<Slot, Target>, slots: map<Slot, Target>) {
    && (forall s :: s in slots' ==> s in slots && slots'[s] == slots[s])
    && (forall h {:trigger Client(h)} :: Client(h) in slots ==> Client(h) in slots')
  }

  lemma MembersGone(slots: map<Slot, Target>, i: Id)
    ensures OldSlots(slots[Next(i) := Empty], i) == OldSlots(slots, i)
    ensures OldSlots(slots[Next(i) := Empty][Held(i) := Empty], i) == OldSlots(slots, i)
  {
  }

  lemma Undone<T>(m: multiset<T>, a: T)
    ensures m + multiset{a} - multiset{a} == m
  {
  }

  lemma Swapped<T>(m: multiset<T>, a: T, b: T)
    requires a in m
    ensures m + multiset{b} - multiset{a} == m - multiset{a} + multiset{b}
  {
  }

  lemma Reordered<T>(m: multiset<T>, a: T, b: T, c: T)
    requires a in m
    ensures m + multiset{b} + multiset{c} - multiset{a} == m - multiset{a} + multiset{c} + multiset{b}
  {
  }

  lemma TwoGone<T>(m: multiset<T>, a: T, b: T)
    ensures m + multiset{a} + multiset{b} - multiset{a} - multiset{b} == m
  {
  }

  // The slots with the empty members of a new impl.
  function NewSlots(slots: map<Slot, Target>, w: Id, held: bool): map<Slot, Target> {
    if held then slots[Next(w) := Empty][Held(w) := Empty] else slots[Next(w) := Empty]
  }

  // The slots without the members of an impl.
  function OldSlots(slots: map<Slot, Target>, i: Id): map<Slot, Target> {
    slots - {Next(i)} - {Held(i)}
  }

  lemma EnterShape(slots: map<Slot, Target>, ids: set<Id>, moving: multiset<Target>, w: Id, held: bool,
                   o: Option<Action>, rank: map<Id, real>, height: real)
    requires Shape(slots, ids, moving) && Falls(slots, rank) && rank.Keys == ids && w !in ids
    ensures Shape(NewSlots(slots, w, held), ids + {w}, moving - Content(o) + multiset{Impl(w)})
    ensures Falls(NewSlots(slots, w, held), rank[w := height])
  {
    var m := moving - Content(o) + multiset{Impl(w)};
    forall i | Impl(i) in m
      ensures i in ids + {w}
    {
      assert i != w ==> Impl(i) in moving;
    }
  }

  lemma LeaveShape(slots: map<Slot, Target>, ids: set<Id>, moving: multiset<Target>, i: Id,
                   o: Option<Action>, rank: map<Id, real>)
    requires Shape(slots, ids, moving) && Falls(slots, rank) && rank.Keys == ids && i in ids
    requires Impl(i) !in moving - multiset{Impl(i)} + Content(o)
    requires forall s :: s in OldSlots(slots, i) ==> slots[s] != Impl(i)
    ensures Shape(OldSlots(slots, i), ids - {i}, moving - multiset{Impl(i)} + Content(o))
    ensures Falls(OldSlots(slots, i), rank - {i})
  {
    var m := moving - multiset{Impl(i)} + Content(o);
    forall j | Impl(j) in m
      ensures j in ids - {i}
    {
      assert Impl(j) in moving;
    }
  }

  lemma Unused(slots: map<Slot, Target>, ids: set<Id>, moving: multiset<Target>, w: Id, held: bool)
    requires Shape(slots, ids, moving) && w !in ids
    ensures Next(w) !in slots && Held(w) !in slots
    ensures Total(NewSlots(slots, w, held), moving, Impl(w)) == 0
  {
    hide Total;
    Unnamed(NewSlots(slots, w, held), moving, Impl(w));
  }

  lemma NewSlotsTotals(slots: map<Slot, Target>, w: Id, held: bool, moving: multiset<Target>)
    requires Next(w) !in slots && Held(w) !in slots
    ensures SameTotals(slots, moving, NewSlots(slots, w, held), moving)
  {
    hide Total;
    AddEmptyTotals(slots, Next(w), moving);
    AddEmptyTotals(slots[Next(w) := Empty], Held(w), moving);
  }

  lemma OldSlotsTotals(slots: map<Slot, Target>, i: Id, moving: multiset<Target>)
    requires Next(i) in slots && slots[Next(i)] == Empty && (Held(i) in slots ==> slots[Held(i)] == Empty)
    ensures SameTotals(slots, moving, OldSlots(slots, i), moving)
  {
    hide Total;
    DropEmptyTotals(slots, Next(i), moving);
    DropEmptyTotals(slots - {Next(i)}, Held(i), moving);
  }

  lemma ArriveObject(slots: map<Slot, Target>, moving: multiset<Target>, a: Action, refs: map<Id, nat>,
                     actions: map<Id, Option<Action>>, fired: seq<Action>, created: multiset<Action>)
    requires Counted(slots, refs, moving) && Conserved(slots, actions, moving, fired, created)
    ensures Counted(slots, refs, moving + multiset{Object(a)})
    ensures Conserved(slots, actions, moving + multiset{Object(a)}, fired, created + multiset{a})
  {
    hide Total, Carriers;
    var m := moving + multiset{Object(a)};
    forall i | i in refs
      ensures refs[i] == Total(slots, m, Impl(i)) > 0
    {
      Arrives(slots, moving, Object(a), Impl(i));
    }
    forall b: Action
      ensures (created + multiset{a})[b] == multiset(fired)[b] + Carriers(actions, b) + Total(slots, m, Object(b))
    {
      Arrives(slots, moving, Object(a), Object(b));
    }
  }

  lemma LeaveObject(slots: map<Slot, Target>, moving: multiset<Target>, a: Action, refs: map<Id, nat>,
                    actions: map<Id, Option<Action>>, fired: seq<Action>, created: multiset<Action>)
    requires Object(a) in moving
    requires Counted(slots, refs, moving) && Conserved(slots, actions, moving, fired, created)
    ensures Counted(slots, refs, moving - multiset{Object(a)})
    ensures Conserved(slots, actions, moving - multiset{Object(a)}, fired + [a], created)
  {
    hide Total, Carriers;
    var m := moving - multiset{Object(a)};
    forall i | i in refs
      ensures refs[i] == Total(slots, m, Impl(i)) > 0
    {
      Leaves(slots, moving, Object(a), Impl(i));
    }
    forall b: Action
      ensures created[b] == multiset(fired + [a])[b] + Carriers(actions, b) + Total(slots, m, Object(b))
    {
      Leaves(slots, moving, Object(a), Object(b));
    }
  }

  lemma ArriveImpl(slots: map<Slot, Target>, moving: multiset<Target>, i: Id, refs: map<Id, nat>,
                   actions: map<Id, Option<Action>>, fired: seq<Action>, created: multiset<Action>)
    requires i in refs
    requires Counted(slots, refs, moving) && Conserved(slots, actions, moving, fired, created)
    ensures Counted(slots, refs[i := refs[i] + 1], moving + multiset{Impl(i)})
    ensures Conserved(slots, actions, moving + multiset{Impl(i)}, fired, created)
  {
    hide Total, Carriers;
    var m := moving + multiset{Impl(i)};
    forall j | j in refs
      ensures refs[i := refs[i] + 1][j] == Total(slots, m, Impl(j)) > 0
    {
      Arrives(slots, moving, Impl(i), Impl(j));
    }
    forall b: Action
      ensures Total(slots, m, Object(b)) == Total(slots, moving, Object(b))
    {
      Arrives(slots, moving, Impl(i), Object(b));
    }
  }

  lemma LeaveImpl(slots: map<Slot, Target>, moving: multiset<Target>, i: Id, refs: map<Id, nat>,
                  actions: map<Id, Option<Action>>, fired: seq<Action>, created: multiset<Action>)
    requires i in refs && refs[i] > 1 && Impl(i) in moving
    requires Counted(slots, refs, moving) && Conserved(slots, actions, moving, fired, created)
    ensures Counted(slots, refs[i := refs[i] - 1], moving - multiset{Impl(i)})
    ensures Conserved(slots, actions, moving - multiset{Impl(i)}, fired, created)
  {
    hide Total, Carriers;
    var m := moving - multiset{Impl(i)};
    forall j | j in refs
      ensures refs[i := refs[i] - 1][j] == Total(slots, m, Impl(j)) > 0
    {
      Leaves(slots, moving, Impl(i), Impl(j));
    }
    forall b: Action
      ensures Total(slots, m, Object(b)) == Total(slots, moving, Object(b))
    {
      Leaves(slots, moving, Impl(i), Object(b));
    }
  }

  // The object that an impl with this action holds.
  ghost function Content(o: Option<Action>): multiset<Target> {
    if o.Some? then multiset{Object(o.value)} else multiset{}
  }

  lemma EnterImpl(slots: map<Slot, Target>, moving: multiset<Target>, w: Id, o: Option<Action>, refs: map<Id, nat>,
                  actions: map<Id, Option<Action>>, fired: seq<Action>, created: multiset<Action>)
    requires w !in refs && w !in actions && Content(o) <= moving && Total(slots, moving, Impl(w)) == 0
    requires Counted(slots, refs, moving) && Conserved(slots, actions, moving, fired, created)
    ensures Counted(slots, refs[w := 1], moving - Content(o) + multiset{Impl(w)})
    ensures Conserved(slots, actions[w := o], moving - Content(o) + multiset{Impl(w)}, fired, created)
  {
    hide Total, Carriers;
    var m := moving - Content(o);
    forall u
      ensures Total(slots, m + multiset{Impl(w)}, u) ==
        Total(slots, moving, u) + (if u == Impl(w) then 1 else 0) - (if o.Some? && u == Object(o.value) then 1 else 0)
    {
      Arrives(slots, m, Impl(w), u);
      if o.Some? {
        Leaves(slots, moving, Object(o.value), u);
      } else {
        assert m == moving;
      }
    }
    forall a: Action
      ensures Carriers(actions[w := o], a) == Carriers(actions, a) + if o == Some(a) then 1 else 0
    {
      SetAction(actions, w, o, a);
    }
  }

  lemma LeaveLastImpl(slots: map<Slot, Target>, moving: multiset<Target>, i: Id, refs: map<Id, nat>,
                      actions: map<Id, Option<Action>>, fired: seq<Action>, created: multiset<Action>)
    requires i in refs && i in actions && refs[i] == 1 && Impl(i) in moving
    requires Counted(slots, refs, moving) && Conserved(slots, actions, moving, fired, created)
    ensures Counted(slots, refs - {i}, moving - multiset{Impl(i)} + Content(actions[i]))
    ensures Conserved(slots, actions - {i}, moving - multiset{Impl(i)} + Content(actions[i]), fired, created)
    ensures Total(slots, moving - multiset{Impl(i)} + Content(actions[i]), Impl(i)) == 0
  {
    hide Total, Carriers;
    var m, o := moving - multiset{Impl(i)}, actions[i];
    forall u
      ensures Total(slots, m + Content(o), u) ==
        Total(slots, moving, u) - (if u == Impl(i) then 1 else 0) + (if o.Some? && u == Object(o.value) then 1 else 0)
    {
      Leaves(slots, moving, Impl(i), u);
      if o.Some? {
        Arrives(slots, m, Object(o.value), u);
      } else {
        assert m + Content(o) == m;
      }
    }
    forall a: Action
      ensures Carriers(actions, a) == Carriers(actions - {i}, a) + if o == Some(a) then 1 else 0
    {
      DropAction(actions, i, a);
    }
  }

  // Nothing names an impl when the total says so.
  lemma Unnamed(slots: map<Slot, Target>, moving: multiset<Target>, t: Target)
    ensures Total(slots, moving, t) == 0 <==> t !in moving && forall s :: s in slots ==> slots[s] != t
  {
    if s :| s in slots && slots[s] == t {
      assert s in Naming(slots, t);
    } else {
      assert Naming(slots, t) == {};
    }
  }

  lemma AddEmptyTotals(slots: map<Slot, Target>, s: Slot, moving: multiset<Target>)
    requires s in slots ==> slots[s] == Empty
    ensures SameTotals(slots, moving, slots[s := Empty], moving)
  {
    hide Total;
    forall u | u != Empty
      ensures Total(slots[s := Empty], moving, u) == Total(slots, moving, u)
    {
      SetSlot(slots, s, Empty, moving, u);
    }
  }

  lemma DropEmptyTotals(slots: map<Slot, Target>, s: Slot, moving: multiset<Target>)
    requires s in slots ==> slots[s] == Empty
    ensures SameTotals(slots, moving, slots - {s}, moving)
  {
    hide Total;
    forall u | u != Empty
      ensures Total(slots - {s}, moving, u) == Total(slots, moving, u)
    {
      DropSlot(slots, s, moving, u);
    }
  }

  lemma Arrives(slots: map<Slot, Target>, moving: multiset<Target>, t: Target, u: Target)
    ensures Total(slots, moving + multiset{t}, u) == Total(slots, moving, u) + if u == t then 1 else 0
  {
  }

  lemma Leaves(slots: map<Slot, Target>, moving: multiset<Target>, t: Target, u: Target)
    requires t in moving
    ensures Total(slots, moving - multiset{t}, u) == Total(slots, moving, u) - if u == t then 1 else 0
  {
  }
}
