// The order in which a released deleter's actions run, as values: the impl's own
// action, then all that its held deleter lets go, then all that its next one does.
module DeleterUnwind {
  import opened Options
  import opened DeleterGraph

  function HeldOf(slots: map<Slot, Target>, i: Id): Target {
    if Held(i) in slots then slots[Held(i)] else Empty
  }

  function NextOf(slots: map<Slot, Target>, i: Id): Target {
    if Next(i) in slots then slots[Next(i)] else Empty
  }

  // What ends when a deleter with target t goes, in order, and the names that are
  // left then.
  ghost function Unwind(slots: map<Slot, Target>, refs: map<Id, nat>, t: Target): (r: (seq<Target>, map<Id, nat>))
    ensures r.1.Keys <= refs.Keys
    decreases refs.Keys
  {
    match t
    case Empty => ([], refs)
    case Object(a) => ([t], refs)
    case Impl(i) =>
      if i !in refs || refs[i] == 0 then ([], refs)
      else if refs[i] > 1 then ([], refs[i := refs[i] - 1])
      else
        var (h, left) := Unwind(slots, refs - {i}, HeldOf(slots, i));
        var (n, rest) := Unwind(slots, left, NextOf(slots, i));
        ([t] + h + n, rest)
  }

  // The actions of what ends.
  ghost function Runs(actions: map<Id, Option<Action>>, ended: seq<Target>): seq<Action> {
    if ended == [] then []
    else Runs(actions, ended[..|ended| - 1]) + ActionOf(actions, ended[|ended| - 1])
  }

  ghost function ActionOf(actions: map<Id, Option<Action>>, t: Target): seq<Action> {
    match t
    case Empty => []
    case Object(a) => [a]
    case Impl(i) => if i in actions && actions[i].Some? then [actions[i].value] else []
  }

  // The deleter objects of clients and of the impls that are left.
  ghost function Surviving(slots: map<Slot, Target>, refs: map<Id, nat>): map<Slot, Target> {
    map s | s in slots && (s.Client? || s.i in refs) :: slots[s]
  }

  ghost function Remaining(actions: map<Id, Option<Action>>, refs: map<Id, nat>): map<Id, Option<Action>> {
    map i | i in actions && i in refs :: actions[i]
  }

  lemma {:induction false} RunsJoin(actions: map<Id, Option<Action>>, a: seq<Target>, b: seq<Target>)
    ensures Runs(actions, a + b) == Runs(actions, a) + Runs(actions, b)
    decreases |b|
  {
    hide ActionOf;
    if b == [] {
      assert a + b == a;
    } else {
      var n := |b| - 1;
      RunsJoin(actions, a, b[..n]);
      assert (a + b)[..|a| + n] == a + b[..n] && (a + b)[|a| + n] == b[n];
      LastRun(actions, a + b);
      LastRun(actions, b);
    }
  }

  lemma LastRun(actions: map<Id, Option<Action>>, ended: seq<Target>)
    requires ended != []
    ensures var n := |ended| - 1; Runs(actions, ended) == Runs(actions, ended[..n]) + ActionOf(actions, ended[n])
  {
    hide ActionOf;
  }

  // What ended was in use, and is not any more.
  ghost predicate Left(ended: seq<Target>, refs: map<Id, nat>, rest: map<Id, nat>) {
    forall k :: 0 <= k < |ended| && ended[k].Impl? ==> ended[k].id in refs && ended[k].id !in rest
  }

  lemma {:induction false} EndedIds(slots: map<Slot, Target>, refs: map<Id, nat>, t: Target)
    ensures var (ended, rest) := Unwind(slots, refs, t); Left(ended, refs, rest)
    decreases refs.Keys
  {
    if t.Impl? && t.id in refs && refs[t.id] == 1 {
      var i := t.id;
      var (h, left) := Unwind(slots, refs - {i}, HeldOf(slots, i));
      var (n, rest) := Unwind(slots, left, NextOf(slots, i));
      EndedIds(slots, refs - {i}, HeldOf(slots, i));
      EndedIds(slots, left, NextOf(slots, i));
      LeftJoin(refs, i, h, left, n, rest);
    }
  }

  // An impl has ended, then h, which left left, and then n.
  lemma LeftJoin(refs: map<Id, nat>, i: Id, h: seq<Target>, left: map<Id, nat>, n: seq<Target>, rest: map<Id, nat>)
    requires i in refs && rest.Keys <= left.Keys <= refs.Keys - {i}
    requires Left(h, refs - {i}, left) && Left(n, left, rest)
    ensures Left([Impl(i)] + h + n, refs, rest)
  {
  }

  // Only the members of impls in use matter.
  lemma {:induction false} UnwindSame(slots: map<Slot, Target>, slots': map<Slot, Target>, refs: map<Id, nat>,
                                      t: Target)
    requires forall i :: i in refs ==> HeldOf(slots', i) == HeldOf(slots, i) && NextOf(slots', i) == NextOf(slots, i)
    ensures Unwind(slots', refs, t) == Unwind(slots, refs, t)
    decreases refs.Keys
  {
    if t.Impl? && t.id in refs && refs[t.id] == 1 {
      var i := t.id;
      UnwindSame(slots, slots', refs - {i}, HeldOf(slots, i));
      UnwindSame(slots, slots', Unwind(slots, refs - {i}, HeldOf(slots, i)).1, NextOf(slots, i));
    }
  }

  // And only the actions of what ends.
  lemma {:induction false} RunsSame(actions: map<Id, Option<Action>>, actions': map<Id, Option<Action>>,
                                    ended: seq<Target>)
    requires forall k :: 0 <= k < |ended| && ended[k].Impl? ==>
      ended[k].id in actions && ended[k].id in actions' && actions'[ended[k].id] == actions[ended[k].id]
    ensures Runs(actions', ended) == Runs(actions, ended)
    decreases |ended|
  {
    if ended != [] {
      RunsSame(actions, actions', ended[..|ended| - 1]);
    }
  }

  // ----- What the end of a deleter leaves -----

  // The state and the actions that have run after a deleter with target t has gone.
  ghost predicate Unwound(slots': map<Slot, Target>, refs': map<Id, nat>, actions': map<Id, Option<Action>>,
                          fired': seq<Action>, slots: map<Slot, Target>, refs: map<Id, nat>,
                          actions: map<Id, Option<Action>>, fired: seq<Action>, t: Target)
  {
    var (ended, rest) := Unwind(slots, refs, t);
    && fired' == fired + Runs(actions, ended) && refs' == rest
    && slots' == Surviving(slots, rest) && actions' == Remaining(actions, rest)
  }

  // After the own end of impl i the held deleter and then the next one have gone.
  lemma UnwoundMembers(slots: map<Slot, Target>, refs: map<Id, nat>, actions: map<Id, Option<Action>>,
                       fired: seq<Action>, i: Id, slots': map<Slot, Target>, refs': map<Id, nat>,
                       actions': map<Id, Option<Action>>, fired': seq<Action>, slots'': map<Slot, Target>,
                       refs'': map<Id, nat>, actions'': map<Id, Option<Action>>, fired'': seq<Action>)
    requires i in refs && refs[i] == 1 && refs.Keys == actions.Keys
    requires Unwound(slots', refs', actions', fired', OldSlots(slots, i), refs - {i}, actions - {i},
                     fired + ActionOf(actions, Impl(i)), HeldOf(slots, i))
    requires Unwound(slots'', refs'', actions'', fired'', slots', refs', actions', fired', NextOf(slots, i))
    ensures Unwound(slots'', refs'', actions'', fired'', slots, refs, actions, fired, Impl(i))
  {
    hide Unwind, Runs, ActionOf, OldSlots, HeldOf, NextOf, Left, Surviving, Remaining;
    var h, left, n, rest := MembersUnwind(slots, refs, i, slots');
    SurviveTwice(slots, actions, refs, i, left, rest);
    RunsInTurn(actions, i, h, refs, left, n, rest);
  }

  lemma RunsInTurn(actions: map<Id, Option<Action>>, i: Id, h: seq<Target>, refs: map<Id, nat>, left: map<Id, nat>,
                   n: seq<Target>, rest: map<Id, nat>)
    requires refs.Keys == actions.Keys && left.Keys <= refs.Keys - {i}
    requires Left(h, refs - {i}, left) && Left(n, left, rest)
    ensures Runs(actions, [Impl(i)] + h + n) ==
      ActionOf(actions, Impl(i)) + Runs(actions - {i}, h) + Runs(Remaining(actions - {i}, left), n)
  {
    hide Runs, ActionOf;
    RunsSame(actions, actions - {i}, h);
    RunsSame(actions, Remaining(actions - {i}, left), n);
    RunsJoin(actions, [Impl(i)], h);
    RunsJoin(actions, [Impl(i)] + h, n);
    OneRuns(actions, i);
  }

  // The held deleter goes with the members of i taken out, and the next one with
  // what that leaves.
  lemma MembersUnwind(slots: map<Slot, Target>, refs: map<Id, nat>, i: Id, slots': map<Slot, Target>)
    returns (h: seq<Target>, left: map<Id, nat>, n: seq<Target>, rest: map<Id, nat>)
    requires i in refs && refs[i] == 1
    requires slots' == Surviving(OldSlots(slots, i), Unwind(OldSlots(slots, i), refs - {i}, HeldOf(slots, i)).1)
    ensures Unwind(OldSlots(slots, i), refs - {i}, HeldOf(slots, i)) == (h, left)
    ensures Unwind(slots', left, NextOf(slots, i)) == (n, rest)
    ensures Unwind(slots, refs, Impl(i)) == ([Impl(i)] + h + n, rest)
    ensures Left(h, refs - {i}, left) && Left(n, left, rest) && rest.Keys <= left.Keys <= refs.Keys - {i}
  {
    var r, r' := Unwind(slots, refs - {i}, HeldOf(slots, i)), Unwind(slots, refs, Impl(i));
    h, left := r.0, r.1;
    n, rest := Unwind(slots, left, NextOf(slots, i)).0, Unwind(slots, left, NextOf(slots, i)).1;
    assert r' == ([Impl(i)] + h + n, rest);
    hide Unwind;
    UnwindSame(slots, OldSlots(slots, i), refs - {i}, HeldOf(slots, i));
    UnwindSame(slots, slots', left, NextOf(slots, i));
    EndedIds(slots, refs - {i}, HeldOf(slots, i));
    EndedIds(slots, left, NextOf(slots, i));
  }

  lemma SurviveTwice(slots: map<Slot, Target>, actions: map<Id, Option<Action>>, refs: map<Id, nat>, i: Id,
                     left: map<Id, nat>, rest: map<Id, nat>)
    requires rest.Keys <= left.Keys <= refs.Keys - {i}
    ensures Surviving(Surviving(OldSlots(slots, i), left), rest) == Surviving(slots, rest)
    ensures Remaining(Remaining(actions - {i}, left), rest) == Remaining(actions, rest)
  {
  }

  // Nothing but a name goes.
  lemma UnwoundName(slots: map<Slot, Target>, refs: map<Id, nat>, actions: map<Id, Option<Action>>,
                    fired: seq<Action>, t: Target, refs': map<Id, nat>, fired': seq<Action>)
    requires Surviving(slots, refs) == slots && Remaining(actions, refs) == actions
    requires t.Impl? ==> t.id in refs && refs[t.id] > 1 && refs' == refs[t.id := refs[t.id] - 1]
    requires !t.Impl? ==> refs' == refs
    requires fired' == fired + if t.Object? then [t.a] else []
    ensures Unwound(slots, refs', actions, fired', slots, refs, actions, fired, t)
  {
    LastRun(actions, [t]);
    assert refs'.Keys == refs.Keys;
  }

  lemma UnwoundKeys(slots': map<Slot, Target>, refs': map<Id, nat>, actions': map<Id, Option<Action>>,
                    fired': seq<Action>, slots: map<Slot, Target>, refs: map<Id, nat>,
                    actions: map<Id, Option<Action>>, fired: seq<Action>, t: Target)
    requires Unwound(slots', refs', actions', fired', slots, refs, actions, fired, t)
    ensures refs'.Keys <= refs.Keys
  {
  }

  // A client's own variable has no part in it.
  lemma UnwoundWithout(slots': map<Slot, Target>, refs': map<Id, nat>, actions': map<Id, Option<Action>>,
                       fired': seq<Action>, slots: map<Slot, Target>, refs: map<Id, nat>,
                       actions: map<Id, Option<Action>>, fired: seq<Action>, t: Target, s: Slot, u: Target)
    requires Unwound(slots', refs', actions', fired', slots[s := u], refs, actions, fired, t) && s.Client?
    ensures Unwound(slots' - {s}, refs', actions', fired', slots - {s}, refs, actions, fired, t)
  {
    UnwindSame(slots[s := u], slots - {s}, refs, t);
  }

  lemma OneRuns(actions: map<Id, Option<Action>>, i: Id)
    ensures Runs(actions, [Impl(i)]) == ActionOf(actions, Impl(i))
  {
    LastRun(actions, [Impl(i)]);
  }

  // ----- The order, told of any two things that end -----

  // Target x is t, or a deleter that t's impl has leads to it, over n members.
  ghost predicate Within(slots: map<Slot, Target>, t: Target, x: Target, n: nat)
    decreases n
  {
    x == t || (n > 0 && t.Impl? &&
      (Within(slots, HeldOf(slots, t.id), x, n - 1) || Within(slots, NextOf(slots, t.id), x, n - 1)))
  }

  ghost predicate LeadsTo(slots: map<Slot, Target>, t: Target, x: Target) {
    exists n: nat :: Within(slots, t, x, n)
  }

  ghost predicate AllFrom(slots: map<Slot, Target>, t: Target, ended: seq<Target>) {
    forall k :: 0 <= k < |ended| ==> LeadsTo(slots, t, ended[k])
  }

  lemma FromMember(slots: map<Slot, Target>, i: Id, x: Target)
    requires LeadsTo(slots, HeldOf(slots, i), x) || LeadsTo(slots, NextOf(slots, i), x)
    ensures LeadsTo(slots, Impl(i), x)
  {
    var n: nat :| Within(slots, HeldOf(slots, i), x, n) || Within(slots, NextOf(slots, i), x, n);
    assert Within(slots, Impl(i), x, n + 1);
  }

  // All that ends is what the deleter leads to.
  lemma {:induction false} EndedFrom(slots: map<Slot, Target>, refs: map<Id, nat>, t: Target)
    ensures AllFrom(slots, t, Unwind(slots, refs, t).0)
    decreases refs.Keys
  {
    assert Within(slots, t, t, 0);
    if t.Impl? && t.id in refs && refs[t.id] == 1 {
      var i := t.id;
      var (h, left) := Unwind(slots, refs - {i}, HeldOf(slots, i));
      EndedFrom(slots, refs - {i}, HeldOf(slots, i));
      EndedFrom(slots, left, NextOf(slots, i));
      var n := Unwind(slots, left, NextOf(slots, i)).0;
      var all := [t] + h + n;
      hide Unwind, LeadsTo;
      forall k | 0 <= k < |all|
        ensures LeadsTo(slots, t, all[k])
      {
        if k > 0 {
          assert k <= |h| ==> all[k] == h[k - 1];
          assert k > |h| ==> all[k] == n[k - 1 - |h|];
          FromMember(slots, i, all[k]);
        } else {
          assert LeadsTo(slots, t, t) by {
            assert Within(slots, t, t, 0);
          }
        }
      }
    }
  }

  // When the last name of an impl goes, its own end comes first, then the ends of
  // things that its held deleter leads to, and then those that its next one does.
  lemma OwnThenHeldThenNext(slots: map<Slot, Target>, refs: map<Id, nat>, i: Id)
    returns (h: seq<Target>, n: seq<Target>)
    requires i in refs && refs[i] == 1
    ensures Unwind(slots, refs, Impl(i)).0 == [Impl(i)] + h + n
    ensures AllFrom(slots, HeldOf(slots, i), h) && AllFrom(slots, NextOf(slots, i), n)
  {
    var (h', left) := Unwind(slots, refs - {i}, HeldOf(slots, i));
    h, n := h', Unwind(slots, left, NextOf(slots, i)).0;
    EndedFrom(slots, refs - {i}, HeldOf(slots, i));
    EndedFrom(slots, left, NextOf(slots, i));
  }

  // ----- A chain that is one deleter's own -----

  ghost predicate Names(t: Target, ids: seq<Id>) {
    t.Impl? && t.id in ids
  }

  // Impls with one name each, the next deleter of each naming the one after it, and
  // the last one's next deleter being end.
  ghost predicate OwnChain(slots: map<Slot, Target>, refs: map<Id, nat>, ids: seq<Id>, end: Target) {
    && (forall k :: 0 <= k < |ids| ==> ids[k] in refs && refs[ids[k]] == 1)
    && (forall k, l :: 0 <= k < l < |ids| ==> ids[k] != ids[l])
    && (forall k :: 0 <= k < |ids| ==> NextOf(slots, ids[k]) == After(ids, end, k))
    && (forall j :: j in refs ==> !Names(HeldOf(slots, j), ids))
    && Apart(slots, refs, ids) && !Names(end, ids)
  }

  ghost function After(ids: seq<Id>, end: Target, k: nat): Target {
    if k + 1 < |ids| then Impl(ids[k + 1]) else end
  }

  // No impl beside the chain names one on it.
  ghost predicate Apart(slots: map<Slot, Target>, refs: map<Id, nat>, ids: seq<Id>) {
    forall j :: j in refs && j !in ids ==> !Names(HeldOf(slots, j), ids) && !Names(NextOf(slots, j), ids)
  }

  // What ends beside the chain leaves it alone.
  lemma {:induction false} Spared(slots: map<Slot, Target>, refs: map<Id, nat>, t: Target, ids: seq<Id>)
    requires Apart(slots, refs, ids) && !Names(t, ids)
    ensures var rest := Unwind(slots, refs, t).1;
      forall i :: i in ids && i in refs ==> i in rest && rest[i] == refs[i]
    decreases refs.Keys
  {
    if t.Impl? && t.id in refs && refs[t.id] == 1 {
      var i := t.id;
      Spared(slots, refs - {i}, HeldOf(slots, i), ids);
      Spared(slots, Unwind(slots, refs - {i}, HeldOf(slots, i)).1, NextOf(slots, i), ids);
    }
  }

  // The impls in order, each followed by what its held deleter lets go.
  ghost function Woven(ids: seq<Id>, held: seq<seq<Target>>): seq<Target>
    requires |held| == |ids|
  {
    if ids == [] then [] else [Impl(ids[0])] + held[0] + Woven(ids[1..], held[1..])
  }

  // The chain ends in its order, and then what its end names does.
  lemma {:induction false} ChainUnwinds(slots: map<Slot, Target>, refs: map<Id, nat>, ids: seq<Id>, end: Target)
    returns (held: seq<seq<Target>>, rest: map<Id, nat>)
    requires OwnChain(slots, refs, ids, end)
    ensures |held| == |ids| && forall k :: 0 <= k < |ids| ==> AllFrom(slots, HeldOf(slots, ids[k]), held[k])
    ensures Unwind(slots, refs, if ids == [] then end else Impl(ids[0])).0 ==
      Woven(ids, held) + Unwind(slots, rest, end).0
    decreases |ids|
  {
    hide Unwind, OwnChain, HeldOf, NextOf, AllFrom;
    held, rest := [], refs;
    if ids != [] {
      var left := Unwind(slots, refs - {ids[0]}, HeldOf(slots, ids[0])).1;
      ChainOn(slots, refs, ids, end, left);
      var h := FirstEnds(slots, refs, ids[0], left);
      held, rest := ChainUnwinds(slots, left, ids[1..], end);
      held := [h] + held;
    }
  }

  lemma FirstEnds(slots: map<Slot, Target>, refs: map<Id, nat>, i: Id, left: map<Id, nat>) returns (h: seq<Target>)
    requires i in refs && refs[i] == 1 && left == Unwind(slots, refs - {i}, HeldOf(slots, i)).1
    ensures Unwind(slots, refs, Impl(i)).0 == [Impl(i)] + h + Unwind(slots, left, NextOf(slots, i)).0
    ensures AllFrom(slots, HeldOf(slots, i), h)
  {
    h := Unwind(slots, refs - {i}, HeldOf(slots, i)).0;
    EndedFrom(slots, refs - {i}, HeldOf(slots, i));
  }

  lemma ChainOn(slots: map<Slot, Target>, refs: map<Id, nat>, ids: seq<Id>, end: Target, left: map<Id, nat>)
    requires OwnChain(slots, refs, ids, end) && ids != []
    requires left == Unwind(slots, refs - {ids[0]}, HeldOf(slots, ids[0])).1
    ensures ids[0] in refs && refs[ids[0]] == 1
    ensures NextOf(slots, ids[0]) == if ids[1..] == [] then end else Impl(ids[1..][0])
    ensures OwnChain(slots, left, ids[1..], end)
  {
    hide NextOf, HeldOf, Unwind, Names;
    assert NextOf(slots, ids[0]) == After(ids, end, 0);
    var others := ids[1..];
    ApartOn(slots, refs, ids, end, left);
    Spared(slots, refs - {ids[0]}, HeldOf(slots, ids[0]), others);
    forall k | 0 <= k < |others|
      ensures others[k] == ids[k + 1] && others[k] in left && left[others[k]] == 1
      ensures NextOf(slots, others[k]) == After(others, end, k)
    {
      assert ids[k + 1] != ids[0];
      assert NextOf(slots, ids[k + 1]) == After(ids, end, k + 1);
    }
  }

  lemma ApartOn(slots: map<Slot, Target>, refs: map<Id, nat>, ids: seq<Id>, end: Target, left: map<Id, nat>)
    requires OwnChain(slots, refs, ids, end) && ids != [] && left.Keys <= refs.Keys - {ids[0]}
    ensures Apart(slots, refs - {ids[0]}, ids[1..]) && Apart(slots, left, ids[1..]) && !Names(end, ids[1..])
    ensures forall j :: j in refs ==> !Names(HeldOf(slots, j), ids[1..])
  {
    hide NextOf, HeldOf, After;
    assert forall j :: j in ids ==> j == ids[0] || j in ids[1..];
  }

  // A way whose impls are named from it only is such a chain.
  lemma WayIsChain(slots: map<Slot, Target>, refs: map<Id, nat>, h: nat, ids: seq<Id>, t: Target)
    requires Leads(slots, h, ids) && Sole(slots, h, ids) && slots[Spot(h, ids, |ids|)] == t && !Names(t, ids)
    requires forall k :: 0 <= k < |ids| ==> ids[k] in refs && refs[ids[k]] == 1
    ensures OwnChain(slots, refs, ids, t)
  {
    hide NextOf, HeldOf, After, Leads, Names, Spot;
    WayFollows(slots, h, ids, t);
    forall j
      ensures !Names(HeldOf(slots, j), ids) && (j !in ids ==> !Names(NextOf(slots, j), ids))
    {
      OnlyFromWay(slots, h, ids, j);
    }
  }

  lemma WayFollows(slots: map<Slot, Target>, h: nat, ids: seq<Id>, t: Target)
    requires Leads(slots, h, ids) && slots[Spot(h, ids, |ids|)] == t
    ensures forall k :: 0 <= k < |ids| ==> NextOf(slots, ids[k]) == After(ids, t, k)
  {
    forall k | 0 <= k < |ids|
      ensures NextOf(slots, ids[k]) == After(ids, t, k)
    {
      assert Spot(h, ids, k + 1) == Next(ids[k]);
    }
  }

  lemma OnlyFromWay(slots: map<Slot, Target>, h: nat, ids: seq<Id>, j: Id)
    requires Sole(slots, h, ids)
    ensures !Names(HeldOf(slots, j), ids) && (j !in ids ==> !Names(NextOf(slots, j), ids))
  {
    forall k | 0 <= k < |ids|
      ensures HeldOf(slots, j) != Impl(ids[k]) && (j !in ids ==> NextOf(slots, j) != Impl(ids[k]))
    {
      SpotIs(h, ids, k);
    }
  }
}
