// ptr::release as a protocol between concurrent holders of one raw.  A holder
// that sees the count at one deletes the raw without decrementing; any other
// holder decrements and deletes at zero.
module RawRelease {

  type Holder = nat

  // Where a ptr is: it holds the raw, it is inside release and has loaded the
  // count, it has decided to delete the raw, or it is done.
  datatype Stage = Holding | Loaded(seen: nat) | Deleting | Gone

  // nref, every ptr that ever named the raw, and how often the raw was deleted.
  datatype State = State(nref: nat, stages: map<Holder, Stage>, deletions: nat)

  // The ptrs that still count: they hold the raw or are about to give it up.
  ghost function Active(s: State): set<Holder> {
    set h | h in s.stages && (s.stages[h].Holding? || s.stages[h].Loaded?)
  }

  ghost function Deleters(s: State): set<Holder> {
    set h | h in s.stages && s.stages[h].Deleting?
  }

  // The raw's first ptr.
  ghost predicate Init(s: State) {
    exists h :: s == State(1, map[h := Holding], 0)
  }

  datatype Step =
    | Copy(from: Holder, to: Holder)
    | Load(h: Holder)
    | FastPath(h: Holder)
    | Decrement(h: Holder)
    | Delete(h: Holder)

  // A step is enabled; a copy needs a source that is not being released.
  ghost predicate Enabled(s: State, step: Step) {
    match step
    case Copy(from, to) => from in s.stages && s.stages[from].Holding? && to !in s.stages
    case Load(h) => h in s.stages && s.stages[h].Holding?
    case FastPath(h) => h in s.stages && s.stages[h].Loaded? && s.stages[h].seen == 1
    case Decrement(h) => h in s.stages && s.stages[h].Loaded? && s.stages[h].seen != 1
    case Delete(h) => h in s.stages && s.stages[h].Deleting?
  }

  // --nref on an unsigned counter.
  function Decremented(nref: nat): nat {
    if nref == 0 then 0xFFFF_FFFF_FFFF_FFFF else nref - 1
  }

  ghost function Next(s: State, step: Step): State
    requires Enabled(s, step)
  {
    match step
    case Copy(from, to) => State(s.nref + 1, s.stages[to := Holding], s.deletions)
    case Load(h) => State(s.nref, s.stages[h := Loaded(s.nref)], s.deletions)
    case FastPath(h) => State(s.nref, s.stages[h := Deleting], s.deletions)
    case Decrement(h) =>
      var n := Decremented(s.nref);
      State(n, s.stages[h := if n == 0 then Deleting else Gone], s.deletions)
    case Delete(h) => State(s.nref, s.stages[h := Gone], s.deletions + 1)
  }

  // A run: every step is enabled where it is taken.
  ghost predicate Runs(s: State, steps: seq<Step>, t: State)
    decreases steps
  {
    if steps == [] then s == t
    else Enabled(s, steps[0]) && Runs(Next(s, steps[0]), steps[1..], t)
  }

  // Either the raw is live, its count is the number of active ptrs, and whoever
  // saw a count of one is alone; or no active ptr is left and exactly one ptr
  // deletes or has deleted.
  ghost predicate Inv(s: State) {
    var a, d := Active(s), Deleters(s);
    && (a != {} ==> s.deletions == 0 && d == {} && s.nref == |a|)
    && (a == {} ==> s.deletions + |d| == 1)
    && forall h :: h in a && s.stages[h].Loaded? && s.stages[h].seen == 1 ==> a == {h}
  }

  lemma InitInv(s: State)
    requires Init(s)
    ensures Inv(s)
  {
    var h :| s == State(1, map[h := Holding], 0);
    assert Active(s) == {h} && Deleters(s) == {};
  }

  // How one change of stage changes the two sets.
  lemma StageChange(s: State, t: State, h: Holder, stage: Stage)
    requires t.stages == s.stages[h := stage]
    ensures Active(t) == if stage.Holding? || stage.Loaded? then Active(s) + {h} else Active(s) - {h}
    ensures Deleters(t) == if stage.Deleting? then Deleters(s) + {h} else Deleters(s) - {h}
  {
    forall x
      ensures x in Active(t) <==> if x == h then stage.Holding? || stage.Loaded? else x in Active(s)
      ensures x in Deleters(t) <==> if x == h then stage.Deleting? else x in Deleters(s)
    {
    }
  }

  lemma CopyInv(s: State, from: Holder, to: Holder)
    requires Inv(s) && Enabled(s, Copy(from, to))
    ensures Inv(Next(s, Copy(from, to)))
  {
    var t := Next(s, Copy(from, to));
    assert from in Active(s);
    StageChange(s, t, to, Holding);
  }

  lemma LoadInv(s: State, h: Holder)
    requires Inv(s) && Enabled(s, Load(h))
    ensures Inv(Next(s, Load(h)))
  {
    var t := Next(s, Load(h));
    assert h in Active(s);
    StageChange(s, t, h, Loaded(s.nref));
    assert Active(s) + {h} == Active(s) && Deleters(s) - {h} == Deleters(s);
    if s.nref == 1 {
      OnlyOne(Active(s), h);
    }
  }

  lemma FastPathInv(s: State, h: Holder)
    requires Inv(s) && Enabled(s, FastPath(h))
    ensures Inv(Next(s, FastPath(h)))
  {
    var t := Next(s, FastPath(h));
    assert h in Active(s);
    assert Active(s) == {h} && Deleters(s) == {};
    StageChange(s, t, h, Deleting);
    assert Deleters(t) == {h};
  }

  lemma DecrementInv(s: State, h: Holder)
    requires Inv(s) && Enabled(s, Decrement(h))
    ensures Inv(Next(s, Decrement(h)))
  {
    var t := Next(s, Decrement(h));
    assert h in Active(s);
    StageChange(s, t, h, t.stages[h]);
    if |Active(s)| == 1 {
      OnlyOne(Active(s), h);
      assert Deleters(t) == {h};
    }
  }

  lemma DeleteInv(s: State, h: Holder)
    requires Inv(s) && Enabled(s, Delete(h))
    ensures Inv(Next(s, Delete(h)))
  {
    var t := Next(s, Delete(h));
    assert h in Deleters(s);
    StageChange(s, t, h, Gone);
  }

  lemma StepInv(s: State, step: Step)
    requires Inv(s) && Enabled(s, step)
    ensures Inv(Next(s, step))
  {
    hide Inv, Enabled, Next;
    match step {
      case Copy(from, to) => CopyInv(s, from, to);
      case Load(h) => LoadInv(s, h);
      case FastPath(h) => FastPathInv(s, h);
      case Decrement(h) => DecrementInv(s, h);
      case Delete(h) => DeleteInv(s, h);
    }
  }

  lemma OnlyOne(a: set<Holder>, h: Holder)
    requires h in a && |a| == 1
    ensures a == {h}
  {
    assert |a - {h}| == 0;
  }

  lemma {:induction false} RunInv(s: State, steps: seq<Step>, t: State)
    requires Inv(s) && Runs(s, steps, t)
    ensures Inv(t)
    decreases steps
  {
    if steps != [] {
      StepInv(s, steps[0]);
      RunInv(Next(s, steps[0]), steps[1..], t);
    }
  }

  // Safety over every interleaving: the raw is deleted at most once, and never
  // while a ptr still holds it or is about to touch its count.
  lemma DeletedOnceAndUnheld(s: State, steps: seq<Step>, t: State)
    requires Init(s) && Runs(s, steps, t)
    ensures t.deletions <= 1
    ensures t.deletions == 1 || Deleters(t) != {} ==> Active(t) == {}
    ensures |Deleters(t)| <= 1
  {
    InitInv(s);
    RunInv(s, steps, t);
  }

  // Once every ptr is gone, the raw has been deleted exactly once.
  lemma DeletedInTheEnd(s: State, steps: seq<Step>, t: State)
    requires Init(s) && Runs(s, steps, t)
    requires forall h :: h in t.stages ==> t.stages[h].Gone?
    ensures t.deletions == 1
  {
    InitInv(s);
    RunInv(s, steps, t);
    assert Active(t) == {} && Deleters(t) == {};
  }

  // No count is touched after the deletion, and the counter never wraps.
  lemma NoUseAfterDelete(s: State, steps: seq<Step>, t: State, step: Step)
    requires Init(s) && Runs(s, steps, t) && Enabled(t, step)
    ensures t.deletions == 0
    ensures step.Decrement? ==> t.nref > 0
  {
    InitInv(s);
    RunInv(s, steps, t);
    var h := if step.Copy? then step.from else step.h;
    if step.Delete? {
      assert h in Deleters(t);
      assert |Deleters(t)| > 0;
    } else {
      assert h in Active(t);
    }
  }

  // Copying a ptr that another thread is releasing is not a step of the
  // protocol: if it were, the fast path would delete under the new holder.
  lemma CopyFromReleasedBreaks()
    ensures exists s, steps, t ::
      Init(s) && Runs(s, steps, t) && t.stages == map[0 := Loaded(1)] && t.nref == 1 &&
      var copied := State(t.nref + 1, t.stages[1 := Holding], t.deletions);
      Enabled(copied, FastPath(0)) && Deleters(Next(copied, FastPath(0))) != {} &&
      1 in Active(Next(copied, FastPath(0)))
  {
    var s := State(1, map[0 := Holding], 0);
    assert Init(s);
    var t := Next(s, Load(0));
    assert Runs(t, [], t);
    assert [Load(0)][1..] == [];
    assert Runs(s, [Load(0)], t);
    assert t.stages == map[0 := Loaded(1)];
    var copied := State(t.nref + 1, t.stages[1 := Holding], t.deletions);
    var u := Next(copied, FastPath(0));
    assert 0 in Deleters(u) && 1 in Active(u);
  }
}
