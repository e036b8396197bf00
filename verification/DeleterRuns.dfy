// Whole runs of calls on deleters: whatever is made, moved, assigned, shared,
// appended and destroyed in whatever order, the graph stays sound, no action runs
// before its last holder has gone, and all have run when the clients have gone.
module DeleterRuns {
  import opened Options
  import opened DeleterGraph
  import opened Deleter

  // One call; h is the variable it is made on, or that it makes.
  datatype Op =
    | New(h: nat)
    | MakeFree(h: nat, obj: Option<Action>)
    | Make(h: nat, n: nat, a: Action)
    | MoveTo(h: nat, from: nat)
    | Assign(h: nat, from: nat)
    | Share(h: nat, h': nat)
    | Append(h: nat, d: nat)
    | Destroy(h: nat)

  // What the clients know: their variables, and the actions handed in so far.
  datatype Book = Book(clients: set<nat>, handed: multiset<Action>)

  // Variables exist when they are used, and not before they are made.
  predicate Fits(b: Book, op: Op) {
    match op
    case New(h) => h !in b.clients
    case MakeFree(h, obj) => h !in b.clients
    case Make(h, n, a) => h !in b.clients && n in b.clients
    case MoveTo(h, from) => h !in b.clients && from in b.clients
    case Assign(h, from) => h in b.clients && from in b.clients
    case Share(h, h') => h in b.clients && h' !in b.clients
    case Append(h, d) => h in b.clients && d in b.clients && h != d
    case Destroy(h) => h in b.clients
  }

  function Step(b: Book, op: Op): Book {
    if !Fits(b, op) then b
    else
      match op
      case New(h) => Book(b.clients + {h}, b.handed)
      case MakeFree(h, obj) => Book(b.clients + {h}, if obj.Some? then b.handed + multiset{obj.value} else b.handed)
      case Make(h, n, a) => Book(b.clients + {h}, b.handed + multiset{a})
      case MoveTo(h, from) => Book(b.clients + {h}, b.handed)
      case Assign(h, from) => b
      case Share(h, h') => Book(b.clients + {h'}, b.handed)
      case Append(h, d) => Book(b.clients - {d}, b.handed)
      case Destroy(h) => Book(b.clients - {h}, b.handed)
  }

  function Steps(b: Book, ops: seq<Op>): Book {
    if ops == [] then b else Step(Steps(b, ops[..|ops| - 1]), ops[|ops| - 1])
  }

  // The store is sound, and the book is right about it.
  ghost predicate Kept(s: Store, b: Book)
    reads s
  {
    && s.Inv(multiset{}) && s.created == b.handed
    && forall h {:trigger Client(h)} :: Client(h) in s.slots <==> h in b.clients
  }

  method DoMake(s: Store, op: Op, ghost b: Book)
    requires Kept(s, b) && Fits(b, op) && (op.New? || op.MakeFree? || op.Make? || op.MoveTo?)
    modifies s
    ensures Kept(s, Step(b, op)) && old(s.fired) <= s.fired
  {
    hide Store.Inv;
    match op
    case New(h) => s.New(h);
    case MakeFree(h, obj) => s.MakeFree(h, obj);
    case Make(h, n, a) => var _ := s.Make(h, n, a);
    case MoveTo(h, from) => s.MoveTo(h, from);
  }

  method DoChange(s: Store, op: Op, ghost b: Book)
    requires Kept(s, b) && Fits(b, op) && (op.Assign? || op.Share? || op.Append? || op.Destroy?)
    modifies s
    ensures Kept(s, Step(b, op)) && old(s.fired) <= s.fired
  {
    hide Store.Inv, SharedOn, Meets, Leads, Stripped;
    match op
    case Assign(h, from) => s.Assign(h, from);
    case Share(h, h') => s.Share(h, h');
    case Append(h, d) => var _ := s.Append(h, d);
    case Destroy(h) => s.Destroy(h);
  }

  // Any run of calls from an empty store.
  method Run(ops: seq<Op>) returns (s: Store)
    ensures fresh(s) && Kept(s, Steps(Book({}, multiset{}), ops))
    ensures Steps(Book({}, multiset{}), ops).clients == {} ==>
      s.slots == map[] && s.refs == map[] && multiset(s.fired) == Steps(Book({}, multiset{}), ops).handed
  {
    hide Store.Inv, Step, Fits;
    s := new Store();
    ghost var start := Book({}, multiset{});
    ghost var b := start;
    assert ops[..0] == [];
    for k := 0 to |ops|
      invariant fresh(s) && Kept(s, b) && b == Steps(start, ops[..k])
    {
      var fits := Fitting(s, ops[k], b);
      if fits {
        if ops[k].New? || ops[k].MakeFree? || ops[k].Make? || ops[k].MoveTo? {
          DoMake(s, ops[k], b);
        } else {
          DoChange(s, ops[k], b);
        }
      } else {
        Unfit(b, ops[k]);
      }
      assert ops[..k + 1][..k] == ops[..k];
      b := Step(b, ops[k]);
    }
    assert ops[..|ops|] == ops;
    if b.clients == {} {
      s.AllGone();
    }
  }

  lemma Unfit(b: Book, op: Op)
    requires !Fits(b, op)
    ensures Step(b, op) == b
  {
  }

  function Fitting(s: Store, op: Op, ghost b: Book): (fits: bool)
    requires Kept(s, b)
    reads s
    ensures fits == Fits(b, op)
  {
    match op
    case New(h) => Client(h) !in s.slots
    case MakeFree(h, obj) => Client(h) !in s.slots
    case Make(h, n, a) => Client(h) !in s.slots && Client(n) in s.slots
    case MoveTo(h, from) => Client(h) !in s.slots && Client(from) in s.slots
    case Assign(h, from) => Client(h) in s.slots && Client(from) in s.slots
    case Share(h, h') => Client(h) in s.slots && Client(h') !in s.slots
    case Append(h, d) => Client(h) in s.slots && Client(d) in s.slots && h != d
    case Destroy(h) => Client(h) in s.slots
  }

  // A client's deleter leads to the impl.
  ghost predicate InReach(slots: map<Slot, Target>, i: Id) {
    exists n: nat :: Reached(slots, i, n)
  }

  // Some impl that a client's deleter leads to has the action, or some deleter has
  // it as its plain object.
  ghost predicate Waiting(slots: map<Slot, Target>, actions: map<Id, Option<Action>>, a: Action) {
    || (exists i :: i in actions && actions[i] == Some(a) && InReach(slots, i))
    || (exists t :: t in slots && slots[t] == Object(a))
  }

  // At every moment of a run, an action handed in once has run or is waiting, and
  // not both.
  lemma RunOrWaiting(s: Store, b: Book, a: Action)
    requires Kept(s, b) && b.handed[a] == 1
    ensures a in s.fired <==> !Waiting(s.slots, s.actions, a)
  {
    s.FiredWhenUnheld(a);
    s.InUse(multiset{}, 0);
    hide Store.Inv, InReach;
    forall i | i in s.actions
      ensures InReach(s.slots, i)
    {
      ActiveReached(s, i);
    }
  }

  lemma ActiveReached(s: Store, i: Id)
    requires s.Inv(multiset{}) && i in s.refs
    ensures InReach(s.slots, i)
  {
    hide Store.Inv;
    s.InUseIffReached(i);
  }
}
