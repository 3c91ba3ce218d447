/** Ownership of the implementation objects behind the public handles, and of the callbacks registered with
    them (src/core.cpp:261-320, src/utils.cpp:50-77, include/clogs/core.h:249-385). Addresses are numbers;
    deleting an object removes its address from the live ones. */
module Ownership {

  datatype Pointer = Null | Addr(a: nat)

  /** A callback as its caller passed it: the user data (numbered, different in every registration), whether
      a function to free it came with it, and whether it goes through an object allocated by the header: the
      wrapper of a C++ callback, or the copy of a function object, which has nothing else to free. */
  datatype Registration = Registration(data: nat, frees: bool, wrapped: bool)

  datatype Slot = Empty | Registered(reg: Registration)

  datatype State = State(
    handles: map<nat, Pointer>, // public objects and what they point to
    details: map<nat, Slot>,    // live implementation objects and their callback
    wrappers: set<nat>,         // live wrapper objects, by the user data in them
    created: nat,               // implementation objects allocated so far
    deleted: seq<nat>,          // implementation objects deleted so far
    freed: seq<nat>,            // user data freed so far
    used: set<nat>,             // user data passed so far
    accepted: set<nat>,         // user data to be freed, passed to an initialised object
    leaked: set<nat>            // user data whose wrapper was allocated for an uninitialised object
  )

  function Initial(): State {
    State(map[], map[], {}, 0, [], [], {}, {}, {})
  }

  datatype Op =
    | Construct(h: nat)                         // with a device and a problem
    | DefaultConstruct(h: nat)
    | MoveConstruct(h: nat, other: nat)
    | MoveAssign(h: nat, other: nat)
    | Swap(h: nat, other: nat)
    | SetEventCallback(h: nat, reg: Registration)
    | Destroy(h: nat)

  /** What C++ demands: objects exist when used and do not when constructed; user data differs. */
  predicate Enabled(s: State, op: Op) {
    match op
    case Construct(h) => h !in s.handles
    case DefaultConstruct(h) => h !in s.handles
    case MoveConstruct(h, other) => h !in s.handles && other in s.handles
    case MoveAssign(h, other) => h in s.handles && other in s.handles
    case Swap(h, other) => h in s.handles && other in s.handles
    case SetEventCallback(h, reg) => h in s.handles && reg.data !in s.used
    case Destroy(h) => h in s.handles
  }

  /** Calling the free function of what a slot holds. */
  function FreeSlot(s: State, slot: Slot): State {
    match slot
    case Empty => s
    case Registered(reg) =>
      s.(freed := if reg.frees then s.freed + [reg.data] else s.freed,
         wrappers := if reg.wrapped then s.wrappers - {reg.data} else s.wrappers)
  }

  /** Deleting an implementation object. */
  function Delete(s: State, p: Pointer): State
    requires p.Addr? ==> p.a in s.details
  {
    match p
    case Null => s
    case Addr(d) => FreeSlot(s, s.details[d]).(details := s.details - {d}, deleted := s.deleted + [d])
  }

  /** Where a handle stops pointing at its object because the other takes it. */
  function Stolen(s: State, h: nat, other: nat): State
    requires other in s.handles
  {
    s.(handles := s.handles[h := s.handles[other]][other := Null])
  }

  /** Registering with an uninitialised object throws, after the wrapper has been allocated. */
  function Register(s: State, p: Pointer, reg: Registration): State
    requires p.Addr? ==> p.a in s.details
  {
    match p
    case Null =>
      s.(used := s.used + {reg.data},
         leaked := if reg.wrapped then s.leaked + {reg.data} else s.leaked,
         wrappers := if reg.wrapped then s.wrappers + {reg.data} else s.wrappers)
    case Addr(d) =>
      var t := FreeSlot(s.(wrappers := if reg.wrapped then s.wrappers + {reg.data} else s.wrappers), s.details[d]);
      t.(details := s.details[d := Registered(reg)], used := s.used + {reg.data},
         accepted := if reg.frees then s.accepted + {reg.data} else s.accepted)
  }

  // ---- what every step keeps

  predicate NoRepeats(xs: seq<nat>) {
    forall i, j | 0 <= i < j < |xs| :: xs[i] != xs[j]
  }

  lemma AppendNew(xs: seq<nat>, x: nat)
    requires NoRepeats(xs) && x !in xs
    ensures NoRepeats(xs + [x])
  {
  }

  ghost predicate Owns(s: State, h: nat, d: nat) {
    h in s.handles && s.handles[h] == Addr(d)
  }

  /** Every live object has one owner: a handle, or whoever holds the pending pointer. */
  ghost predicate OneOwner(s: State, pending: Pointer) {
    && (forall h, d | Owns(s, h, d) :: d in s.details && pending != Addr(d))
    && (forall h, h', d | Owns(s, h, d) && Owns(s, h', d) :: h == h')
    && (forall d | d in s.details :: pending == Addr(d) || exists h :: Owns(s, h, d))
    && (pending.Addr? ==> pending.a in s.details)
  }

  /** Every object ever allocated is live, or was deleted, once. */
  ghost predicate DeletedOnce(s: State) {
    && NoRepeats(s.deleted)
    && (forall d | d in s.details :: d < s.created && d !in s.deleted)
    && (forall d | d in s.deleted :: d < s.created)
    && (forall d: nat | d < s.created :: d in s.details || d in s.deleted)
  }

  ghost predicate Holds(s: State, d: nat, reg: Registration) {
    d in s.details && s.details[d] == Registered(reg)
  }

  /** User data is freed at most once, not while it is registered, and not if it was never accepted; data
      that was accepted is still registered or has been freed. */
  ghost predicate FreedOnce(s: State) {
    && NoRepeats(s.freed)
    && (forall x | x in s.freed :: x in s.accepted)
    && (forall x | x in s.accepted :: x in s.used)
    && (forall d, reg | Holds(s, d, reg) :: reg.data in s.used && reg.data !in s.freed)
    && (forall d, reg | Holds(s, d, reg) :: reg.frees <==> reg.data in s.accepted)
    && (forall d, d', reg, reg' | Holds(s, d, reg) && Holds(s, d', reg') && reg.data == reg'.data :: d == d')
    && (forall x | x in s.accepted :: x in s.freed || exists d, reg :: Holds(s, d, reg) && reg.data == x)
  }

  /** The live wrappers are those of registered callbacks and those that were leaked. */
  ghost predicate WrappersKept(s: State) {
    && (forall x | x in s.leaked :: x in s.used && x in s.wrappers)
    && (forall d, reg | Holds(s, d, reg) :: reg.data !in s.leaked && (reg.wrapped ==> reg.data in s.wrappers))
    && (forall x | x in s.wrappers :: x in s.leaked || exists d, reg :: Holds(s, d, reg) && reg.wrapped && reg.data == x)
  }

  ghost predicate InvWith(s: State, pending: Pointer) {
    OneOwner(s, pending) && DeletedOnce(s) && FreedOnce(s) && WrappersKept(s)
  }

  ghost predicate Inv(s: State) {
    InvWith(s, Null)
  }

  /** What a handle points to is live. */
  function PointsTo(s: State, h: nat): (p: Pointer)
    requires Inv(s) && h in s.handles
    ensures p == s.handles[h] && (p.Addr? ==> p.a in s.details)
  {
    assert s.handles[h].Addr? ==> Owns(s, h, s.handles[h].a);
    s.handles[h]
  }

  ghost function Step(s: State, op: Op): State
    requires Inv(s) && Enabled(s, op)
  {
    match op
    case Construct(h) =>
      s.(handles := s.handles[h := Addr(s.created)], details := s.details[s.created := Empty], created := s.created + 1)
    case DefaultConstruct(h) => s.(handles := s.handles[h := Null])
    case MoveConstruct(h, other) => Stolen(s, h, other)
    case MoveAssign(h, other) => if h == other then s else Delete(Stolen(s, h, other), PointsTo(s, h))
    case Swap(h, other) => s.(handles := s.handles[h := s.handles[other]][other := s.handles[h]])
    case SetEventCallback(h, reg) => Register(s, PointsTo(s, h), reg)
    case Destroy(h) => Delete(s.(handles := s.handles - {h}), PointsTo(s, h))
  }

  lemma DeleteKeepsOwner(s: State, p: Pointer)
    requires OneOwner(s, p)
    ensures OneOwner(Delete(s, p), Null)
  {
    var t := Delete(s, p);
    assert forall h, d :: Owns(t, h, d) <==> Owns(s, h, d);
  }

  lemma DeleteKeepsDeleted(s: State, p: Pointer)
    requires DeletedOnce(s) && (p.Addr? ==> p.a in s.details)
    ensures DeletedOnce(Delete(s, p))
  {
    if p.Addr? {
      AppendNew(s.deleted, p.a);
    }
  }

  /** Freeing what a live object holds and then dropping it. */
  lemma DeleteKeepsFreed(s: State, p: Pointer)
    requires FreedOnce(s) && (p.Addr? ==> p.a in s.details)
    ensures FreedOnce(Delete(s, p))
  {
    var t := Delete(s, p);
    if p.Addr? {
      assert forall d, reg :: Holds(t, d, reg) <==> Holds(s, d, reg) && d != p.a;
      if s.details[p.a].Registered? {
        var gone := s.details[p.a].reg;
        assert Holds(s, p.a, gone);
        if gone.frees {
          AppendNew(s.freed, gone.data);
        }
        forall x | x in t.accepted ensures x in t.freed || exists d, reg :: Holds(t, d, reg) && reg.data == x {
          if x !in s.freed {
            var d, reg :| Holds(s, d, reg) && reg.data == x;
            assert d != p.a ==> Holds(t, d, reg);
          }
        }
      } else {
        forall x | x in t.accepted ensures x in t.freed || exists d, reg :: Holds(t, d, reg) && reg.data == x {
          if x !in s.freed {
            var d, reg :| Holds(s, d, reg) && reg.data == x;
            assert Holds(t, d, reg);
          }
        }
      }
    }
  }

  lemma DeleteKeepsWrappers(s: State, p: Pointer)
    requires WrappersKept(s) && FreedOnce(s) && (p.Addr? ==> p.a in s.details)
    ensures WrappersKept(Delete(s, p))
  {
    var t := Delete(s, p);
    if p.Addr? {
      assert forall d, reg :: Holds(t, d, reg) <==> Holds(s, d, reg) && d != p.a;
      if s.details[p.a].Registered? {
        assert Holds(s, p.a, s.details[p.a].reg);
      }
      forall x | x in t.wrappers
        ensures x in t.leaked || exists d, reg :: Holds(t, d, reg) && reg.wrapped && reg.data == x
      {
        if x !in s.leaked {
          var d, reg :| Holds(s, d, reg) && reg.wrapped && reg.data == x;
          assert d != p.a ==> Holds(t, d, reg);
        }
      }
    }
  }

  lemma DeleteKeeps(s: State, p: Pointer)
    requires InvWith(s, p)
    ensures Inv(Delete(s, p))
  {
    DeleteKeepsOwner(s, p);
    DeleteKeepsDeleted(s, p);
    DeleteKeepsFreed(s, p);
    DeleteKeepsWrappers(s, p);
  }

  /** Who holds which registration after a new one. */
  lemma RegisterHolds(s: State, d: nat, reg: Registration)
    requires d in s.details
    ensures var t := Register(s, Addr(d), reg);
            forall d', reg' :: Holds(t, d', reg') <==> if d' == d then reg' == reg else Holds(s, d', reg')
  {
  }

  lemma RegisterKeepsFreed(s: State, p: Pointer, reg: Registration)
    requires FreedOnce(s) && WrappersKept(s) && reg.data !in s.used && (p.Addr? ==> p.a in s.details)
    ensures FreedOnce(Register(s, p, reg))
  {
    var t := Register(s, p, reg);
    if p.Null? {
      assert forall d, reg :: Holds(t, d, reg) <==> Holds(s, d, reg);
    } else {
      hide Register, FreeSlot;
      RegisterHolds(s, p.a, reg);
      RegisterFrees(s, p.a, reg);
      if s.details[p.a].Registered? {
        assert Holds(s, p.a, s.details[p.a].reg);
      }
      assert Holds(t, p.a, reg);
      forall x | x in t.accepted ensures x in t.freed || exists d, reg :: Holds(t, d, reg) && reg.data == x {
        if x != reg.data && x !in s.freed {
          var d, reg' :| Holds(s, d, reg') && reg'.data == x;
          assert d != p.a ==> Holds(t, d, reg');
        }
      }
    }
  }

  /** What a new registration frees: the user data of the old one, if it was to be freed. */
  lemma RegisterFrees(s: State, d: nat, reg: Registration)
    requires FreedOnce(s) && d in s.details
    ensures var t, slot := Register(s, Addr(d), reg), s.details[d];
            && t.freed == (if slot.Registered? && slot.reg.frees then s.freed + [slot.reg.data] else s.freed)
            && NoRepeats(t.freed)
            && t.used == s.used + {reg.data}
            && t.accepted == if reg.frees then s.accepted + {reg.data} else s.accepted
  {
    if s.details[d].Registered? {
      assert Holds(s, d, s.details[d].reg);
      AppendNew(s.freed, s.details[d].reg.data);
    }
  }

  lemma RegisterKeepsWrappers(s: State, p: Pointer, reg: Registration)
    requires FreedOnce(s) && WrappersKept(s) && reg.data !in s.used && (p.Addr? ==> p.a in s.details)
    ensures WrappersKept(Register(s, p, reg))
  {
    var t := Register(s, p, reg);
    if p.Null? {
      assert forall d, reg :: Holds(t, d, reg) <==> Holds(s, d, reg);
    } else {
      RegisterHolds(s, p.a, reg);
      if s.details[p.a].Registered? {
        assert Holds(s, p.a, s.details[p.a].reg);
      }
      assert Holds(t, p.a, reg);
    }
    forall x | x in t.wrappers
      ensures x in t.leaked || exists d, reg :: Holds(t, d, reg) && reg.wrapped && reg.data == x
    {
      if x != reg.data && x !in s.leaked {
        var d, reg' :| Holds(s, d, reg') && reg'.wrapped && reg'.data == x;
        assert Addr(d) != p ==> Holds(t, d, reg');
      }
    }
  }

  lemma RegisterKeeps(s: State, p: Pointer, reg: Registration)
    requires Inv(s) && reg.data !in s.used && (p.Addr? ==> p.a in s.details)
    ensures Inv(Register(s, p, reg))
  {
    RegisterKeepsFreed(s, p, reg);
    RegisterKeepsWrappers(s, p, reg);
    var t := Register(s, p, reg);
    assert forall h, d :: Owns(t, h, d) <==> Owns(s, h, d);
  }

  /** Changing who points to what leaves the callbacks alone. */
  lemma SameDetails(s: State, t: State)
    requires FreedOnce(s) && WrappersKept(s) && DeletedOnce(s)
    requires t == s.(handles := t.handles)
    ensures FreedOnce(t) && WrappersKept(t) && DeletedOnce(t)
  {
    assert forall d, reg :: Holds(t, d, reg) <==> Holds(s, d, reg);
  }

  /** A handle gives up its object to another that is new or whose own object becomes pending. */
  lemma StealKeeps(s: State, h: nat, other: nat)
    requires Inv(s) && other in s.handles && h != other
    ensures InvWith(Stolen(s, h, other), if h in s.handles then s.handles[h] else Null)
  {
    var t := Stolen(s, h, other);
    SameDetails(s, t);
    assert forall g, d :: Owns(t, g, d) <==> if g == h then Owns(s, other, d) else g != other && Owns(s, g, d);
    assert h in s.handles && s.handles[h].Addr? ==> Owns(s, h, s.handles[h].a);
    forall d | d in t.details
      ensures (h in s.handles && s.handles[h] == Addr(d)) || exists g :: Owns(t, g, d)
    {
      var g :| Owns(s, g, d);
      assert Owns(t, if g == other then h else g, d) || g == h;
    }
  }

  lemma SwapKeeps(s: State, h: nat, other: nat)
    requires Inv(s) && h in s.handles && other in s.handles
    ensures Inv(Step(s, Swap(h, other)))
  {
    var t := Step(s, Swap(h, other));
    SameDetails(s, t);
    assert forall g, d :: Owns(t, g, d) <==> Owns(s, if g == h then other else if g == other then h else g, d);
    forall d | d in t.details ensures exists g :: Owns(t, g, d) {
      var g :| Owns(s, g, d);
      assert Owns(t, if g == h then other else if g == other then h else g, d);
    }
  }

  lemma ConstructKeeps(s: State, h: nat)
    requires Inv(s) && h !in s.handles
    ensures Inv(Step(s, Construct(h)))
  {
    var t := Step(s, Construct(h));
    assert forall d, reg :: Holds(t, d, reg) <==> Holds(s, d, reg);
    assert forall g, d :: Owns(t, g, d) <==> Owns(s, g, d) || (g == h && d == s.created);
    forall d | d in t.details ensures exists g :: Owns(t, g, d) {
      if d == s.created {
        assert Owns(t, h, d);
      } else {
        var g :| Owns(s, g, d);
        assert Owns(t, g, d);
      }
    }
  }

  lemma DefaultConstructKeeps(s: State, h: nat)
    requires Inv(s) && h !in s.handles
    ensures Inv(Step(s, DefaultConstruct(h)))
  {
    var t := Step(s, DefaultConstruct(h));
    SameDetails(s, t);
    assert forall g, d :: Owns(t, g, d) <==> Owns(s, g, d);
  }

  lemma DropKeeps(s: State, h: nat)
    requires Inv(s) && h in s.handles
    ensures InvWith(s.(handles := s.handles - {h}), s.handles[h])
  {
    var t := s.(handles := s.handles - {h});
    SameDetails(s, t);
    assert forall g, d :: Owns(t, g, d) <==> Owns(s, g, d) && g != h;
    assert s.handles[h].Addr? ==> Owns(s, h, s.handles[h].a);
  }

  /** Every operation keeps the invariant. */
  lemma StepKeeps(s: State, op: Op)
    requires Inv(s) && Enabled(s, op)
    ensures Inv(Step(s, op))
  {
    hide InvWith, Register, Delete;
    match op
    case Construct(h) => ConstructKeeps(s, h);
    case DefaultConstruct(h) => DefaultConstructKeeps(s, h);
    case MoveConstruct(h, other) => StealKeeps(s, h, other);
    case MoveAssign(h, other) =>
      if h != other {
        StealKeeps(s, h, other);
        DeleteKeeps(Stolen(s, h, other), PointsTo(s, h));
      }
    case Swap(h, other) => SwapKeeps(s, h, other);
    case SetEventCallback(h, reg) => RegisterKeeps(s, PointsTo(s, h), reg);
    case Destroy(h) =>
      DropKeeps(s, h);
      DeleteKeeps(s.(handles := s.handles - {h}), PointsTo(s, h));
  }

  /** The states of a run. */
  ghost predicate IsRun(states: seq<State>, ops: seq<Op>) {
    && |states| == |ops| + 1 && states[0] == Initial()
    && forall i | 0 <= i < |ops| :: Follows(states, ops, i)
  }

  ghost predicate Follows(states: seq<State>, ops: seq<Op>, i: nat)
    requires i < |ops| && |states| == |ops| + 1
  {
    Inv(states[i]) ==> Enabled(states[i], ops[i]) && states[i + 1] == Step(states[i], ops[i])
  }

  lemma {:induction false} RunKeeps(states: seq<State>, ops: seq<Op>, i: nat)
    requires IsRun(states, ops) && i < |states|
    ensures Inv(states[i])
  {
    if i > 0 {
      RunKeeps(states, ops, i - 1);
      assert Follows(states, ops, i - 1);
      StepKeeps(states[i - 1], ops[i - 1]);
    }
  }

  /** In every state of every run: no object has two owners or none, none is deleted twice or while it is
      owned, and no user data is freed twice or while it is registered. */
  lemma RunIsSafe(states: seq<State>, ops: seq<Op>, i: nat)
    requires IsRun(states, ops) && i < |states|
    ensures var s := states[i];
            && (forall h, h', d | Owns(s, h, d) && Owns(s, h', d) :: h == h')
            && (forall h, d | Owns(s, h, d) :: d in s.details && d !in s.deleted)
            && (forall d | d in s.details :: exists h :: Owns(s, h, d))
            && NoRepeats(s.deleted) && NoRepeats(s.freed)
            && (forall d, reg | Holds(s, d, reg) :: reg.data !in s.freed)
  {
    RunKeeps(states, ops, i);
  }

  /** When the last handle is gone, every implementation object has been deleted once, and the user data
      freed, once each, is exactly what was to be freed and was passed to an initialised object. The
      wrappers that remain are exactly those allocated for uninitialised objects. */
  lemma NothingRemains(states: seq<State>, ops: seq<Op>, i: nat)
    requires IsRun(states, ops) && i < |states| && states[i].handles == map[]
    ensures var s := states[i];
            && s.details == map[]
            && NoRepeats(s.deleted) && (forall d: nat :: d in s.deleted <==> d < s.created)
            && NoRepeats(s.freed) && (forall x :: x in s.freed <==> x in s.accepted)
            && s.wrappers == s.leaked
  {
    RunKeeps(states, ops, i);
    var s := states[i];
    assert forall h, d :: !Owns(s, h, d);
    assert forall d :: d !in s.details;
    assert forall d, reg :: !Holds(s, d, reg);
  }

  /** What was freed or deleted stays so, and nothing is taken back. */
  lemma StepExtends(s: State, op: Op)
    requires Inv(s) && Enabled(s, op)
    ensures s.freed <= Step(s, op).freed && s.deleted <= Step(s, op).deleted
    ensures s.accepted <= Step(s, op).accepted && s.leaked <= Step(s, op).leaked
  {
  }

  /** A callback handed to a handle is accepted exactly when the handle is initialised; the wrapper leaks
      exactly when it is not. */
  lemma AcceptedExactly(s: State, h: nat, reg: Registration)
    requires Inv(s) && Enabled(s, SetEventCallback(h, reg))
    ensures var t := Step(s, SetEventCallback(h, reg));
            && (reg.data in t.accepted <==> reg.frees && s.handles[h].Addr?)
            && (reg.data in t.leaked <==> reg.wrapped && s.handles[h].Null?)
            && (s.handles[h].Addr? ==> Holds(t, s.handles[h].a, reg))
  {
    assert s.handles[h].Addr? ==> Owns(s, h, s.handles[h].a);
  }

  lemma InitialKeeps()
    ensures Inv(Initial())
  {
  }

  /** A wrapped callback set on an uninitialised object: when the program is done, its wrapper is still there
      and its user data has not been freed. */
  lemma WrapperLost() returns (states: seq<State>, ops: seq<Op>)
    ensures IsRun(states, ops) && |ops| == 3
    ensures ops[1] == SetEventCallback(0, Registration(7, true, true))
    ensures states[3].handles == map[] && states[3].wrappers == {7} && states[3].freed == []
  {
    hide OneOwner, DeletedOnce, FreedOnce, WrappersKept;
    InitialKeeps();
    ops := [DefaultConstruct(0), SetEventCallback(0, Registration(7, true, true)), Destroy(0)];
    var s0 := Initial();
    StepKeeps(s0, ops[0]);
    var s1 := Step(s0, ops[0]);
    StepKeeps(s1, ops[1]);
    var s2 := Step(s1, ops[1]);
    states := [s0, s1, s2, Step(s2, ops[2])];
  }

  /** The object a pointer points to, if any. */
  function Object(p: Pointer): (objects: set<nat>)
    ensures p == Null ==> objects == {}
    ensures forall d :: d in objects <==> p == Addr(d)
  {
    match p case Null => {} case Addr(d) => {d}
  }

  /** Who owns what after an operation that does not register a callback: a new handle owns a new object without
      a callback, or nothing; a moved object belongs to the handle it was moved to, whose own object is deleted;
      swapped handles exchange their objects; and no object that is left has another callback than before. */
  lemma WhoOwnsWhat(s: State, op: Op, g: nat, d: nat)
    requires Inv(s) && Enabled(s, op) && !op.SetEventCallback?
    ensures var t := Step(s, op);
            match op
            case Construct(h) =>
              Owns(t, g, d) <==> if g == h then d == s.created else Owns(s, g, d)
            case DefaultConstruct(h) => Owns(t, g, d) <==> Owns(s, g, d)
            case MoveConstruct(h, other) =>
              Owns(t, g, d) <==> if g == h then Owns(s, other, d) else g != other && Owns(s, g, d)
            case MoveAssign(h, other) =>
              Owns(t, g, d) <==> if h == other then Owns(s, g, d)
                                 else if g == h then Owns(s, other, d) else g != other && Owns(s, g, d)
            case Swap(h, other) =>
              Owns(t, g, d) <==> Owns(s, if g == h then other else if g == other then h else g, d)
            case Destroy(h) => Owns(t, g, d) <==> g != h && Owns(s, g, d)
    ensures var t := Step(s, op);
            match op
            case Construct(_) => t.details == s.details[s.created := Empty] && s.created !in s.details
            case MoveAssign(h, other) =>
              forall e :: e in t.details <==> e in s.details && (h == other || !Owns(s, h, e))
            case Destroy(h) => forall e :: e in t.details <==> e in s.details && !Owns(s, h, e)
            case _ => t.details == s.details
    ensures forall e | e in Step(s, op).details && e in s.details :: Step(s, op).details[e] == s.details[e]
  {
  }

  // ---- the operations as the source performs them

  /** The objects of a program that uses the library, and a record of what has been deleted and freed. */
  class Library {
    var handles: map<nat, Pointer>
    var details: map<nat, Slot>
    var wrappers: set<nat>
    var created: nat
    var deleted: seq<nat>
    var freed: seq<nat>
    ghost var used: set<nat>
    ghost var accepted: set<nat>
    ghost var leaked: set<nat>

    ghost function Now(): State
      reads this
    {
      State(handles, details, wrappers, created, deleted, freed, used, accepted, leaked)
    }

    constructor ()
      ensures Now() == Initial() && Inv(Now())
    {
      handles, details, wrappers, created, deleted, freed := map[], map[], {}, 0, [], [];
      used, accepted, leaked := {}, {}, {};
    }

    /** Algorithm::moveConstruct. */
    method StealPointer(h: nat, other: nat)
      requires other in handles && h != other
      modifies this`handles
      ensures Now() == Stolen(old(Now()), h, other)
      ensures handles[h] == old(handles[other]) && handles[other] == Null
      ensures handles.Keys == old(handles.Keys) + {h}
      ensures forall g | g in old(handles) && g != h && g != other :: handles[g] == old(handles[g])
    {
      handles := handles[h := handles[other]];
      handles := handles[other := Null];
    }

    /** Algorithm::moveAssign: takes the pointer and returns the one it replaces. */
    method ExchangePointer(h: nat, other: nat) returns (previous: Pointer)
      requires h in handles && other in handles
      modifies this`handles
      ensures h == other ==> previous == Null && Now() == old(Now())
      ensures h != other ==> previous == old(handles[h]) && Now() == Stolen(old(Now()), h, other)
      ensures h != other ==> handles[h] == old(handles[other]) && handles[other] == Null
      ensures handles.Keys == old(handles.Keys)
      ensures forall g | g in old(handles) && g != h && g != other :: handles[g] == old(handles[g])
    {
      previous := Null;
      if h != other {
        previous := handles[h];
        handles := handles[h := handles[other]];
        handles := handles[other := Null];
      }
    }

    /** Calls the free function that came with a callback, which for a wrapped one deletes the wrapper. */
    method CallFree(slot: Slot)
      modifies this`freed, this`wrappers
      ensures Now() == FreeSlot(old(Now()), slot)
      ensures freed == old(freed) + if slot.Registered? && slot.reg.frees then [slot.reg.data] else []
      ensures wrappers == old(wrappers) - if slot.Registered? && slot.reg.wrapped then {slot.reg.data} else {}
    {
      if slot.Registered? {
        if slot.reg.frees {
          freed := freed + [slot.reg.data];
        }
        if slot.reg.wrapped {
          wrappers := wrappers - {slot.reg.data};
        }
      }
    }

    /** The delete expression, with the destructor of the implementation object. */
    method DeleteDetail(p: Pointer)
      requires InvWith(Now(), p)
      modifies this
      ensures Now() == Delete(old(Now()), p) && Inv(Now())
      ensures handles == old(handles) && created == old(created)
      ensures details == old(details) - Object(p) && deleted == old(deleted) + if p.Addr? then [p.a] else []
      ensures p.Null? ==> freed == old(freed) && wrappers == old(wrappers)
      ensures p.Addr? ==> Freed(old(details[p.a]), old(freed), old(wrappers), freed, wrappers)
    {
      DeleteKeeps(Now(), p);
      if p.Addr? {
        CallFree(details[p.a]);
        details := details - {p.a};
        deleted := deleted + [p.a];
      }
    }

    /** The user data and the wrapper that go when a slot is emptied. */
    static predicate Freed(slot: Slot, freed: seq<nat>, wrappers: set<nat>, freed': seq<nat>, wrappers': set<nat>) {
      match slot
      case Empty => freed' == freed && wrappers' == wrappers
      case Registered(reg) =>
        && freed' == (if reg.frees then freed + [reg.data] else freed)
        && wrappers' == (if reg.wrapped then wrappers - {reg.data} else wrappers)
    }

    /** If the constructor of the implementation object throws, the handle does not come into being either. */
    method Construct(h: nat, fails: bool) returns (thrown: bool)
      requires Inv(Now()) && Enabled(Now(), Op.Construct(h))
      modifies this
      ensures thrown <==> fails
      ensures Now() == (if thrown then old(Now()) else Step(old(Now()), Op.Construct(h))) && Inv(Now())
      ensures old(created) !in old(details)
      ensures !thrown ==> handles == old(handles)[h := Addr(old(created))] && details == old(details)[old(created) := Empty]
    {
      if fails {
        return true;
      }
      StepKeeps(Now(), Op.Construct(h));
      var d := created;
      created := created + 1;
      details := details[d := Empty];
      handles := handles[h := Addr(d)];
      thrown := false;
    }

    method DefaultConstruct(h: nat)
      requires Inv(Now()) && Enabled(Now(), Op.DefaultConstruct(h))
      modifies this
      ensures Now() == Step(old(Now()), Op.DefaultConstruct(h)) && Inv(Now())
      ensures handles == old(handles)[h := Null] && details == old(details)
    {
      StepKeeps(Now(), Op.DefaultConstruct(h));
      handles := handles[h := Null];
    }

    method MoveConstruct(h: nat, other: nat)
      requires Inv(Now()) && Enabled(Now(), Op.MoveConstruct(h, other))
      modifies this
      ensures Now() == Step(old(Now()), Op.MoveConstruct(h, other)) && Inv(Now())
      ensures handles.Keys == old(handles.Keys) + {h} && handles[h] == old(handles[other]) && handles[other] == Null
      ensures forall g | g in old(handles) && g != other :: handles[g] == old(handles[g])
      ensures details == old(details) && deleted == old(deleted) && freed == old(freed)
    {
      StepKeeps(Now(), Op.MoveConstruct(h, other));
      StealPointer(h, other);
    }

    method MoveAssign(h: nat, other: nat)
      requires Inv(Now()) && Enabled(Now(), Op.MoveAssign(h, other))
      modifies this
      ensures Now() == Step(old(Now()), Op.MoveAssign(h, other)) && Inv(Now())
      ensures h == other ==> Now() == old(Now())
      ensures h != other ==> handles[h] == old(handles[other]) && handles[other] == Null
      ensures handles.Keys == old(handles.Keys)
      ensures forall g | g in old(handles) && g != h && g != other :: handles[g] == old(handles[g])
      ensures h != other ==> details == old(details) - Object(old(handles[h]))
      ensures h != other && old(handles[h]).Addr? ==>
                deleted == old(deleted) + [old(handles[h]).a]
                && old(handles[h]).a in old(details)
                && Freed(old(details[handles[h].a]), old(freed), old(wrappers), freed, wrappers)
    {
      if h != other {
        StealKeeps(Now(), h, other);
      }
      var previous := ExchangePointer(h, other);
      DeleteDetail(previous);
    }

    method Swap(h: nat, other: nat)
      requires Inv(Now()) && Enabled(Now(), Op.Swap(h, other))
      modifies this
      ensures Now() == Step(old(Now()), Op.Swap(h, other)) && Inv(Now())
      ensures handles[h] == old(handles[other]) && handles[other] == old(handles[h])
      ensures handles.Keys == old(handles.Keys)
      ensures forall g | g in old(handles) && g != h && g != other :: handles[g] == old(handles[g])
      ensures details == old(details) && deleted == old(deleted) && freed == old(freed)
    {
      StepKeeps(Now(), Op.Swap(h, other));
      var tmp := handles[h];
      handles := handles[h := handles[other]];
      handles := handles[other := tmp];
    }

    /** Throws exactly when the handle is uninitialised; the header has allocated a wrapper by then. */
    method SetEventCallback(h: nat, reg: Registration) returns (thrown: bool)
      requires Inv(Now()) && Enabled(Now(), Op.SetEventCallback(h, reg))
      modifies this
      ensures thrown <==> old(handles[h]).Null?
      ensures Now() == Step(old(Now()), Op.SetEventCallback(h, reg)) && Inv(Now())
      ensures handles == old(handles) && deleted == old(deleted)
      ensures thrown ==> details == old(details) && freed == old(freed)
                         && wrappers == old(wrappers) + if reg.wrapped then {reg.data} else {}
      ensures !thrown ==>
                old(handles[h]).a in old(details)
                && details == old(details)[old(handles[h]).a := Registered(reg)]
                && Freed(old(details[handles[h].a]), old(freed), old(wrappers) + (if reg.wrapped then {reg.data} else {}),
                         freed, wrappers)
    {
      hide OneOwner, DeletedOnce, FreedOnce, WrappersKept, FreeSlot;
      StepKeeps(Now(), Op.SetEventCallback(h, reg));
      ghost var p := PointsTo(Now(), h);
      if reg.wrapped {
        wrappers := wrappers + {reg.data};
      }
      if handles[h].Null? {
        used := used + {reg.data};
        leaked := if reg.wrapped then leaked + {reg.data} else leaked;
        return true;
      }
      var d := handles[h].a;
      CallFree(details[d]);
      details := details[d := Registered(reg)];
      used := used + {reg.data};
      accepted := if reg.frees then accepted + {reg.data} else accepted;
      return false;
    }

    method Destroy(h: nat)
      requires Inv(Now()) && Enabled(Now(), Op.Destroy(h))
      modifies this
      ensures Now() == Step(old(Now()), Op.Destroy(h)) && Inv(Now())
      ensures handles == old(handles) - {h} && details == old(details) - Object(old(handles[h]))
      ensures old(handles[h]).Addr? ==>
                deleted == old(deleted) + [old(handles[h]).a]
                && old(handles[h]).a in old(details)
                && Freed(old(details[handles[h].a]), old(freed), old(wrappers), freed, wrappers)
    {
      DropKeeps(Now(), h);
      var p := handles[h];
      handles := handles - {h};
      DeleteDetail(p);
    }
  }
}
