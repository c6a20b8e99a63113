/** Whole runs of the coded registry: any sequence of calls a well-behaved client makes, constructions
    and destructions included, reaches only live objects, computes the registry run, and leaves
    allocated exactly the connections that are listed. As in C++ an object is constructed in storage
    that exists before; storage may be used again. */
module Runs {
  import opened Registry
  import opened Signals

  ghost function SignalsAfter(S: set<Signal>, op: Op<Signal, HasSlots>): set<Signal> {
    match op
    case NewSignal(s) => S + {s}
    case CopySignal(_, s) => S + {s}
    case DestroySignal(s) => S - {s}
    case _ => S
  }

  ghost function ReceiversAfter(R: set<HasSlots>, op: Op<Signal, HasSlots>): set<HasSlots> {
    match op
    case NewReceiver(r) => R + {r}
    case CopyReceiver(_, r) => R + {r}
    case DestroyReceiver(r) => R - {r}
    case _ => R
  }

  lemma NewSignalStep(w: World<Signal, HasSlots>, S: set<Signal>, R: set<HasSlots>, s: Signal)
    requires w.lists.Keys == S && w.senders.Keys == R && s !in S
    requires forall t :: t in S ==> SlotsOf(t) == w.lists[t]
    requires forall r :: r in R ==> r.senders == w.senders[r]
    requires s.connectedSlots == [] && s.issued == 0
    ensures Abs(S + {s}, R) == Step(w, NewSignal(s))
  {
    assert View(s.connectedSlots) == [];
    AbsIs(S + {s}, R, Step(w, NewSignal(s)));
  }

  lemma NewReceiverStep(w: World<Signal, HasSlots>, S: set<Signal>, R: set<HasSlots>, r: HasSlots)
    requires w.lists.Keys == S && w.senders.Keys == R && r !in R
    requires forall s :: s in S ==> SlotsOf(s) == w.lists[s]
    requires forall q :: q in R ==> q.senders == w.senders[q]
    requires r.senders == {}
    ensures Abs(S, R + {r}) == Step(w, NewReceiver(r))
  {
    AbsIs(S, R + {r}, Step(w, NewReceiver(r)));
  }

  /** e, if it lives on, has kept connections or gained new ones. */
  ghost predicate KeepsOwn(e: Signal?, S: set<Signal>, was: seq<Connection>, next: Node)
    reads e
  {
    e in S ==> Extends(e, was, next)
  }

  /** One call, dispatched to the method that makes it. Afterwards the connections of the live signals
      are the allocated ones again: what the call allocated is listed, what left a list is deleted.
      Any signal e that lives on has kept connections or gained new ones. */
  method Perform(op: Op<Signal, HasSlots>, ghost e: Signal?, ghost S: set<Signal>, ghost R: set<HasSlots>,
                 ghost ledger: Ledger)
    requires Defined(Abs(S, R), op) && Sound(S, ledger)
    modifies S + SignalsAfter(S, op), R + ReceiversAfter(R, op), ledger
    ensures Sound(SignalsAfter(S, op), ledger) && fresh(ledger.live - old(ledger.live))
    ensures Abs(SignalsAfter(S, op), ReceiversAfter(R, op)) == Step(old(Abs(S, R)), op)
    ensures e in S ==> KeepsOwn(e, SignalsAfter(S, op), old(e.connectedSlots), old(e.issued))
  {
    if op.NewSignal? {
      op.s.Construct();
      SplitConnections(S + {op.s}, op.s);
      assert S + {op.s} - {op.s} == S;
      NewSignalStep(old(Abs(S, R)), S, R, op.s);
    } else if op.NewReceiver? {
      op.r.Construct();
      NewReceiverStep(old(Abs(S, R)), S, R, op.r);
    } else if op.Connect? {
      op.s.Connect(op.r, op.fun, S, R, ledger);
    } else if op.Disconnect? {
      ViewMembers(op.s.connectedSlots);
      op.s.Disconnect(op.r, S, R, ledger);
    } else if op.CopySignal? || op.CopyReceiver? {
      PerformCopy(op, e, S, R, ledger);
    } else {
      PerformClearing(op, e, S, R, ledger);
    }
  }

  /** The copy constructors. */
  method PerformCopy(op: Op<Signal, HasSlots>, ghost e: Signal?, ghost S: set<Signal>,
                     ghost R: set<HasSlots>, ghost ledger: Ledger)
    requires op.CopySignal? || op.CopyReceiver?
    requires Defined(Abs(S, R), op) && Sound(S, ledger)
    modifies S + SignalsAfter(S, op), R + ReceiversAfter(R, op), ledger
    ensures Sound(SignalsAfter(S, op), ledger) && fresh(ledger.live - old(ledger.live))
    ensures Abs(SignalsAfter(S, op), ReceiversAfter(R, op)) == Step(old(Abs(S, R)), op)
    ensures e in S ==> KeepsOwn(e, SignalsAfter(S, op), old(e.connectedSlots), old(e.issued))
  {
    match op
    case CopySignal(from, s) =>
      LiveDests(S, R, from);
      s.ConstructCopy(from, S, R, ledger);
    case CopyReceiver(origin, r) =>
      r.ConstructCopy(origin, S, R, ledger);
  }

  /** `disconnect_all` and the destructors, on either side. */
  method PerformClearing(op: Op<Signal, HasSlots>, ghost e: Signal?, ghost S: set<Signal>,
                         ghost R: set<HasSlots>, ghost ledger: Ledger)
    requires op.DisconnectSignal? || op.DestroySignal? || op.DisconnectReceiver? || op.DestroyReceiver?
    requires Defined(Abs(S, R), op) && Sound(S, ledger)
    modifies S + SignalsAfter(S, op), R + ReceiversAfter(R, op), ledger
    ensures Sound(SignalsAfter(S, op), ledger) && fresh(ledger.live - old(ledger.live))
    ensures Abs(SignalsAfter(S, op), ReceiversAfter(R, op)) == Step(old(Abs(S, R)), op)
    ensures e in S ==> KeepsOwn(e, SignalsAfter(S, op), old(e.connectedSlots), old(e.issued))
  {
    match op
    case DisconnectSignal(s) =>
      LiveDests(S, R, s);
      s.DisconnectAll(S, R, ledger);
    case DestroySignal(s) =>
      LiveDests(S, R, s);
      s.Destroy(S, R, ledger);
    case DisconnectReceiver(r) =>
      r.DisconnectAll(S, R, ledger);
    case DestroyReceiver(r) =>
      r.Destroy(S, R, ledger);
  }

  /** Every object that an operation constructs is constructed in SP or RP. */
  ghost predicate InStorage(ops: seq<Op<Signal, HasSlots>>, SP: set<Signal>, RP: set<HasSlots>) {
    forall op :: op in ops ==> SignalsAfter({}, op) <= SP && ReceiversAfter({}, op) <= RP
  }

  ghost predicate Within(S: set<Signal>, R: set<HasSlots>, SP: set<Signal>, RP: set<HasSlots>) {
    S <= SP && R <= RP
  }

  /** e, if there is such a signal, has lived on and kept connections or gained new ones. */
  ghost predicate Survives(e: Signal?, S: set<Signal>, was: seq<Connection>, next: Node)
    reads e
  {
    e != null ==> e in S && Extends(e, was, next)
  }

  /** Calls made one after the other, from any sound state; none of them destroys e. */
  method PerformAll(ops: seq<Op<Signal, HasSlots>>, ghost e: Signal?, ghost S0: set<Signal>,
                    ghost R0: set<HasSlots>, ghost SP: set<Signal>, ghost RP: set<HasSlots>, ghost ledger: Ledger)
    returns (ghost S: set<Signal>, ghost R: set<HasSlots>)
    requires Possible(Abs(S0, R0), ops) && Sound(S0, ledger)
    requires Within(S0, R0, SP, RP) && InStorage(ops, SP, RP)
    requires e != null ==> e in S0
    requires forall op :: op in ops && op.DestroySignal? ==> op.s != e
    modifies SP, RP, ledger
    ensures Sound(S, ledger) && Within(S, R, SP, RP)
    ensures Abs(S, R) == Run(old(Abs(S0, R0)), ops)
    ensures e != null ==> Survives(e, S, old(e.connectedSlots), old(e.issued))
  {
    S, R := S0, R0;
    ghost var was, next := if e == null then [] else e.connectedSlots, if e == null then 0 else e.issued;
    var i := 0;
    while i < |ops|
      invariant 0 <= i <= |ops| && Within(S, R, SP, RP)
      invariant Sound(S, ledger)
      invariant Possible(Abs(S, R), ops[i..])
      invariant Run(Abs(S, R), ops[i..]) == Run(old(Abs(S0, R0)), ops)
      invariant Survives(e, S, was, next)
    {
      S, R := PerformNth(ops, i, e, S, R, SP, RP, was, next, ledger);
      i := i + 1;
    }
    assert ops[i..] == [];
  }

  /** The body of that loop. */
  method PerformNth(ops: seq<Op<Signal, HasSlots>>, i: nat, ghost e: Signal?, ghost S0: set<Signal>,
                    ghost R0: set<HasSlots>, ghost SP: set<Signal>, ghost RP: set<HasSlots>,
                    ghost was: seq<Connection>, ghost next: Node, ghost ledger: Ledger)
    returns (ghost S: set<Signal>, ghost R: set<HasSlots>)
    requires i < |ops| && Possible(Abs(S0, R0), ops[i..]) && Sound(S0, ledger)
    requires Within(S0, R0, SP, RP) && InStorage(ops, SP, RP) && Survives(e, S0, was, next)
    requires forall op :: op in ops && op.DestroySignal? ==> op.s != e
    modifies SP, RP, ledger
    ensures Sound(S, ledger) && Within(S, R, SP, RP) && Survives(e, S, was, next)
    ensures Possible(Abs(S, R), ops[i + 1..])
    ensures Run(Abs(S, R), ops[i + 1..]) == old(Run(Abs(S0, R0), ops[i..]))
  {
    RunSuffix(Abs(S0, R0), ops, i);
    StaysWithin(ops, ops[i], S0, R0, SP, RP);
    ghost var mid, midNext := if e == null then [] else e.connectedSlots, if e == null then 0 else e.issued;
    Perform(ops[i], e, S0, R0, ledger);
    SurvivesOp(e, ops[i], S0, was, next, mid, midNext);
    S, R := SignalsAfter(S0, ops[i]), ReceiversAfter(R0, ops[i]);
  }

  lemma SurvivesOp(e: Signal?, op: Op<Signal, HasSlots>, S: set<Signal>, was: seq<Connection>, next: Node,
                   mid: seq<Connection>, midNext: Node)
    requires op.DestroySignal? ==> op.s != e
    requires e != null ==> e in S && next <= midNext
    requires e != null ==> (forall c :: c in mid ==> c in was || next <= c.number) && Extends(e, mid, midNext)
    ensures Survives(e, SignalsAfter(S, op), was, next)
  {
  }

  lemma RunSuffix(w: World<Signal, HasSlots>, ops: seq<Op<Signal, HasSlots>>, i: nat)
    requires i < |ops| && Possible(w, ops[i..])
    ensures Defined(w, ops[i]) && Possible(Step(w, ops[i]), ops[i + 1..])
    ensures Run(w, ops[i..]) == Run(Step(w, ops[i]), ops[i + 1..])
  {
    assert ops[i..][0] == ops[i] && ops[i..][1..] == ops[i + 1..];
  }

  lemma StaysWithin(ops: seq<Op<Signal, HasSlots>>, op: Op<Signal, HasSlots>, S: set<Signal>, R: set<HasSlots>,
                    SP: set<Signal>, RP: set<HasSlots>)
    requires op in ops && InStorage(ops, SP, RP) && Within(S, R, SP, RP)
    ensures Within(SignalsAfter(S, op), ReceiversAfter(R, op), SP, RP)
  {
  }

  ghost predicate EveryRegistrationListed(S: set<Signal>, R: set<HasSlots>)
    reads S, R
  {
    forall s, r :: r in R && s in r.senders ==> s in S && r in Dests(s.connectedSlots)
  }

  ghost predicate EveryConnectionRegistered(S: set<Signal>, R: set<HasSlots>)
    reads S, R
  {
    forall s, r :: s in S && r in Dests(s.connectedSlots) ==> r in R && s in r.senders
  }

  /** A whole run, from no objects at all, in the storage SP and RP. Whatever the client, as long as
      no call meets a destroyed object, every list stays owned, the objects end in the state the
      registry run computes, every registration is backed by a connection, and the connections
      allocated over the run and not deleted are those that the live signals list. For a
      well-behaved client, whose runs are always of that kind, registration and connection
      coincide. */
  method RunCalls(ops: seq<Op<Signal, HasSlots>>, ghost SP: set<Signal>, ghost RP: set<HasSlots>,
                  ghost ledger: Ledger)
    returns (ghost S: set<Signal>, ghost R: set<HasSlots>)
    requires Possible(Empty(), ops) || WellBehaved(Empty(), ops)
    requires InStorage(ops, SP, RP) && ledger.live == {}
    modifies SP, RP, ledger
    ensures Possible(Empty(), ops) && Abs(S, R) == Run(Empty(), ops)
    ensures ledger.live == Connections(S) && forall s :: s in S ==> s.Tidy()
    ensures EveryRegistrationListed(S, R)
    ensures WellBehaved(Empty(), ops) ==> EveryConnectionRegistered(S, R)
  {
    if WellBehaved(Empty(), ops) {
      WellBehavedRunsAreSafe(Empty<Signal, HasSlots>(), ops);
    }
    assert Abs({}, {}) == Empty();
    S, R := PerformAll(ops, null, {}, {}, SP, RP, ledger);
    Agreement(ops, S, R);
  }

  lemma Agreement(ops: seq<Op<Signal, HasSlots>>, S: set<Signal>, R: set<HasSlots>)
    requires Possible(Empty(), ops) && Abs(S, R) == Run(Empty(), ops)
    ensures EveryRegistrationListed(S, R)
    ensures WellBehaved(Empty(), ops) ==> EveryConnectionRegistered(S, R)
  {
    RunsKeepRegisteredConnected(Empty<Signal, HasSlots>(), ops);
    RegisteredOnHeap(S, R);
    if WellBehaved(Empty(), ops) {
      WellBehavedRunsAreSafe(Empty<Signal, HasSlots>(), ops);
      ConnectedOnHeap(S, R);
    }
  }

  lemma RegisteredOnHeap(S: set<Signal>, R: set<HasSlots>)
    requires RegisteredConnected(Abs(S, R))
    ensures EveryRegistrationListed(S, R)
  {
    forall s, r | r in R && s in r.senders
      ensures s in S && r in Dests(s.connectedSlots)
    {
      var w := Abs(S, R);
      assert r in w.senders && s in w.senders[r];
      assert s in w.lists && Targets(w.lists[s].conns, r);
      ViewMembers(s.connectedSlots);
    }
  }

  lemma ConnectedOnHeap(S: set<Signal>, R: set<HasSlots>)
    requires ConnectedRegistered(Abs(S, R))
    ensures EveryConnectionRegistered(S, R)
  {
    forall s, r | s in S && r in Dests(s.connectedSlots)
      ensures r in R && s in r.senders
    {
      ViewMembers(s.connectedSlots);
      var c :| c in s.connectedSlots && c.dest == r;
      assert Label(c) in Abs(S, R).lists[s].conns;
    }
  }
}
