/** `emit` as it is coded: the walk over the connection list of a heap signal, while the callbacks it
    makes connect, disconnect, copy and destroy through the same registry. */
module Delivery {
  import opened Registry
  import opened Emission
  import opened Callbacks
  import opened Plans
  import opened Signals
  import opened Runs
  import opened Sequences

  /* ---------- the walk over connection objects ---------- */

  /** Stepping an iterator over the connection it is on. */
  function NextOf(cs: seq<Connection>, c: Connection): Connection?
    requires c in cs
  {
    if cs[0] != c then NextOf(cs[1..], c)
    else if |cs| == 1 then null
    else cs[1]
  }

  ghost function CursorOf(it: Connection?): Cursor {
    if it == null then End else At(it.number)
  }

  ghost function NodesOf(s: Signal): seq<Node>
    reads s
  {
    Nodes(View(s.connectedSlots))
  }

  ghost function NumbersOf(cs: seq<Connection>): seq<Node> {
    Nodes(View(cs))
  }

  lemma NumbersTail(cs: seq<Connection>, next: Node)
    requires Sorted(cs, next) && cs != []
    ensures Sorted(cs[1..], next) && NumbersOf(cs)[1..] == NumbersOf(cs[1..]) && NumbersOf(cs)[0] == cs[0].number
    ensures forall m: Node :: m in NumbersOf(cs[1..]) ==> cs[0].number < m
    ensures forall c :: c in cs[1..] ==> cs[0].number < c.number
  {
    assert forall i :: 0 <= i < |cs| - 1 ==> NumbersOf(cs[1..])[i] == cs[i + 1].number;
  }

  lemma {:induction false} SortedIsOrdered(cs: seq<Connection>, next: Node)
    requires Sorted(cs, next)
    ensures Ordered(NumbersOf(cs), next)
  {
    if cs != [] {
      NumbersTail(cs, next);
      SortedIsOrdered(cs[1..], next);
    }
  }

  /** The lists of tidy signals are numbered. */
  lemma TidyIsNumbered(s: Signal)
    requires s.Tidy()
    ensures Numbered(SlotsOf(s))
  {
    SortedIsOrdered(s.connectedSlots, s.issued);
  }

  lemma {:induction false} NextOfIsSuccessor(cs: seq<Connection>, next: Node, c: Connection)
    requires Sorted(cs, next) && c in cs
    ensures c.number in NumbersOf(cs)
    ensures CursorOf(NextOf(cs, c)) == Successor(NumbersOf(cs), c.number)
    ensures NextOf(cs, c) != null ==> NextOf(cs, c) in cs
  {
    NumbersTail(cs, next);
    if cs[0] != c {
      NextOfIsSuccessor(cs[1..], next, c);
      assert NumbersOf(cs) == [cs[0].number] + NumbersOf(cs[1..]);
    } else if |cs| > 1 {
      assert NumbersOf(cs)[1] == cs[1].number;
    }
  }

  /** A saved connection whose number is still listed is still listed itself. */
  lemma SavedIsListed(s: Signal, was: seq<Connection>, next: Node, saved: Connection)
    requires Sorted(was, next) && saved in was && Extends(s, was, next)
    requires saved.number in NodesOf(s)
    ensures saved in s.connectedSlots
  {
    var i :| 0 <= i < |s.connectedSlots| && NodesOf(s)[i] == saved.number;
    var c := s.connectedSlots[i];
    assert c in s.connectedSlots && c.number == saved.number;
    var j :| 0 <= j < |was| && was[j] == saved;
    var k :| 0 <= k < |was| && was[k] == c;
  }

  /** What one round of the loop leaves to do, in terms of the reference walk. */
  ghost predicate Remaining(s: Signal, it: Connection?, k: nat, cb: Emission.Callbacks, quiet: nat)
    requires Quiet(cb, quiet)
    reads s
  {
    && (it != null ==> it in s.connectedSlots)
    && Polite(Ahead(NodesOf(s), CursorOf(it)), s.issued, k, cb, quiet)
  }

  ghost function TraceFrom(s: Signal, it: Connection?, k: nat, cb: Emission.Callbacks, quiet: nat): seq<Event>
    requires Quiet(cb, quiet)
    reads s
  {
    Trace(Ahead(NodesOf(s), CursorOf(it)), s.issued, k, cb, quiet)
  }

  ghost function Left(s: Signal, it: Connection?): nat
    reads s
  {
    |Ahead(NodesOf(s), CursorOf(it))|
  }

  /** The loop body of `emit`: save the successor, then make the k-th callback. The connection it is
      made through is listed, and so allocated, when it is made. */
  method Deliver(s: Signal, it: Connection, k: nat, calls: Plan<Signal, HasSlots>,
                 ghost w: World<Signal, HasSlots>, ghost quiet: nat, ghost S0: set<Signal>, ghost R0: set<HasSlots>,
                 ghost SP: set<Signal>, ghost RP: set<HasSlots>, ghost ledger: Ledger)
    returns (itNext: Connection?, ghost events: seq<Event>, ghost S: set<Signal>, ghost R: set<HasSlots>)
    requires s in S0 && Sound(S0, ledger) && Within(S0, R0, SP, RP) && InStorage(calls.at(k), SP, RP)
    requires Playable(w, s, calls) && Abs(S0, R0) == WorldAt(w, calls, k)
    requires Quiet(Script(w, s, calls), quiet) && Remaining(s, it, k, Script(w, s, calls), quiet)
    modifies SP, RP, ledger
    ensures s in S && Sound(S, ledger) && Within(S, R, SP, RP)
    ensures Abs(S, R) == WorldAt(w, calls, k + 1)
    ensures Remaining(s, itNext, k + 1, Script(w, s, calls), quiet)
    ensures old(TraceFrom(s, it, k, Script(w, s, calls), quiet)) ==
            [Delivered(it.number)] + events + TraceFrom(s, itNext, k + 1, Script(w, s, calls), quiet)
    ensures forall e :: e in events ==> !e.Delivered?
    ensures k >= quiet ==> Left(s, itNext) < old(Left(s, it))
    ensures Extends(s, old(s.connectedSlots), old(s.issued))
    ensures ListedAt(w, s, calls, k, Label(it))
    ensures it in old(s.connectedSlots)
  {
    Foresee(s, it, k, calls, w, quiet, S0, R0, ledger);
    ghost var was, next := s.connectedSlots, s.issued;
    itNext := NextOf(s.connectedSlots, it);
    events := EditEvents(s.issued, Script(w, s, calls).at(k), itNext != null);
    NoDeliveries(s.issued, Script(w, s, calls).at(k), itNext != null);
    S, R := PerformAll(calls.at(k), s, S0, R0, SP, RP, ledger);
    assert SlotsOf(s) == Abs(S, R).lists[s];
    if itNext != null {
      SavedIsListed(s, was, next, itNext);
    }
  }

  /** What the round leaves to do, told before the callback from the registry it will lead to. */
  lemma Foresee(s: Signal, it: Connection, k: nat, calls: Plan<Signal, HasSlots>,
                w: World<Signal, HasSlots>, quiet: nat, S: set<Signal>, R: set<HasSlots>, ledger: Ledger)
    requires s in S && Sound(S, ledger) && Playable(w, s, calls) && Abs(S, R) == WorldAt(w, calls, k)
    requires Quiet(Script(w, s, calls), quiet) && Remaining(s, it, k, Script(w, s, calls), quiet)
    ensures ListedAt(w, s, calls, k, Label(it))
    ensures Callable(Abs(S, R), s, calls.at(k)) && WorldAt(w, calls, k + 1) == Run(Abs(S, R), calls.at(k))
    ensures s in WorldAt(w, calls, k + 1).lists && Sorted(s.connectedSlots, s.issued)
    ensures
      var cb, itNext := Script(w, s, calls), NextOf(s.connectedSlots, it);
      var sl, at := WorldAt(w, calls, k + 1).lists[s], CursorOf(itNext);
      && (itNext != null ==> itNext in s.connectedSlots && itNext.number in Nodes(sl.conns))
      && Polite(Ahead(Nodes(sl.conns), at), sl.next, k + 1, cb, quiet)
      && TraceFrom(s, it, k, cb, quiet) ==
           [Delivered(it.number)] + EditEvents(s.issued, cb.at(k), itNext != null) +
           Trace(Ahead(Nodes(sl.conns), at), sl.next, k + 1, cb, quiet)
      && (k >= quiet ==> |Ahead(Nodes(sl.conns), at)| < Left(s, it))
  {
    ViewMembers(s.connectedSlots);
    CallbackIsEdits(w, s, calls, k);
    NextOfIsSuccessor(s.connectedSlots, s.issued, it);
    EmitStep(NodesOf(s), s.issued, it.number, k, Script(w, s, calls), quiet);
  }

  /** Every delivery went through a connection that was listed when it was made. */
  ghost predicate ListedInTurn(w: World<Signal, HasSlots>, s: Signal, calls: Plan<Signal, HasSlots>,
                               delivered: seq<Connection>) {
    forall k :: 0 <= k < |delivered| ==> ListedAt(w, s, calls, k, Label(delivered[k]))
  }

  /** Every delivery went through a connection that was listed at the start or allocated since. */
  ghost predicate FromListOrLater(delivered: seq<Connection>, was: seq<Connection>, next: Node) {
    forall c :: c in delivered ==> c in was || next <= c.number
  }

  /** What the deliveries made so far are. */
  ghost predicate DeliveredSoFar(w: World<Signal, HasSlots>, s: Signal, calls: Plan<Signal, HasSlots>,
                           delivered: seq<Connection>, trace: seq<Event>, was: seq<Connection>, next: Node) {
    && NumbersOf(delivered) == Deliveries(trace)
    && ListedInTurn(w, s, calls, delivered)
    && FromListOrLater(delivered, was, next)
  }

  lemma DeliveredOne(w: World<Signal, HasSlots>, s: Signal, calls: Plan<Signal, HasSlots>,
                     delivered: seq<Connection>, trace: seq<Event>, it: Connection, events: seq<Event>,
                     was: seq<Connection>, next: Node)
    requires DeliveredSoFar(w, s, calls, delivered, trace, was, next)
    requires ListedAt(w, s, calls, |delivered|, Label(it))
    requires it in was || next <= it.number
    requires forall e :: e in events ==> !e.Delivered?
    ensures DeliveredSoFar(w, s, calls, delivered + [it], trace + ([Delivered(it.number)] + events), was, next)
  {
    DeliveriesGrow(trace, it.number, events);
    assert NumbersOf(delivered + [it]) == NumbersOf(delivered) + [it.number];
  }

  lemma DeliveriesGrow(t: seq<Event>, n: Node, events: seq<Event>)
    requires forall e :: e in events ==> !e.Delivered?
    ensures Deliveries(t + ([Delivered(n)] + events)) == Deliveries(t) + [n]
  {
    DeliveriesConcat(t, [Delivered(n)] + events);
    assert ([Delivered(n)] + events)[1..] == events;
    DeliveriesAfter(events, []);
    assert events + [] == events;
  }

  lemma {:induction false} DeliveriesConcat(a: seq<Event>, b: seq<Event>)
    ensures Deliveries(a + b) == Deliveries(a) + Deliveries(b)
  {
    if a == [] {
      assert a + b == b;
    } else {
      assert (a + b)[0] == a[0] && (a + b)[1..] == a[1..] + b;
      DeliveriesConcat(a[1..], b);
      Regroup(if a[0].Delivered? then [a[0].n] else [], Deliveries(a[1..]), Deliveries(b));
    }
  }

  lemma ExtendsOn(s: Signal, was: seq<Connection>, next: Node, mid: seq<Connection>, midNext: Node)
    requires next <= midNext && forall c :: c in mid ==> c in was || next <= c.number
    requires Extends(s, mid, midNext)
    ensures Extends(s, was, next)
  {
  }

  /** The walk when k callbacks have been made and the cursor is at it: what has happened and what
      remains make up the trace all. */
  ghost predicate Emitting(w: World<Signal, HasSlots>, s: Signal, calls: Plan<Signal, HasSlots>, quiet: nat,
                           was: seq<Connection>, next: Node, all: seq<Event>, it: Connection?,
                           delivered: seq<Connection>, trace: seq<Event>)
    requires Quiet(Script(w, s, calls), quiet)
    reads s
  {
    && Remaining(s, it, |delivered|, Script(w, s, calls), quiet)
    && trace + TraceFrom(s, it, |delivered|, Script(w, s, calls), quiet) == all
    && DeliveredSoFar(w, s, calls, delivered, trace, was, next)
    && Extends(s, was, next)
  }

  function FirstOf(cs: seq<Connection>): Connection? {
    if cs == [] then null else cs[0]
  }

  lemma EmittingBegins(w: World<Signal, HasSlots>, s: Signal, calls: Plan<Signal, HasSlots>, quiet: nat)
    requires Emittable(w, s, calls, quiet) && w.lists[s] == SlotsOf(s)
    ensures Emitting(w, s, calls, quiet, s.connectedSlots, s.issued,
                     Trace(NodesOf(s), s.issued, 0, Script(w, s, calls), quiet), FirstOf(s.connectedSlots), [], [])
  {
    SparesEachNextIsPolite(w, s, calls, quiet);
    assert Ahead(NodesOf(s), CursorOf(FirstOf(s.connectedSlots))) == NodesOf(s);
  }

  lemma EmittingEnds(w: World<Signal, HasSlots>, s: Signal, calls: Plan<Signal, HasSlots>, quiet: nat,
                     was: seq<Connection>, next: Node, all: seq<Event>, delivered: seq<Connection>, trace: seq<Event>)
    requires Quiet(Script(w, s, calls), quiet)
    requires Emitting(w, s, calls, quiet, was, next, all, null, delivered, trace)
    ensures trace == all && NumbersOf(delivered) == Deliveries(trace)
    ensures ListedInTurn(w, s, calls, delivered) && FromListOrLater(delivered, was, next)
  {
  }

  /** From one round to the next: rest was to come before it, and later after it. */
  lemma EmittingGoesOn(w: World<Signal, HasSlots>, s: Signal, calls: Plan<Signal, HasSlots>, was: seq<Connection>,
                       next: Node, all: seq<Event>, it: Connection, delivered: seq<Connection>, trace: seq<Event>,
                       events: seq<Event>, rest: seq<Event>, later: seq<Event>, mid: seq<Connection>, midNext: Node)
    requires DeliveredSoFar(w, s, calls, delivered, trace, was, next) && trace + rest == all
    requires rest == [Delivered(it.number)] + events + later && forall e :: e in events ==> !e.Delivered?
    requires ListedAt(w, s, calls, |delivered|, Label(it)) && it in mid
    requires next <= midNext && forall c :: c in mid ==> c in was || next <= c.number
    requires Extends(s, mid, midNext)
    ensures trace + ([Delivered(it.number)] + events) + later == all
    ensures DeliveredSoFar(w, s, calls, delivered + [it], trace + ([Delivered(it.number)] + events), was, next)
    ensures Extends(s, was, next)
  {
    ExtendsOn(s, was, next, mid, midNext);
    DeliveredOne(w, s, calls, delivered, trace, it, events, was, next);
    Regroup(trace, [Delivered(it.number)] + events, later);
  }

  ghost predicate AllInStorage(calls: Plan<Signal, HasSlots>, SP: set<Signal>, RP: set<HasSlots>) {
    forall k: nat :: InStorage(calls.at(k), SP, RP)
  }

  /** One round, with the account of what has happened. */
  method Round(s: Signal, it: Connection, calls: Plan<Signal, HasSlots>, delivered: seq<Connection>,
               ghost trace: seq<Event>, ghost w: World<Signal, HasSlots>, ghost quiet: nat,
               ghost was: seq<Connection>, ghost next: Node, ghost all: seq<Event>, ghost S0: set<Signal>,
               ghost R0: set<HasSlots>, ghost SP: set<Signal>, ghost RP: set<HasSlots>, ghost ledger: Ledger)
    returns (itNext: Connection?, ghost trace': seq<Event>, ghost S: set<Signal>, ghost R: set<HasSlots>)
    requires s in S0 && Sound(S0, ledger) && Within(S0, R0, SP, RP)
    requires AllInStorage(calls, SP, RP)
    requires Playable(w, s, calls) && Abs(S0, R0) == WorldAt(w, calls, |delivered|)
    requires Quiet(Script(w, s, calls), quiet)
    requires Emitting(w, s, calls, quiet, was, next, all, it, delivered, trace)
    modifies SP, RP, ledger
    ensures s in S && Sound(S, ledger) && Within(S, R, SP, RP)
    ensures Abs(S, R) == WorldAt(w, calls, |delivered| + 1)
    ensures Emitting(w, s, calls, quiet, was, next, all, itNext, delivered + [it], trace')
    ensures |delivered| >= quiet ==> Left(s, itNext) < old(Left(s, it))
  {
    var k := |delivered|;
    ghost var mid, midNext := s.connectedSlots, s.issued;
    ghost var rest := TraceFrom(s, it, k, Script(w, s, calls), quiet);
    ghost var events: seq<Event>;
    itNext, events, S, R := Deliver(s, it, k, calls, w, quiet, S0, R0, SP, RP, ledger);
    ghost var later := TraceFrom(s, itNext, k + 1, Script(w, s, calls), quiet);
    EmittingGoesOn(w, s, calls, was, next, all, it, delivered, trace, events, rest, later, mid, midNext);
    trace' := trace + ([Delivered(it.number)] + events);
  }

  /** `emit` itself: the cursor is always on a listed connection, the loop ends, what happened is the
      reference trace, and the registry is the one that the calls of the callbacks made lead to. */
  method Emit(s: Signal, calls: Plan<Signal, HasSlots>, ghost quiet: nat, ghost S0: set<Signal>,
              ghost R0: set<HasSlots>, ghost SP: set<Signal>, ghost RP: set<HasSlots>, ghost ledger: Ledger)
    returns (delivered: seq<Connection>, ghost trace: seq<Event>, ghost S: set<Signal>, ghost R: set<HasSlots>)
    requires s in S0 && Sound(S0, ledger) && Within(S0, R0, SP, RP)
    requires Emittable(Abs(S0, R0), s, calls, quiet) && AllInStorage(calls, SP, RP)
    modifies SP, RP, ledger
    ensures s in S && Sound(S, ledger) && Within(S, R, SP, RP)
    ensures Abs(S, R) == WorldAt(old(Abs(S0, R0)), calls, |delivered|)
    ensures trace == old(Trace(NodesOf(s), s.issued, 0, Script(Abs(S0, R0), s, calls), quiet))
    ensures NumbersOf(delivered) == Deliveries(trace)
    ensures ListedInTurn(old(Abs(S0, R0)), s, calls, delivered)
    ensures FromListOrLater(delivered, old(s.connectedSlots), old(s.issued))
  {
    ghost var w, was, next := Abs(S0, R0), s.connectedSlots, s.issued;
    ghost var all := Trace(NodesOf(s), s.issued, 0, Script(w, s, calls), quiet);
    delivered, trace, S, R := [], [], S0, R0;
    var it := FirstOf(s.connectedSlots);
    EmittingBegins(w, s, calls, quiet);
    while it != null
      invariant s in S && Sound(S, ledger) && Within(S, R, SP, RP)
      invariant Abs(S, R) == WorldAt(w, calls, |delivered|)
      invariant Emitting(w, s, calls, quiet, was, next, all, it, delivered, trace)
      decreases if |delivered| < quiet then quiet - |delivered| else 0, Left(s, it)
    {
      var now: Connection := it;
      it, trace, S, R := Round(s, now, calls, delivered, trace, w, quiet, was, next, all, S, R, SP, RP, ledger);
      delivered := delivered + [now];
    }
    EmittingEnds(w, s, calls, quiet, was, next, all, delivered, trace);
  }

  /* ---------- what the deliveries are worth ---------- */

  /** A connection listed when `emit` starts is delivered through exactly when no callback before its
      turn erases it; one allocated during the emission, exactly when moreover the saved next was not
      the end. */
  lemma DeliveredExactly(w: World<Signal, HasSlots>, s: Signal, calls: Plan<Signal, HasSlots>, quiet: nat,
                         delivered: seq<Connection>, trace: seq<Event>, n: Node)
    requires Playable(w, s, calls) && Quiet(Script(w, s, calls), quiet)
    requires trace == Trace(Nodes(w.lists[s].conns), w.lists[s].next, 0, Script(w, s, calls), quiet)
    requires NumbersOf(delivered) == Deliveries(trace)
    ensures n in NumbersOf(delivered) <==>
      (n in Nodes(w.lists[s].conns) || Appended(n, true) in trace) && !ErasedFirst(trace, n)
    ensures forall i, j :: 0 <= i < j < |delivered| ==> delivered[i].number < delivered[j].number
  {
    var list, next := Nodes(w.lists[s].conns), w.lists[s].next;
    DeliveryIsExact(list, next, 0, Script(w, s, calls), quiet, n);
    DeliveryIsOrdered(list, next, 0, Script(w, s, calls), quiet);
    DeliveriesMembers(trace);
    assert ExactIf(trace, n in list, next, n);
    forall i, j | 0 <= i < j < |delivered|
      ensures delivered[i].number < delivered[j].number
    {
      assert NumbersOf(delivered)[i] < NumbersOf(delivered)[j];
    }
  }

  /** With callbacks that leave the signal alone, `emit` delivers through the listed connections
      themselves, in order, each once. */
  lemma IdleEmitDeliversTheList(w: World<Signal, HasSlots>, s: Signal, calls: Plan<Signal, HasSlots>,
                                quiet: nat, was: seq<Connection>, next: Node, delivered: seq<Connection>)
    requires Playable(w, s, calls) && Quiet(Script(w, s, calls), quiet)
    requires forall k: nat :: Script(w, s, calls).at(k) == []
    requires Sorted(was, next)
    requires NumbersOf(delivered) == Deliveries(Trace(NumbersOf(was), next, 0, Script(w, s, calls), quiet))
    requires FromListOrLater(delivered, was, next)
    ensures delivered == was
  {
    QuietDeliversAll(NumbersOf(was), next, 0, Script(w, s, calls), quiet);
    assert |delivered| == |NumbersOf(delivered)| == |was|;
    forall i | 0 <= i < |was|
      ensures delivered[i] == was[i]
    {
      assert NumbersOf(delivered)[i] == delivered[i].number && NumbersOf(was)[i] == was[i].number;
      assert delivered[i] in delivered && delivered[i] in was;
      var j :| 0 <= j < |was| && was[j] == delivered[i];
    }
  }
}
