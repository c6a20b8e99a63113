/** The signal/slot registry as it is coded: signals, receivers and connections are heap objects
    that update one another's fields. Every method is proved to make exactly the registry step of
    the same name and to keep the account of connections: the allocated and not yet deleted ones
    are the listed ones, each listed once. The ghost sets S and R are the live signals and
    receivers. */
module Signals {
  import opened Registry
  import opened Sequences

  /** What `new` has allocated and `delete` has not freed. */
  class Ledger {
    ghost var live: set<Connection>
  }

  /** One connection. The ghost owner is the signal whose list it was allocated for, the ghost number
      its place among all connections ever allocated for that list. */
  class Connection {
    const dest: HasSlots
    const fun: nat
    ghost const owner: Signal
    ghost const number: Node

    constructor (dest: HasSlots, fun: nat, ghost owner: Signal, ghost number: Node, ghost ledger: Ledger)
      modifies ledger
      ensures this.dest == dest && this.fun == fun && this.owner == owner && this.number == number
      ensures ledger.live == old(ledger.live) + {this}
    {
      this.dest, this.fun, this.owner, this.number := dest, fun, owner, number;
      new;
      ledger.live := ledger.live + {this};
    }

    method Clone(ghost owner: Signal, ghost number: Node, ghost ledger: Ledger) returns (c: Connection)
      requires this in ledger.live
      modifies ledger
      ensures fresh(c) && ledger.live == old(ledger.live) + {c}
      ensures c.dest == dest && c.fun == fun && c.owner == owner && c.number == number
    {
      c := new Connection(dest, fun, owner, number, ledger);
    }

    method Duplicate(newDest: HasSlots, ghost owner: Signal, ghost number: Node, ghost ledger: Ledger)
      returns (c: Connection)
      requires this in ledger.live
      modifies ledger
      ensures fresh(c) && ledger.live == old(ledger.live) + {c}
      ensures c.dest == newDest && c.fun == fun && c.owner == owner && c.number == number
    {
      c := new Connection(newDest, fun, owner, number, ledger);
    }

    /** `delete`: a second one is undefined, so it may only happen to a live connection. */
    method Delete(ghost ledger: Ledger)
      requires this in ledger.live
      modifies ledger
      ensures ledger.live == old(ledger.live) - {this}
    {
      ledger.live := ledger.live - {this};
    }
  }

  /* ---------- abstraction and ownership ---------- */

  ghost function Label(c: Connection): Conn<HasSlots> {
    Conn(c.dest, c.fun, c.number)
  }

  ghost function View(cs: seq<Connection>): (v: seq<Conn<HasSlots>>)
    ensures |v| == |cs|
  {
    seq(|cs|, i requires 0 <= i < |cs| => Label(cs[i]))
  }

  ghost function SlotsOf(s: Signal): Slots<HasSlots>
    reads s
  {
    Slots(View(s.connectedSlots), s.issued)
  }

  ghost function Abs(S: set<Signal>, R: set<HasSlots>): World<Signal, HasSlots>
    reads S, R
  {
    World(map s | s in S :: SlotsOf(s), map r | r in R :: r.senders)
  }

  ghost function Elems(cs: seq<Connection>): set<Connection> {
    set c | c in cs
  }

  ghost function Connections(S: set<Signal>): set<Connection>
    reads S
  {
    set s, c | s in S && c in s.connectedSlots :: c
  }

  ghost function Dests(cs: seq<Connection>): set<HasSlots> {
    set c | c in cs :: c.dest
  }

  /** In the order of their numbers, which are below next. */
  ghost predicate Sorted(cs: seq<Connection>, next: Node) {
    && (forall i :: 0 <= i < |cs| ==> cs[i].number < next)
    && forall i, j :: 0 <= i < j < |cs| ==> cs[i].number < cs[j].number
  }

  /** Every list is owned, and what is allocated is what is listed. */
  ghost predicate Sound(S: set<Signal>, ledger: Ledger)
    reads S, ledger
  {
    (forall s :: s in S ==> s.Tidy()) && ledger.live == Connections(S)
  }

  /** The live connections after a list has changed from was to cs. */
  ghost function Relisted(live: set<Connection>, was: seq<Connection>, cs: seq<Connection>): set<Connection> {
    live - Elems(was) + Elems(cs)
  }

  /** Tidy signals share no connection. */
  lemma TidyApart(S: set<Signal>, s: Signal)
    requires s.Tidy() && forall t :: t in S ==> t.Tidy()
    ensures forall t, c :: t in S && t != s && c in t.connectedSlots ==> c !in s.connectedSlots
  {
  }

  /** c is the i-th connection of s and stands nowhere else. */
  ghost predicate OnlyAt(S: set<Signal>, c: Connection, s: Signal, i: int)
    reads S, s
  {
    && 0 <= i < |s.connectedSlots| && s.connectedSlots[i] == c
    && forall t, j :: t in S && 0 <= j < |t.connectedSlots| && t.connectedSlots[j] == c ==> t == s && j == i
  }

  /** No connection leaks and none is shared: each live one is at exactly one place in exactly one
      list. */
  lemma LiveIsListedOnce(S: set<Signal>, ledger: Ledger, c: Connection)
    requires Sound(S, ledger) && c in ledger.live
    ensures exists s, i :: s in S && OnlyAt(S, c, s, i)
  {
    var s :| s in S && c in s.connectedSlots;
    var i :| 0 <= i < |s.connectedSlots| && s.connectedSlots[i] == c;
    assert OnlyAt(S, c, s, i);
  }

  lemma SplitConnections(S: set<Signal>, s: Signal)
    requires s in S && forall t :: t in S ==> t.Tidy()
    ensures Connections(S) == Connections(S - {s}) + Elems(s.connectedSlots)
    ensures Connections(S - {s}) !! Elems(s.connectedSlots)
  {
    TidyApart(S, s);
  }

  /** One list has changed, the others have not. */
  lemma Resplit(S: set<Signal>, s: Signal, others: set<Connection>, was: seq<Connection>, live: set<Connection>)
    requires s in S && forall t :: t in S ==> t.Tidy()
    requires Connections(S - {s}) == others && others !! Elems(was)
    requires live == Relisted(others + Elems(was), was, s.connectedSlots)
    ensures live == Connections(S)
  {
    SplitConnections(S, s);
  }

  lemma RelistMore(others: set<Connection>, was: seq<Connection>, cs: seq<Connection>, c: Connection)
    requires Elems(cs) == Elems(was) + {c} && others !! Elems(was)
    ensures Relisted(others + Elems(was), was, cs) == others + Elems(was) + {c}
  {
  }

  lemma RelistLess(live: set<Connection>, was: seq<Connection>, cs: seq<Connection>, cs': seq<Connection>,
                   c: Connection)
    requires Elems(cs) <= Elems(was) && c in Elems(cs) && Elems(cs') == Elems(cs) - {c}
    ensures Relisted(live, was, cs') == Relisted(live, was, cs) - {c}
    ensures Elems(cs') <= Elems(was)
  {
  }

  lemma ViewAppend(cs: seq<Connection>, c: Connection)
    ensures View(cs + [c]) == View(cs) + [Label(c)]
    ensures Elems(cs + [c]) == Elems(cs) + {c}
  {
  }

  lemma ViewMembers(cs: seq<Connection>)
    ensures forall c :: c in cs ==> Label(c) in View(cs)
    ensures forall v :: v in View(cs) ==> exists c :: c in cs && Label(c) == v
    ensures forall r :: Targets(View(cs), r) <==> r in Dests(cs)
  {
    forall c | c in cs
      ensures Label(c) in View(cs)
    {
      var i :| 0 <= i < |cs| && cs[i] == c;
      assert View(cs)[i] == Label(c);
    }
    forall v | v in View(cs)
      ensures exists c :: c in cs && Label(c) == v
    {
      var i :| 0 <= i < |cs| && View(cs)[i] == v;
      assert cs[i] in cs;
    }
  }

  lemma LiveDests(S: set<Signal>, R: set<HasSlots>, s: Signal)
    requires s in S && TargetsLive(Abs(S, R), s)
    ensures Dests(s.connectedSlots) <= R
  {
    ViewMembers(s.connectedSlots);
    forall c | c in s.connectedSlots
      ensures c.dest in R
    {
      assert Label(c) in Abs(S, R).lists[s].conns;
    }
  }

  lemma AbsIs(S: set<Signal>, R: set<HasSlots>, w: World<Signal, HasSlots>)
    requires w.lists.Keys == S && w.senders.Keys == R
    requires forall s :: s in S ==> SlotsOf(s) == w.lists[s]
    requires forall r :: r in R ==> r.senders == w.senders[r]
    ensures Abs(S, R) == w
  {
    assert Abs(S, R).lists == w.lists;
    assert Abs(S, R).senders == w.senders;
  }

  lemma UpdatedIs(w: World<Signal, HasSlots>, S: set<Signal>, R: set<HasSlots>, s: Signal, r: HasSlots)
    requires w.lists.Keys == S && w.senders.Keys == R && s in S && r in R
    requires forall t :: t in S && t != s ==> SlotsOf(t) == w.lists[t]
    requires forall q :: q in R && q != r ==> q.senders == w.senders[q]
    ensures Abs(S, R) == Updated(w, s, SlotsOf(s), r, r.senders)
  {
    AbsIs(S, R, Updated(w, s, SlotsOf(s), r, r.senders));
  }

  lemma ClearedStep(w: World<Signal, HasSlots>, S: set<Signal>, R: set<HasSlots>,
                    s: Signal, cs: seq<Connection>)
    requires w.lists.Keys == S && w.senders.Keys == R
    requires s in S && w.lists[s].conns == View(cs) && Dests(cs) <= R
    requires forall t :: t in S && t != s ==> SlotsOf(t) == w.lists[t]
    requires SlotsOf(s) == Slots([], w.lists[s].next)
    requires forall r :: r in R ==> r.senders == if r in Dests(cs) then w.senders[r] - {s} else w.senders[r]
    requires TargetsLive(w, s)
    ensures Abs(S, R) == Step(w, DisconnectSignal(s))
  {
    ViewMembers(cs);
    AbsIs(S, R, Step(w, DisconnectSignal(s)));
  }

  lemma ClonedStep(w: World<Signal, HasSlots>, S: set<Signal>, R: set<HasSlots>,
                   from: Signal, s: Signal, cs: seq<Connection>)
    requires w.lists.Keys == S && w.senders.Keys == R
    requires from in S && s !in S && w.lists[from].conns == View(cs) && Dests(cs) <= R
    requires forall t :: t in S ==> SlotsOf(t) == w.lists[t]
    requires SlotsOf(s) == Slots(Renumber(View(cs)), |cs|)
    requires forall r :: r in R ==> r.senders == if r in Dests(cs) then w.senders[r] + {s} else w.senders[r]
    requires TargetsLive(w, from)
    ensures Abs(S + {s}, R) == Step(w, CopySignal(from, s))
  {
    ViewMembers(cs);
    AbsIs(S + {s}, R, Step(w, CopySignal(from, s)));
  }

  lemma CopiedStep(w: World<Signal, HasSlots>, S: set<Signal>, R: set<HasSlots>, hs: HasSlots, r: HasSlots)
    requires w.lists.Keys == S && w.senders.Keys == R && hs in R && r !in R && w.senders[hs] <= S
    requires forall s :: s in S ==>
      SlotsOf(s) == if s in w.senders[hs] then Duplicated(w.lists[s], hs, r) else w.lists[s]
    requires r.senders == w.senders[hs]
    requires forall q :: q in R ==> q.senders == w.senders[q]
    ensures Abs(S, R + {r}) == Step(w, CopyReceiver(hs, r))
  {
    AbsIs(S, R + {r}, Step(w, CopyReceiver(hs, r)));
  }

  lemma DestroyedReceiver(w: World<Signal, HasSlots>, S: set<Signal>, R: set<HasSlots>, r: HasSlots)
    requires w.lists.Keys == S && w.senders.Keys == R && r in R && w.senders[r] <= S
    requires Abs(S, R) == Step(w, DisconnectReceiver(r))
    ensures Abs(S, R - {r}) == Step(w, DestroyReceiver(r))
  {
    assert Abs(S, R - {r}).lists == Abs(S, R).lists;
    assert Abs(S, R - {r}).senders == Abs(S, R).senders - {r};
    assert Step(w, DestroyReceiver(r)).senders == Step(w, DisconnectReceiver(r)).senders - {r};
  }

  lemma DestroyedSignal(w: World<Signal, HasSlots>, S: set<Signal>, R: set<HasSlots>, s: Signal)
    requires w.lists.Keys == S && w.senders.Keys == R && s in S && TargetsLive(w, s)
    requires Abs(S, R) == Step(w, DisconnectSignal(s))
    ensures Abs(S - {s}, R) == Step(w, DestroySignal(s))
  {
    assert Abs(S - {s}, R).lists == Abs(S, R).lists - {s};
    assert Abs(S - {s}, R).senders == Abs(S, R).senders;
    assert Step(w, DestroySignal(s)).lists == Step(w, DisconnectSignal(s)).lists - {s};
  }

  /** s, whose list was was, has lost exactly its connections to r. */
  ghost predicate Detached(s: Signal, was: seq<Connection>, next: Node, r: HasSlots)
    reads s
  {
    && SlotsOf(s) == Slots(Select(View(was), r, false), next)
    && Elems(s.connectedSlots) <= Elems(was)
  }

  /** s has gained, at the end and in order, one copy to q of each of its connections to r. */
  ghost predicate HasDuplicated(s: Signal, was: seq<Connection>, next: Node, r: HasSlots, q: HasSlots)
    reads s
  {
    was <= s.connectedSlots && SlotsOf(s) == Duplicated(Slots(View(was), next), r, q)
  }

  /** s lists only what was listed and what was allocated for it since. */
  ghost predicate Extends(s: Signal, was: seq<Connection>, next: Node)
    reads s
  {
    next <= s.issued && forall c :: c in s.connectedSlots ==> c in was || next <= c.number
  }

  lemma DetachedExtends(s: Signal, was: seq<Connection>, next: Node, r: HasSlots)
    requires Detached(s, was, next, r)
    ensures Extends(s, was, next)
  {
    assert forall c :: c in s.connectedSlots ==> c in Elems(s.connectedSlots);
  }

  lemma DuplicatedExtends(s: Signal, was: seq<Connection>, next: Node, r: HasSlots, q: HasSlots)
    requires HasDuplicated(s, was, next, r, q)
    ensures Extends(s, was, next)
  {
    forall c | c in s.connectedSlots
      ensures c in was || next <= c.number
    {
      var i :| 0 <= i < |s.connectedSlots| && s.connectedSlots[i] == c;
      assert View(s.connectedSlots)[i] == Label(c);
      if i < |was| {
        assert c == was[i];
      }
    }
  }

  /* ---------- receivers ---------- */

  class HasSlots {
    var senders: set<Signal>

    /** The default constructor, run on storage that holds no live receiver. */
    method Construct()
      modifies this
      ensures senders == {}
    {
      senders := {};
    }

    /** The copy constructor, run on such storage: every signal of the original duplicates its
        connections to this. */
    method ConstructCopy(hs: HasSlots, ghost S: set<Signal>, ghost R: set<HasSlots>, ghost ledger: Ledger)
      requires hs in R && this !in R && hs.senders <= S && Sound(S, ledger)
      modifies this, hs.senders, ledger
      ensures Sound(S, ledger)
      ensures fresh(ledger.live - old(ledger.live))
      ensures forall s :: s in S ==> Extends(s, old(s.connectedSlots), old(s.issued))
      ensures Abs(S, R + {this}) == Step(old(Abs(S, R)), CopyReceiver(hs, this))
    {
      senders := {};
      DuplicateSenders(hs, S, ledger);
      forall s | s in S && s in senders
        ensures Extends(s, old(s.connectedSlots), old(s.issued))
      {
        DuplicatedExtends(s, old(s.connectedSlots), old(s.issued), hs, this);
      }
      CopiedStep(old(Abs(S, R)), S, R, hs, this);
    }

    /** The loop of the copy constructor. */
    method DuplicateSenders(hs: HasSlots, ghost S: set<Signal>, ghost ledger: Ledger)
      requires this != hs && hs.senders <= S && senders == {} && Sound(S, ledger)
      modifies this, hs.senders, ledger
      ensures Sound(S, ledger) && senders == hs.senders
      ensures fresh(ledger.live - old(ledger.live))
      ensures forall s :: s in S && s in senders ==>
        HasDuplicated(s, old(s.connectedSlots), old(s.issued), hs, this)
    {
      var rest := hs.senders;
      while rest != {}
        invariant rest <= hs.senders == old(hs.senders)
        invariant senders == hs.senders - rest
        invariant Sound(S, ledger) && fresh(ledger.live - old(ledger.live))
        invariant forall s :: s in S && s !in senders ==>
          s.connectedSlots == old(s.connectedSlots) && s.issued == old(s.issued)
        invariant forall s :: s in S && s in senders ==>
          HasDuplicated(s, old(s.connectedSlots), old(s.issued), hs, this)
        decreases rest
      {
        var s :| s in rest;
        DuplicateOne(s, hs, S, ledger);
        rest := rest - {s};
      }
    }

    /** The body of that loop. */
    method DuplicateOne(s: Signal, hs: HasSlots, ghost S: set<Signal>, ghost ledger: Ledger)
      requires this != hs && s in S && Sound(S, ledger)
      modifies this, s, ledger
      ensures Sound(S, ledger) && senders == old(senders) + {s}
      ensures fresh(ledger.live - old(ledger.live))
      ensures HasDuplicated(s, old(s.connectedSlots), old(s.issued), hs, this)
    {
      s.SlotDuplicate(hs, this, S, ledger);
      senders := senders + {s};
    }

    method SignalConnect(sender: Signal)
      modifies this
      ensures senders == old(senders) + {sender}
    {
      senders := senders + {sender};
    }

    method SignalDisconnect(sender: Signal)
      modifies this
      ensures senders == old(senders) - {sender}
    {
      senders := senders - {sender};
    }

    /** The loop of `disconnect_all`: every registered signal drops its connections to this. */
    method DetachSenders(ghost S: set<Signal>, ghost ledger: Ledger)
      requires senders <= S && Sound(S, ledger)
      modifies senders, ledger
      ensures Sound(S, ledger) && ledger.live <= old(ledger.live)
      ensures forall s :: s in senders ==> Detached(s, old(s.connectedSlots), old(s.issued), this)
    {
      var rest := senders;
      ghost var done := {};
      while rest != {}
        invariant done + rest == senders && done !! rest
        invariant Sound(S, ledger) && ledger.live <= old(ledger.live)
        invariant forall s :: s in S && s !in done ==>
          s.connectedSlots == old(s.connectedSlots) && s.issued == old(s.issued)
        invariant forall s :: s in done ==> Detached(s, old(s.connectedSlots), old(s.issued), this)
        decreases rest
      {
        var s :| s in rest;
        s.SlotDisconnect(this, S, ledger);
        rest, done := rest - {s}, done + {s};
      }
    }

    method DisconnectAll(ghost S: set<Signal>, ghost R: set<HasSlots>, ghost ledger: Ledger)
      requires this in R && senders <= S && Sound(S, ledger)
      modifies this, senders, ledger
      ensures Sound(S, ledger) && ledger.live <= old(ledger.live) && senders == {}
      ensures forall s :: s in S ==> Extends(s, old(s.connectedSlots), old(s.issued))
      ensures Abs(S, R) == Step(old(Abs(S, R)), DisconnectReceiver(this))
    {
      DetachSenders(S, ledger);
      forall s | s in senders
        ensures Extends(s, old(s.connectedSlots), old(s.issued))
      {
        DetachedExtends(s, old(s.connectedSlots), old(s.issued), this);
      }
      senders := {};
      AbsIs(S, R, Step(old(Abs(S, R)), DisconnectReceiver(this)));
    }

    /** The destructor: afterwards the live receivers are R - {this}. */
    method Destroy(ghost S: set<Signal>, ghost R: set<HasSlots>, ghost ledger: Ledger)
      requires this in R && senders <= S && Sound(S, ledger)
      modifies this, senders, ledger
      ensures Sound(S, ledger) && ledger.live <= old(ledger.live)
      ensures forall s :: s in S ==> Extends(s, old(s.connectedSlots), old(s.issued))
      ensures Abs(S, R - {this}) == Step(old(Abs(S, R)), DestroyReceiver(this))
    {
      DisconnectAll(S, R, ledger);
      DestroyedReceiver(old(Abs(S, R)), S, R, this);
    }
  }

  /* ---------- signals ---------- */

  class Signal {
    var connectedSlots: seq<Connection>
    ghost var issued: Node

    /** Every listed connection was allocated for this list, and they stand in that order. */
    ghost predicate Tidy()
      reads this
    {
      && (forall i :: 0 <= i < |connectedSlots| ==>
            connectedSlots[i].owner == this && connectedSlots[i].number < issued)
      && (forall i, j :: 0 <= i < j < |connectedSlots| ==> connectedSlots[i].number < connectedSlots[j].number)
    }

    method PushBack(c: Connection)
      requires Tidy() && c.owner == this && c.number == issued
      modifies this
      ensures Tidy() && connectedSlots == old(connectedSlots) + [c] && issued == old(issued) + 1
      ensures SlotsOf(this) == Push(old(SlotsOf(this)), c.dest, c.fun)
      ensures Elems(connectedSlots) == old(Elems(connectedSlots)) + {c}
    {
      ViewAppend(connectedSlots, c);
      connectedSlots, issued := connectedSlots + [c], issued + 1;
    }

    /** The default constructor, run on storage that holds no live signal. */
    method Construct()
      modifies this
      ensures connectedSlots == [] && issued == 0
    {
      connectedSlots, issued := [], 0;
    }

    /** The copy constructor, run on such storage: clone every connection and register with its
        target. */
    method ConstructCopy(from: Signal, ghost S: set<Signal>, ghost R: set<HasSlots>, ghost ledger: Ledger)
      requires from in S && this !in S && TargetsLive(Abs(S, R), from) && Sound(S, ledger)
      modifies this, Dests(from.connectedSlots), ledger
      ensures Sound(S + {this}, ledger) && fresh(ledger.live - old(ledger.live))
      ensures Abs(S + {this}, R) == Step(old(Abs(S, R)), CopySignal(from, this))
    {
      LiveDests(S, R, from);
      CloneConnections(from, R, ledger);
      SplitConnections(S + {this}, this);
      assert S + {this} - {this} == S;
      ClonedStep(old(Abs(S, R)), S, R, from, this, from.connectedSlots);
    }

    /** The loop of the copy constructor. */
    method CloneConnections(from: Signal, ghost R: set<HasSlots>, ghost ledger: Ledger)
      requires from != this && Dests(from.connectedSlots) <= R
      requires Elems(from.connectedSlots) <= ledger.live
      modifies this, Dests(from.connectedSlots), ledger
      ensures Tidy() && ledger.live == old(ledger.live) + Elems(connectedSlots)
      ensures fresh(ledger.live - old(ledger.live))
      ensures SlotsOf(this) == Slots(Renumber(View(from.connectedSlots)), |from.connectedSlots|)
      ensures forall r :: r in R ==>
        r.senders == if r in Dests(from.connectedSlots) then old(r.senders) + {this} else old(r.senders)
    {
      connectedSlots, issued := [], 0;
      var i := 0;
      while i < |from.connectedSlots|
        invariant 0 <= i <= |from.connectedSlots|
        invariant from.connectedSlots == old(from.connectedSlots)
        invariant Tidy() && ledger.live == old(ledger.live) + Elems(connectedSlots)
        invariant fresh(ledger.live - old(ledger.live))
        invariant SlotsOf(this) == Slots(Renumber(View(from.connectedSlots[..i])), i)
        invariant forall r :: r in R ==>
          r.senders == if r in Dests(from.connectedSlots[..i]) then old(r.senders) + {this} else old(r.senders)
      {
        var c := from.connectedSlots[i];
        assert c in Elems(from.connectedSlots);
        assert from.connectedSlots[..i + 1] == from.connectedSlots[..i] + [c];
        c.dest.SignalConnect(this);
        var copy := c.Clone(this, issued, ledger);
        RenumberAppend(from.connectedSlots[..i], c);
        PushBack(copy);
        i := i + 1;
      }
      assert from.connectedSlots[..i] == from.connectedSlots;
    }

    method Connect(r: HasSlots, fun: nat, ghost S: set<Signal>, ghost R: set<HasSlots>, ghost ledger: Ledger)
      requires this in S && r in R && Sound(S, ledger)
      modifies this, r, ledger
      ensures Sound(S, ledger) && fresh(ledger.live - old(ledger.live))
      ensures old(connectedSlots) <= connectedSlots && |connectedSlots| == |old(connectedSlots)| + 1
      ensures connectedSlots[|old(connectedSlots)|].dest == r && connectedSlots[|old(connectedSlots)|].fun == fun
      ensures r.senders == old(r.senders) + {this}
      ensures Extends(this, old(connectedSlots), old(issued))
      ensures Abs(S, R) == Step(old(Abs(S, R)), Op.Connect(this, r, fun))
    {
      PushNew(r, fun, S, ledger);
      r.SignalConnect(this);
      UpdatedIs(old(Abs(S, R)), S, R, this, r);
    }

    /** Allocates a connection and appends it. */
    method PushNew(r: HasSlots, fun: nat, ghost S: set<Signal>, ghost ledger: Ledger)
      requires this in S && Sound(S, ledger)
      modifies this, ledger
      ensures fresh(ledger.live - old(ledger.live))
      ensures Extends(this, old(connectedSlots), old(issued))
      ensures Sound(S, ledger) && SlotsOf(this) == Push(old(SlotsOf(this)), r, fun)
      ensures old(connectedSlots) <= connectedSlots && |connectedSlots| == |old(connectedSlots)| + 1
      ensures connectedSlots[|old(connectedSlots)|].dest == r && connectedSlots[|old(connectedSlots)|].fun == fun
    {
      SplitConnections(S, this);
      ghost var others, was := Connections(S - {this}), connectedSlots;
      var conn := Allocate(r, fun, ledger);
      RelistMore(others, was, connectedSlots, conn);
      Resplit(S, this, others, was, ledger.live);
    }

    /** `new` and `push_back`. */
    method Allocate(r: HasSlots, fun: nat, ghost ledger: Ledger) returns (conn: Connection)
      requires Tidy()
      modifies this, ledger
      ensures Tidy() && fresh(conn) && connectedSlots == old(connectedSlots) + [conn]
      ensures conn.dest == r && conn.fun == fun
      ensures Extends(this, old(connectedSlots), old(issued))
      ensures SlotsOf(this) == Push(old(SlotsOf(this)), r, fun)
      ensures Elems(connectedSlots) == old(Elems(connectedSlots)) + {conn}
      ensures ledger.live == old(ledger.live) + {conn}
    {
      conn := new Connection(r, fun, this, issued, ledger);
      PushBack(conn);
    }

    method SlotDuplicate(oldTarget: HasSlots, newTarget: HasSlots, ghost S: set<Signal>, ghost ledger: Ledger)
      requires this in S && Sound(S, ledger)
      requires oldTarget != newTarget || !Targets(View(connectedSlots), oldTarget)
      modifies this, ledger
      ensures Sound(S, ledger) && fresh(ledger.live - old(ledger.live))
      ensures HasDuplicated(this, old(connectedSlots), old(issued), oldTarget, newTarget)
    {
      SplitConnections(S, this);
      ghost var others, was := Connections(S - {this}), connectedSlots;
      AppendDuplicates(oldTarget, newTarget, ledger);
      Resplit(S, this, others, was, ledger.live);
    }

    /** The loop of `slot_duplicate` appends to the list it walks; it terminates because the appended
        connections do not match. */
    method AppendDuplicates(oldTarget: HasSlots, newTarget: HasSlots, ghost ledger: Ledger)
      requires Tidy() && Elems(connectedSlots) <= ledger.live
      requires oldTarget != newTarget || !Targets(View(connectedSlots), oldTarget)
      modifies this, ledger
      ensures Tidy() && ledger.live == Relisted(old(ledger.live), old(connectedSlots), connectedSlots)
      ensures fresh(ledger.live - old(ledger.live))
      ensures HasDuplicated(this, old(connectedSlots), old(issued), oldTarget, newTarget)
    {
      ghost var was := SlotsOf(this);
      DuplicateNone(was, oldTarget, newTarget);
      var i := 0;
      while i < |connectedSlots|
        invariant 0 <= i <= |connectedSlots| && old(connectedSlots) <= connectedSlots
        invariant Tidy() && ledger.live == old(ledger.live) + Elems(connectedSlots)
        invariant fresh(ledger.live - old(ledger.live))
        invariant SlotsOf(this) == DuplicatedUpTo(was, i, oldTarget, newTarget)
        decreases if i < |was.conns| then |was.conns| - i else 0, |connectedSlots| - i
      {
        VisitToDuplicate(i, was, oldTarget, newTarget, old(ledger.live), ledger);
        i := i + 1;
      }
    }

    /** The body of that loop. */
    method VisitToDuplicate(i: nat, ghost was: Slots<HasSlots>, oldTarget: HasSlots, newTarget: HasSlots,
                            ghost base: set<Connection>, ghost ledger: Ledger)
      requires Tidy() && i < |connectedSlots| && ledger.live == base + Elems(connectedSlots)
      requires oldTarget != newTarget || !Targets(was.conns, oldTarget)
      requires SlotsOf(this) == DuplicatedUpTo(was, i, oldTarget, newTarget)
      modifies this, ledger
      ensures Tidy() && SlotsOf(this) == DuplicatedUpTo(was, i + 1, oldTarget, newTarget)
      ensures old(connectedSlots) <= connectedSlots
      ensures ledger.live == base + Elems(connectedSlots) && fresh(ledger.live - old(ledger.live))
      ensures i >= |was.conns| ==> connectedSlots == old(connectedSlots)
    {
      var c := connectedSlots[i];
      assert c in Elems(connectedSlots) && SlotsOf(this).conns[i] == Label(c);
      DuplicateVisit(was, i, oldTarget, newTarget);
      if c.dest == oldTarget {
        var dup := c.Duplicate(newTarget, this, issued, ledger);
        PushBack(dup);
      }
    }

    /** The loop of `disconnect_all`. */
    method DeleteAll(ghost R: set<HasSlots>, ghost ledger: Ledger)
      requires Tidy() && Dests(connectedSlots) <= R && Elems(connectedSlots) <= ledger.live
      modifies Dests(connectedSlots), ledger
      ensures ledger.live == old(ledger.live) - Elems(connectedSlots)
      ensures forall r :: r in R ==>
        r.senders == if r in Dests(connectedSlots) then old(r.senders) - {this} else old(r.senders)
    {
      var i := 0;
      while i < |connectedSlots|
        invariant 0 <= i <= |connectedSlots|
        invariant ledger.live == old(ledger.live) - Elems(connectedSlots[..i])
        invariant forall r :: r in R ==>
          r.senders == if r in Dests(connectedSlots[..i]) then old(r.senders) - {this} else old(r.senders)
      {
        var c := connectedSlots[i];
        assert connectedSlots[..i + 1] == connectedSlots[..i] + [c];
        assert c in Elems(connectedSlots);
        c.dest.SignalDisconnect(this);
        c.Delete(ledger);
        i := i + 1;
      }
      assert connectedSlots[..i] == connectedSlots;
    }

    method DisconnectAll(ghost S: set<Signal>, ghost R: set<HasSlots>, ghost ledger: Ledger)
      requires Defined(Abs(S, R), DisconnectSignal(this)) && Sound(S, ledger)
      modifies this, Dests(connectedSlots), ledger
      ensures Sound(S, ledger) && connectedSlots == [] && issued == old(issued)
      ensures ledger.live <= old(ledger.live)
      ensures Abs(S, R) == Step(old(Abs(S, R)), DisconnectSignal(this))
    {
      LiveDests(S, R, this);
      SplitConnections(S, this);
      ghost var others, was := Connections(S - {this}), connectedSlots;
      DeleteAll(R, ledger);
      connectedSlots := [];
      Resplit(S, this, others, was, ledger.live);
      ClearedStep(old(Abs(S, R)), S, R, this, was);
    }

    /** The destructor: afterwards the live signals are S - {this}. */
    method Destroy(ghost S: set<Signal>, ghost R: set<HasSlots>, ghost ledger: Ledger)
      requires Defined(Abs(S, R), DestroySignal(this)) && Sound(S, ledger)
      modifies this, Dests(connectedSlots), ledger
      ensures Sound(S - {this}, ledger) && ledger.live <= old(ledger.live)
      ensures Abs(S - {this}, R) == Step(old(Abs(S, R)), DestroySignal(this))
    {
      DisconnectAll(S, R, ledger);
      SplitConnections(S, this);
      DestroyedSignal(old(Abs(S, R)), S, R, this);
    }

    /** `delete *it; erase(it)`. */
    method DeleteAndErase(i: nat, ghost ledger: Ledger)
      requires Tidy() && i < |connectedSlots| && Elems(connectedSlots) <= ledger.live
      modifies this, ledger
      ensures connectedSlots == old(connectedSlots)[..i] + old(connectedSlots)[i + 1..]
      ensures View(connectedSlots) == old(View(connectedSlots))[..i] + old(View(connectedSlots))[i + 1..]
      ensures Tidy() && issued == old(issued)
      ensures Elems(connectedSlots) == Elems(old(connectedSlots)) - {old(connectedSlots)[i]}
      ensures ledger.live == old(ledger.live) - {old(connectedSlots)[i]}
    {
      assert connectedSlots[i] in Elems(connectedSlots);
      connectedSlots[i].Delete(ledger);
      connectedSlots := connectedSlots[..i] + connectedSlots[i + 1..];
    }

    /** Deletes the first connection to r only, but unregisters this signal altogether. */
    method Disconnect(r: HasSlots, ghost S: set<Signal>, ghost R: set<HasSlots>, ghost ledger: Ledger)
      requires Defined(Abs(S, R), Op.Disconnect(this, r)) && Sound(S, ledger)
      modifies this, {r} * Dests(connectedSlots), ledger
      ensures Sound(S, ledger) && ledger.live <= old(ledger.live)
      ensures Extends(this, old(connectedSlots), old(issued))
      ensures Elems(connectedSlots) <= old(Elems(connectedSlots))
      ensures Abs(S, R) == Step(old(Abs(S, R)), Op.Disconnect(this, r))
    {
      var i := FirstTo(r);
      if i < |connectedSlots| {
        ViewMembers(connectedSlots);
        DisconnectAt(i, r, S, R, ledger);
      }
    }

    /** Its matching branch, and what that does to the registry. */
    method DisconnectAt(i: nat, r: HasSlots, ghost S: set<Signal>, ghost R: set<HasSlots>, ghost ledger: Ledger)
      requires this in S && r in R && Sound(S, ledger)
      requires i < |connectedSlots| && connectedSlots[i].dest == r
      requires forall k :: 0 <= k < i ==> connectedSlots[k].dest != r
      modifies this, r, ledger
      ensures Sound(S, ledger) && ledger.live <= old(ledger.live)
      ensures Extends(this, old(connectedSlots), old(issued))
      ensures Elems(connectedSlots) <= old(Elems(connectedSlots))
      ensures Abs(S, R) ==
        Updated(old(Abs(S, R)), this, Slots(RemoveFirst(old(View(connectedSlots)), r), old(issued)),
                r, old(r.senders) - {this})
    {
      DeleteAndUnregister(i, r, S, ledger);
      UpdatedIs(old(Abs(S, R)), S, R, this, r);
    }

    /** Its scan. */
    method FirstTo(r: HasSlots) returns (i: nat)
      ensures i <= |connectedSlots| && forall k :: 0 <= k < i ==> connectedSlots[k].dest != r
      ensures i < |connectedSlots| ==> connectedSlots[i].dest == r
      ensures i == |connectedSlots| ==> !Targets(View(connectedSlots), r)
    {
      i := 0;
      while i < |connectedSlots| && connectedSlots[i].dest != r
        invariant 0 <= i <= |connectedSlots|
        invariant forall k :: 0 <= k < i ==> connectedSlots[k].dest != r
      {
        i := i + 1;
      }
      ViewMembers(connectedSlots);
    }

    /** Deletes, erases and unregisters. */
    method DeleteAndUnregister(i: nat, r: HasSlots, ghost S: set<Signal>, ghost ledger: Ledger)
      requires this in S && Sound(S, ledger)
      requires i < |connectedSlots| && connectedSlots[i].dest == r
      requires forall k :: 0 <= k < i ==> connectedSlots[k].dest != r
      modifies this, r, ledger
      ensures Sound(S, ledger) && ledger.live <= old(ledger.live)
      ensures Extends(this, old(connectedSlots), old(issued))
      ensures Elems(connectedSlots) <= old(Elems(connectedSlots))
      ensures SlotsOf(this) == Slots(RemoveFirst(old(View(connectedSlots)), r), old(issued))
      ensures r.senders == old(r.senders) - {this}
    {
      SplitConnections(S, this);
      RemoveFirstAt(View(connectedSlots), r, i);
      ghost var others, was := Connections(S - {this}), connectedSlots;
      DeleteAndErase(i, ledger);
      r.SignalDisconnect(this);
      Resplit(S, this, others, was, ledger.live);
    }

    method SlotDisconnect(r: HasSlots, ghost S: set<Signal>, ghost ledger: Ledger)
      requires this in S && Sound(S, ledger)
      modifies this, ledger
      ensures Sound(S, ledger) && ledger.live <= old(ledger.live)
      ensures Detached(this, old(connectedSlots), old(issued), r)
    {
      SplitConnections(S, this);
      ghost var others, was := Connections(S - {this}), connectedSlots;
      EraseTargets(r, ledger);
      Resplit(S, this, others, was, ledger.live);
    }

    /** The loop of `slot_disconnect` erases every connection to r while walking the list. */
    method EraseTargets(r: HasSlots, ghost ledger: Ledger)
      requires Tidy() && Elems(connectedSlots) <= ledger.live
      modifies this, ledger
      ensures Tidy() && ledger.live == Relisted(old(ledger.live), old(connectedSlots), connectedSlots)
      ensures Detached(this, old(connectedSlots), old(issued), r)
    {
      ghost var all, k := connectedSlots, 0;
      var i := 0;
      while i < |connectedSlots|
        invariant 0 <= i <= |connectedSlots| && 0 <= k <= |all|
        invariant connectedSlots[i..] == all[k..]
        invariant Tidy() && issued == old(issued)
        invariant Elems(connectedSlots) <= Elems(all)
        invariant ledger.live == Relisted(old(ledger.live), all, connectedSlots)
        invariant View(connectedSlots[..i]) == Select(View(all[..k]), r, false)
        decreases |all| - k
      {
        i := VisitToErase(i, r, all, k, old(ledger.live), ledger);
        k := k + 1;
      }
      assert connectedSlots[..i] == connectedSlots && all[..k] == all;
    }

    /** The body of that loop. */
    method VisitToErase(i: nat, r: HasSlots, ghost all: seq<Connection>, ghost k: nat,
                        ghost was: set<Connection>, ghost ledger: Ledger) returns (next: nat)
      requires Tidy() && i < |connectedSlots| && Elems(connectedSlots) <= Elems(all)
      requires k <= |all| && connectedSlots[i..] == all[k..]
      requires ledger.live == Relisted(was, all, connectedSlots)
      requires View(connectedSlots[..i]) == Select(View(all[..k]), r, false)
      modifies this, ledger
      ensures Tidy() && issued == old(issued) && Elems(connectedSlots) <= Elems(all)
      ensures k < |all| && next <= |connectedSlots| && connectedSlots[next..] == all[k + 1..]
      ensures ledger.live == Relisted(was, all, connectedSlots)
      ensures View(connectedSlots[..next]) == Select(View(all[..k + 1]), r, false)
    {
      var c := connectedSlots[i];
      SameTail(connectedSlots, i, all, k);
      assert all[..k + 1] == all[..k] + [c];
      ViewAppend(all[..k], c);
      SelectNext(View(all[..k + 1]), k, r);
      assert View(all[..k + 1])[..k] == View(all[..k]) && View(all[..k + 1])[..k + 1] == View(all[..k + 1]);
      if c.dest == r {
        ghost var before := connectedSlots;
        DeleteAndErase(i, ledger);
        RelistLess(was, all, before, connectedSlots, c);
        assert connectedSlots[..i] == before[..i];
        next := i;
      } else {
        assert connectedSlots[..i + 1] == connectedSlots[..i] + [c];
        ViewAppend(connectedSlots[..i], c);
        next := i + 1;
      }
    }
  }

  lemma RenumberAppend(cs: seq<Connection>, c: Connection)
    ensures Renumber(View(cs + [c])) == Renumber(View(cs)) + [Conn(c.dest, c.fun, |cs|)]
  {
  }
}
