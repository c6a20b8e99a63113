/** What the callbacks of one emission do to the registry, from the first to the last. */
module Plans {
  import opened Registry
  import opened Emission
  import opened Callbacks

  /* ---------- the registry between two callbacks ---------- */

  /** at(k) are the calls that the k-th callback makes. */
  datatype Plan<!S, !R> = Plan(at: nat -> seq<Op<S, R>>)

  /** The registry when the k-th callback starts. */
  ghost function WorldAt<S, R>(w: World<S, R>, calls: Plan<S, R>, k: nat): World<S, R> {
    if k == 0 then w
    else
      var before := WorldAt(w, calls, k - 1);
      if Possible(before, calls.at(k - 1)) then Run(before, calls.at(k - 1)) else before
  }

  /** What the k-th callback does to the list of s. */
  ghost function EditsOf<S, R>(w: World<S, R>, s: S, calls: Plan<S, R>, k: nat): seq<Edit> {
    if Callable(WorldAt(w, calls, k), s, calls.at(k)) then RunEdits(WorldAt(w, calls, k), s, calls.at(k)) else []
  }

  ghost function Script<S, R>(w: World<S, R>, s: S, calls: Plan<S, R>): Emission.Callbacks {
    Emission.Callbacks((k: nat) => EditsOf(w, s, calls, k))
  }

  /** Every callback makes calls that are possible and do not destroy the emitting signal; callbacks
      that are never reached make none. */
  ghost predicate Playable<S, R>(w: World<S, R>, s: S, calls: Plan<S, R>) {
    s in w.lists && Numbered(w.lists[s]) && forall k: nat :: CallableAt(w, s, calls, k)
  }

  ghost predicate CallableAt<S, R>(w: World<S, R>, s: S, calls: Plan<S, R>, k: nat) {
    Callable(WorldAt(w, calls, k), s, calls.at(k))
  }

  lemma {:induction false} StaysNumbered<S, R>(w: World<S, R>, s: S, calls: Plan<S, R>, k: nat)
    requires Playable(w, s, calls)
    ensures s in WorldAt(w, calls, k).lists && Numbered(WorldAt(w, calls, k).lists[s])
  {
    if k > 0 {
      StaysNumbered(w, s, calls, k - 1);
      assert CallableAt(w, s, calls, k - 1);
      RunKeepsNumbered(WorldAt(w, calls, k - 1), s, calls.at(k - 1));
    }
  }

  lemma RunKeepsNumbered<S, R>(w: World<S, R>, s: S, ops: seq<Op<S, R>>)
    requires Callable(w, s, ops) && Numbered(w.lists[s])
    ensures s in Run(w, ops).lists && Numbered(Run(w, ops).lists[s])
  {
    RunIsEdits(w, s, ops);
  }

  /** The k-th callback acts on the walked list as its edits. */
  lemma CallbackIsEdits<S, R>(w: World<S, R>, s: S, calls: Plan<S, R>, k: nat)
    requires Playable(w, s, calls)
    ensures s in WorldAt(w, calls, k).lists && s in WorldAt(w, calls, k + 1).lists
    ensures Callable(WorldAt(w, calls, k), s, calls.at(k))
    ensures WorldAt(w, calls, k + 1) == Run(WorldAt(w, calls, k), calls.at(k))
    ensures
      var sl, sl' := WorldAt(w, calls, k).lists[s], WorldAt(w, calls, k + 1).lists[s];
      && Ordered(Nodes(sl.conns), sl.next)
      && Nodes(sl'.conns) == EditedAll(Nodes(sl.conns), sl.next, Script(w, s, calls).at(k))
      && sl'.next == NextAfterAll(sl.next, Script(w, s, calls).at(k))
  {
    StaysNumbered(w, s, calls, k);
    assert CallableAt(w, s, calls, k);
    RunIsEdits(WorldAt(w, calls, k), s, calls.at(k));
  }

  /** c is in the list of s when the k-th callback starts. */
  ghost predicate ListedAt<S, R>(w: World<S, R>, s: S, calls: Plan<S, R>, k: nat, c: Conn<R>) {
    s in WorldAt(w, calls, k).lists && c in WorldAt(w, calls, k).lists[s].conns
  }

  /* ---------- callbacks that spare the saved next ---------- */

  lemma CursorGoesOn<S, R>(w: World<S, R>, s: S, calls: Plan<S, R>, quiet: nat, n: Node, k: nat)
    requires Playable(w, s, calls) && Quiet(Script(w, s, calls), quiet)
    requires s in WorldAt(w, calls, k).lists && n in Nodes(WorldAt(w, calls, k).lists[s].conns)
    requires Successor(Nodes(WorldAt(w, calls, k).lists[s].conns), n).At?
    ensures Callable(WorldAt(w, calls, k), s, calls.at(k)) && s in WorldAt(w, calls, k + 1).lists
    ensures
      var sl, sl' := WorldAt(w, calls, k).lists[s], WorldAt(w, calls, k + 1).lists[s];
      var list, list', es := Nodes(sl.conns), Nodes(sl'.conns), Script(w, s, calls).at(k);
      var saved := Successor(list, n).n;
      && Ordered(list, sl.next) && sl'.next == NextAfterAll(sl.next, es)
      && |From(list, n)| > 1 && saved == From(list, n)[1]
      && (Erase(saved) !in es <==> !RunCuts(WorldAt(w, calls, k), s, calls.at(k), saved))
      && (Erase(saved) !in es ==>
            && saved in list' && From(list', saved) == EditedAll(From(list, n)[1..], sl.next, es)
            && (k >= quiet ==> |From(list', saved)| < |From(list, n)|))
  {
    CallbackIsEdits(w, s, calls, k);
    var sl, es := WorldAt(w, calls, k).lists[s], Script(w, s, calls).at(k);
    var list := Nodes(sl.conns);
    SuccessorIsNext(list, sl.next, n);
    var saved := Successor(list, n).n;
    SavedNextIsSpared(WorldAt(w, calls, k), s, calls.at(k), saved);
    if Erase(saved) !in es {
      FromFacts(list, sl.next, n);
      FromEditedAll(list, sl.next, saved, es);
      LaterOrdered(From(list, n), sl.next, es);
    }
  }

  /** With the cursor on the node n when the k-th callback starts: no call made in it removes the
      connection saved as next, and so on from there. */
  ghost predicate SparesNext<S, R>(w: World<S, R>, s: S, calls: Plan<S, R>, quiet: nat, n: Node, k: nat)
    requires Playable(w, s, calls) && Quiet(Script(w, s, calls), quiet)
    requires s in WorldAt(w, calls, k).lists && n in Nodes(WorldAt(w, calls, k).lists[s].conns)
    decreases if k < quiet then quiet - k else 0, |From(Nodes(WorldAt(w, calls, k).lists[s].conns), n)|
  {
    match Successor(Nodes(WorldAt(w, calls, k).lists[s].conns), n)
    case End => true
    case At(saved) =>
      CursorGoesOn(w, s, calls, quiet, n, k);
      !RunCuts(WorldAt(w, calls, k), s, calls.at(k), saved) && SparesNext(w, s, calls, quiet, saved, k + 1)
  }

  /** The callbacks spare every saved next of an emission. */
  ghost predicate SparesEachNext<S, R>(w: World<S, R>, s: S, calls: Plan<S, R>, quiet: nat)
    requires Playable(w, s, calls) && Quiet(Script(w, s, calls), quiet)
  {
    w.lists[s].conns == [] ||
    (NodesAt(w.lists[s].conns, 0); SparesNext(w, s, calls, quiet, w.lists[s].conns[0].node, 0))
  }

  /** All that an emission from s asks of its callbacks. */
  ghost predicate Emittable<S, R>(w: World<S, R>, s: S, calls: Plan<S, R>, quiet: nat) {
    Playable(w, s, calls) && Quiet(Script(w, s, calls), quiet) && SparesEachNext(w, s, calls, quiet)
  }

  lemma {:induction false} SparesNextIsPolite<S, R>(w: World<S, R>, s: S, calls: Plan<S, R>, quiet: nat, n: Node,
                                                     k: nat)
    requires Playable(w, s, calls) && Quiet(Script(w, s, calls), quiet)
    requires s in WorldAt(w, calls, k).lists && n in Nodes(WorldAt(w, calls, k).lists[s].conns)
    ensures
      var sl := WorldAt(w, calls, k).lists[s];
      SparesNext(w, s, calls, quiet, n, k) <==>
      Polite(From(Nodes(sl.conns), n), sl.next, k, Script(w, s, calls), quiet)
    decreases if k < quiet then quiet - k else 0, |From(Nodes(WorldAt(w, calls, k).lists[s].conns), n)|
  {
    var sl := WorldAt(w, calls, k).lists[s];
    StaysNumbered(w, s, calls, k);
    SuccessorIsNext(Nodes(sl.conns), sl.next, n);
    match Successor(Nodes(sl.conns), n)
    case End =>
    case At(saved) =>
      CursorGoesOn(w, s, calls, quiet, n, k);
      if !RunCuts(WorldAt(w, calls, k), s, calls.at(k), saved) {
        SparesNextIsPolite(w, s, calls, quiet, saved, k + 1);
      }
  }

  /** The domain of a whole emission in terms of the registry: no callback erases the node saved as next
      exactly when no call made in it removes that connection, callback by callback. */
  lemma SparesEachNextIsPolite<S, R>(w: World<S, R>, s: S, calls: Plan<S, R>, quiet: nat)
    requires Playable(w, s, calls) && Quiet(Script(w, s, calls), quiet)
    ensures SparesEachNext(w, s, calls, quiet) <==>
            Polite(Nodes(w.lists[s].conns), w.lists[s].next, 0, Script(w, s, calls), quiet)
  {
    if w.lists[s].conns != [] {
      NodesAt(w.lists[s].conns, 0);
      SparesNextIsPolite(w, s, calls, quiet, w.lists[s].conns[0].node, 0);
    }
  }

  /** Only the first callback makes calls. */
  ghost function Once<S, R>(ops: seq<Op<S, R>>): Plan<S, R> {
    Plan((k: nat) => if k == 0 then ops else [])
  }

  lemma {:induction false} AfterOnce<S, R>(w: World<S, R>, s: S, ops: seq<Op<S, R>>, k: nat)
    requires Callable(w, s, ops) && Numbered(w.lists[s]) && k > 0
    ensures WorldAt(w, Once(ops), k) == Run(w, ops)
  {
    if k > 1 {
      AfterOnce(w, s, ops, k - 1);
    } else {
      assert WorldAt(w, Once(ops), 0) == w;
    }
  }

  lemma OnceIsPlayable<S, R>(w: World<S, R>, s: S, ops: seq<Op<S, R>>)
    requires Callable(w, s, ops) && Numbered(w.lists[s])
    ensures Playable(w, s, Once(ops)) && Quiet(Script(w, s, Once(ops)), 1)
  {
    RunKeepsNumbered(w, s, ops);
    forall k: nat
      ensures CallableAt(w, s, Once(ops), k)
      ensures k >= 1 ==> Script(w, s, Once(ops)).at(k) == []
    {
      if k > 0 {
        AfterOnce(w, s, ops, k);
      }
    }
  }

  /** Any two neighbours in a list: when the first callback destroys the receiver of the second
      connection, the saved next is gone. */
  lemma DestroyingTheNextReceiver<S, R>(w: World<S, R>, s: S)
    requires s in w.lists && Numbered(w.lists[s]) && |w.lists[s].conns| >= 2
    requires
      var r := w.lists[s].conns[1].dest;
      Defined(w, DestroyReceiver(r)) && s in w.senders[r]
    ensures
      var calls := Once([DestroyReceiver(w.lists[s].conns[1].dest)]);
      && Playable(w, s, calls) && Quiet(Script(w, s, calls), 1)
      && !SparesEachNext(w, s, calls, 1)
  {
    var cs, op := w.lists[s].conns, Op<S, R>.DestroyReceiver(w.lists[s].conns[1].dest);
    assert Possible(Step(w, op), []) && [op][1..] == [];
    assert Callable(w, s, [op]);
    OnceIsPlayable(w, s, [op]);
    NodesAt(cs, 0);
    assert Successor(Nodes(cs), cs[0].node) == At(cs[1].node);
    assert Cuts(w, s, op, 1) && CutsNode(w, s, op, cs[1].node);
  }

  /** One signal connected to two receivers is enough. */
  lemma DestroyingTheNextReceiverExample()
    ensures
      var w: World<int, int> :=
        World(map[0 := Slots([Conn(0, 1, 0), Conn(1, 1, 1)], 2)], map[0 := {0}, 1 := {0}]);
      && ConnectedRegistered(w) && RegisteredConnected(w) && Numbered(w.lists[0])
      && Defined(w, DestroyReceiver(1)) && 0 in w.senders[1]
      && Playable(w, 0, Once([DestroyReceiver(1)])) && Quiet(Script(w, 0, Once([DestroyReceiver(1)])), 1)
      && !SparesEachNext(w, 0, Once([DestroyReceiver(1)]), 1)
  {
    var a, b := Conn(0, 1, 0), Conn(1, 1, 1);
    var w: World<int, int> := World(map[0 := Slots([a, b], 2)], map[0 := {0}, 1 := {0}]);
    assert a in w.lists[0].conns && b in w.lists[0].conns;
    assert Nodes([a, b]) == [0, 1] && [0, 1][1..] == [1] && [1][1..] == [];
    DestroyingTheNextReceiver(w, 0);
  }

  /* ---------- callbacks that meet the guard on `disconnect` ---------- */

  lemma {:induction false} DisciplinedRunKeepsRegistered<S, R>(w: World<S, R>, ops: seq<Op<S, R>>)
    requires ConnectedRegistered(w) && Possible(w, ops) && AllDisciplined(w, ops)
    ensures ConnectedRegistered(Run(w, ops))
    decreases ops
  {
    if ops != [] {
      StepKeepsConnectedRegistered(w, ops[0]);
      DisciplinedRunKeepsRegistered(Step(w, ops[0]), ops[1..]);
    }
  }

  /** Callbacks meet the guard on `disconnect`. */
  ghost predicate DisciplinedAt<S, R>(w: World<S, R>, calls: Plan<S, R>, k: nat) {
    Possible(WorldAt(w, calls, k), calls.at(k)) && AllDisciplined(WorldAt(w, calls, k), calls.at(k))
  }

  /** From a registry where every connection is registered, and with callbacks that meet the guard on
      `disconnect`, every delivery is to a live receiver. */
  lemma {:induction false} DeliveriesAreToLiveReceivers<S, R>(w: World<S, R>, s: S, calls: Plan<S, R>,
                                                               k: nat, c: Conn<R>)
    requires ConnectedRegistered(w) && forall j: nat :: j < k ==> DisciplinedAt(w, calls, j)
    ensures ConnectedRegistered(WorldAt(w, calls, k))
    ensures ListedAt(w, s, calls, k, c) ==> c.dest in WorldAt(w, calls, k).senders
  {
    if k > 0 {
      DeliveriesAreToLiveReceivers(w, s, calls, k - 1, c);
      assert DisciplinedAt(w, calls, k - 1);
      DisciplinedRunKeepsRegistered(WorldAt(w, calls, k - 1), calls.at(k - 1));
    }
  }

  /* ---------- callbacks that make no calls ---------- */

  ghost function NoCalls<S, R>(): Plan<S, R> {
    Plan((k: nat) => [])
  }

  lemma {:induction false} NothingChanges<S, R>(w: World<S, R>, k: nat)
    ensures WorldAt(w, NoCalls(), k) == w
  {
    if k > 0 {
      NothingChanges(w, k - 1);
    }
  }

  /** Such callbacks meet all that `emit` asks for, whatever the list. */
  lemma IdleCallbacksAreAllowed<S, R>(w: World<S, R>, s: S)
    requires s in w.lists && Numbered(w.lists[s])
    ensures Playable(w, s, NoCalls()) && forall k: nat :: Script(w, s, NoCalls()).at(k) == []
    ensures Quiet(Script(w, s, NoCalls()), 0)
    ensures SparesEachNext(w, s, NoCalls(), 0)
  {
    forall k: nat
      ensures CallableAt(w, s, NoCalls(), k) && Script(w, s, NoCalls()).at(k) == []
    {
      NothingChanges(w, k);
    }
    IdlePolite(Nodes(w.lists[s].conns), w.lists[s].next, 0, Script(w, s, NoCalls()));
    SparesEachNextIsPolite(w, s, NoCalls(), 0);
  }

  lemma {:induction false} IdlePolite(list: seq<Node>, next: Node, k: nat, cb: Emission.Callbacks)
    requires Quiet(cb, 0) && forall j: nat :: cb.at(j) == []
    ensures Polite(list, next, k, cb, 0)
    decreases |list|
  {
    if |list| > 1 {
      IdlePolite(list[1..], next, k + 1, cb);
    }
  }
}
