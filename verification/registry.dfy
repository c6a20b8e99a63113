/** The signal/slot registry as a value: who is connected to whom, and who is registered where.
    Signals and receivers are named by values of type S and R; `lists` holds the ordered
    connection list of every live signal, `senders` the sender set of every live receiver.
    A connection carries its number among all those ever put into its signal's list, which names
    its list node. */
module Registry {

  type Node = nat

  datatype Conn<R> = Conn(dest: R, fun: nat, node: Node)

  /** A connection list and the number the next connection gets. */
  datatype Slots<R> = Slots(conns: seq<Conn<R>>, next: Node)

  datatype World<S, R> = World(lists: map<S, Slots<R>>, senders: map<R, set<S>>)

  /* ---------- connection lists ---------- */

  ghost predicate Targets<R>(cs: seq<Conn<R>>, r: R) {
    exists c :: c in cs && c.dest == r
  }

  function Count<R(==)>(cs: seq<Conn<R>>, r: R): nat {
    if cs == [] then 0
    else Count(cs[..|cs| - 1], r) + if cs[|cs| - 1].dest == r then 1 else 0
  }

  /** The connections whose target is r (hit) or is not r (!hit), in list order. */
  function Select<R(==)>(cs: seq<Conn<R>>, r: R, hit: bool): seq<Conn<R>> {
    if cs == [] then []
    else Select(cs[..|cs| - 1], r, hit) +
         if (cs[|cs| - 1].dest == r) == hit then [cs[|cs| - 1]] else []
  }

  /** Copies with a new target, numbered from next on. */
  function Retarget<R>(cs: seq<Conn<R>>, r: R, next: Node): (copies: seq<Conn<R>>)
    ensures |copies| == |cs|
  {
    seq(|cs|, i requires 0 <= i < |cs| => Conn(r, cs[i].fun, next + i))
  }

  /** Copies for the list of a new signal. */
  function Renumber<R>(cs: seq<Conn<R>>): (copies: seq<Conn<R>>)
    ensures |copies| == |cs|
  {
    seq(|cs|, i requires 0 <= i < |cs| => Conn(cs[i].dest, cs[i].fun, i))
  }

  function RemoveFirst<R(==)>(cs: seq<Conn<R>>, r: R): seq<Conn<R>> {
    if cs == [] then []
    else if cs[0].dest == r then cs[1..]
    else [cs[0]] + RemoveFirst(cs[1..], r)
  }

  lemma {:induction false} CountAppend<R>(a: seq<Conn<R>>, b: seq<Conn<R>>, r: R)
    ensures Count(a + b, r) == Count(a, r) + Count(b, r)
    decreases |b|
  {
    if b == [] {
      assert a + b == a;
    } else {
      CountAppend(a, b[..|b| - 1], r);
      assert (a + b)[..|a + b| - 1] == a + b[..|b| - 1];
    }
  }

  lemma {:induction false} SelectAppend<R>(a: seq<Conn<R>>, b: seq<Conn<R>>, r: R, hit: bool)
    ensures Select(a + b, r, hit) == Select(a, r, hit) + Select(b, r, hit)
    decreases |b|
  {
    if b == [] {
      assert a + b == a;
    } else {
      SelectAppend(a, b[..|b| - 1], r, hit);
      assert (a + b)[..|a + b| - 1] == a + b[..|b| - 1];
    }
  }

  lemma SelectOne<R>(c: Conn<R>, r: R, hit: bool)
    ensures Select([c], r, hit) == if (c.dest == r) == hit then [c] else []
  {
    var cs := [c];
    assert cs[..|cs| - 1] == [];
  }

  lemma SelectNext<R>(cs: seq<Conn<R>>, k: nat, r: R)
    requires k < |cs|
    ensures Select(cs[..k + 1], r, false) == Select(cs[..k], r, false) + if cs[k].dest == r then [] else [cs[k]]
  {
    assert cs[..k + 1][..k] == cs[..k];
  }

  lemma SelectCons<R>(c: Conn<R>, cs: seq<Conn<R>>, r: R)
    ensures Select([c] + cs, r, false) == (if c.dest == r then [] else [c]) + Select(cs, r, false)
  {
    SelectAppend([c], cs, r, false);
    SelectOne(c, r, false);
  }

  lemma {:induction false} CountIsTargets<R>(cs: seq<Conn<R>>, r: R)
    ensures Count(cs, r) > 0 <==> Targets(cs, r)
  {
    if cs != [] {
      var init, last := cs[..|cs| - 1], cs[|cs| - 1];
      CountIsTargets(init, r);
      assert forall c :: c in cs <==> c in init || c == last;
    }
  }

  lemma {:induction false} SelectMembers<R>(cs: seq<Conn<R>>, r: R, hit: bool)
    ensures forall c :: c in Select(cs, r, hit) ==> c in cs && (c.dest == r) == hit
    ensures forall c :: c in cs && (c.dest == r) == hit ==> c in Select(cs, r, hit)
  {
    if cs != [] {
      var init, last := cs[..|cs| - 1], cs[|cs| - 1];
      SelectMembers(init, r, hit);
      assert forall c :: c in cs <==> c in init || c == last;
    }
  }

  lemma SelectAt<R>(cs: seq<Conn<R>>, r: R, hit: bool, i: nat)
    requires i < |Select(cs, r, hit)|
    ensures Select(cs, r, hit)[i] in cs && (Select(cs, r, hit)[i].dest == r) == hit
  {
    SelectMembers(cs, r, hit);
    assert Select(cs, r, hit)[i] in Select(cs, r, hit);
  }

  /** Dropping the connections to r keeps those to any other receiver, in order and multiplicity. */
  lemma {:induction false} SelectOthers<R>(cs: seq<Conn<R>>, r: R, q: R)
    requires q != r
    ensures Select(Select(cs, r, false), q, true) == Select(cs, q, true)
  {
    if cs != [] {
      var init, last := cs[..|cs| - 1], cs[|cs| - 1];
      SelectOthers(init, r, q);
      SelectAppend(Select(init, r, false), if last.dest == r then [] else [last], q, true);
      if last.dest != r {
        assert [last][..0] == [];
      }
    }
  }

  lemma SelectAll<R>(cs: seq<Conn<R>>, r: R)
    requires !Targets(cs, r)
    ensures Select(cs, r, false) == cs
  {
    forall i | 0 <= i < |cs|
      ensures cs[i].dest != r
    {
      assert cs[i] in cs;
    }
    SelectOnlyOthers(cs, r);
  }

  lemma {:induction false} SelectOnlyOthers<R>(cs: seq<Conn<R>>, r: R)
    requires forall i :: 0 <= i < |cs| ==> cs[i].dest != r
    ensures Select(cs, r, false) == cs
  {
    if cs != [] {
      SelectOnlyOthers(cs[..|cs| - 1], r);
    }
  }

  lemma {:induction false} SelectNone<R>(cs: seq<Conn<R>>, r: R)
    requires forall c :: c in cs ==> c.dest == r
    ensures Select(cs, r, false) == []
  {
    if cs != [] {
      SelectNone(cs[..|cs| - 1], r);
      assert cs[|cs| - 1] in cs;
    }
  }

  lemma {:induction false} RemoveFirstEffect<R>(cs: seq<Conn<R>>, r: R)
    ensures Select(RemoveFirst(cs, r), r, false) == Select(cs, r, false)
    ensures Count(RemoveFirst(cs, r), r) == if Count(cs, r) == 0 then 0 else Count(cs, r) - 1
    ensures Count(cs, r) == 0 ==> RemoveFirst(cs, r) == cs
    ensures forall c :: c in RemoveFirst(cs, r) ==> c in cs
    ensures forall c :: c in cs && c.dest != r ==> c in RemoveFirst(cs, r)
  {
    if cs != [] {
      var head, tail := [cs[0]], cs[1..];
      assert cs == head + tail;
      CountAppend(head, tail, r);
      SelectAppend(head, tail, r, false);
      assert head[..0] == [];
      if cs[0].dest != r {
        RemoveFirstEffect(tail, r);
        CountAppend(head, RemoveFirst(tail, r), r);
        SelectAppend(head, RemoveFirst(tail, r), r, false);
      }
    }
  }

  lemma {:induction false} RemoveFirstAt<R>(cs: seq<Conn<R>>, r: R, i: nat)
    requires i < |cs| && cs[i].dest == r
    requires forall k :: 0 <= k < i ==> cs[k].dest != r
    ensures RemoveFirst(cs, r) == cs[..i] + cs[i + 1..] && Targets(cs, r)
  {
    assert cs[i] in cs;
    if i > 0 {
      RemoveFirstAt(cs[1..], r, i - 1);
      assert cs[..i] + cs[i + 1..] == [cs[0]] + (cs[1..][..i - 1] + cs[1..][i..]);
    }
  }

  lemma RenumberTargets<R>(cs: seq<Conn<R>>, r: R)
    ensures Targets(Renumber(cs), r) <==> Targets(cs, r)
  {
    if Targets(cs, r) {
      var c :| c in cs && c.dest == r;
      var i :| 0 <= i < |cs| && cs[i] == c;
      assert Renumber(cs)[i] in Renumber(cs);
    }
  }

  /* ---------- what `slot_duplicate` does to a list ---------- */

  /** What it has added after the first i connections. */
  function Copies<R(==)>(sl: Slots<R>, i: nat, r: R, q: R): seq<Conn<R>>
    requires i <= |sl.conns|
  {
    Retarget(Select(sl.conns[..i], r, true), q, sl.next)
  }

  function Push<R>(sl: Slots<R>, r: R, fun: nat): Slots<R> {
    Slots(sl.conns + [Conn(r, fun, sl.next)], sl.next + 1)
  }

  /** The list when the cursor, which has visited i connections, has passed all those, or all there
      were at the start. */
  function DuplicatedUpTo<R(==)>(sl: Slots<R>, i: nat, r: R, q: R): Slots<R> {
    var copies := Copies(sl, if i < |sl.conns| then i else |sl.conns|, r, q);
    Slots(sl.conns + copies, sl.next + |copies|)
  }

  function Duplicated<R(==)>(sl: Slots<R>, r: R, q: R): Slots<R> {
    DuplicatedUpTo(sl, |sl.conns|, r, q)
  }

  lemma CopiesProgress<R>(sl: Slots<R>, i: nat, r: R, q: R)
    requires i < |sl.conns|
    ensures
      var before := DuplicatedUpTo(sl, i, r, q);
      DuplicatedUpTo(sl, i + 1, r, q) ==
        if sl.conns[i].dest == r then Push(before, q, sl.conns[i].fun) else before
  {
    assert sl.conns[..i + 1][..i] == sl.conns[..i];
  }

  /** One round: only connections that were there at the start match. */
  lemma DuplicateVisit<R>(sl: Slots<R>, i: nat, r: R, q: R)
    requires i < |DuplicatedUpTo(sl, i, r, q).conns|
    requires r != q || !Targets(sl.conns, r)
    ensures
      var before := DuplicatedUpTo(sl, i, r, q);
      && DuplicatedUpTo(sl, i + 1, r, q) ==
           (if before.conns[i].dest == r then Push(before, q, before.conns[i].fun) else before)
      && (before.conns[i].dest == r ==> i < |sl.conns|)
  {
    var before, n := DuplicatedUpTo(sl, i, r, q).conns, |sl.conns|;
    if i < n {
      CopiesProgress(sl, i, r, q);
      assert before[i] == sl.conns[i];
    } else {
      assert sl.conns[..n] == sl.conns;
      SelectAt(sl.conns, r, true, i - n);
      assert before[i] == Copies(sl, n, r, q)[i - n] && before[i].dest == q;
    }
  }

  lemma DuplicateNone<R>(sl: Slots<R>, r: R, q: R)
    ensures DuplicatedUpTo(sl, 0, r, q) == sl
  {
    assert sl.conns[..0] == [];
  }

  /** The walk of `slot_duplicate(r, r)`: the list after k steps of the cursor, from the i-th
      connection on. */
  function SelfDuplicated<R(==)>(sl: Slots<R>, i: nat, r: R, k: nat): Slots<R>
    decreases k
  {
    if k == 0 || i >= |sl.conns| then sl
    else
      SelfDuplicated(if sl.conns[i].dest == r then Push(sl, r, sl.conns[i].fun) else sl, i + 1, r, k - 1)
  }

  /** Duplicating onto the same receiver never ends: after any number of steps the cursor is still
      inside the list. */
  lemma {:induction false} SelfDuplicateNeverEnds<R>(sl: Slots<R>, i: nat, r: R, k: nat)
    requires i <= |sl.conns| && Targets(sl.conns[i..], r)
    ensures i + k < |SelfDuplicated(sl, i, r, k).conns|
    decreases k
  {
    var cs := sl.conns;
    if k > 0 {
      if cs[i].dest == r {
        var after := Push(sl, r, cs[i].fun);
        assert after.conns[i + 1..][|cs| - i - 1].dest == r;
        SelfDuplicateNeverEnds(after, i + 1, r, k - 1);
      } else {
        var c :| c in cs[i..] && c.dest == r;
        var m :| 0 <= m < |cs[i..]| && cs[i..][m] == c;
        assert cs[i + 1..][m - 1] == c;
        SelfDuplicateNeverEnds(sl, i + 1, r, k - 1);
      }
    }
  }

  /* ---------- operations ---------- */

  datatype Op<S, R> =
    | NewSignal(s: S)
    | NewReceiver(r: R)
    | Connect(s: S, r: R, fun: nat)
    | Disconnect(s: S, r: R)
    | DisconnectSignal(s: S)
    | DisconnectReceiver(r: R)
    | CopySignal(from: S, s: S)
    | CopyReceiver(origin: R, r: R)
    | DestroySignal(s: S)
    | DestroyReceiver(r: R)

  /** What the caller owes: the objects it operates on are live, the storage it constructs in is not. */
  ghost predicate Addressed<S, R>(w: World<S, R>, op: Op<S, R>) {
    match op
    case NewSignal(s) => s !in w.lists
    case NewReceiver(r) => r !in w.senders
    case Connect(s, r, _) => s in w.lists && r in w.senders
    case Disconnect(s, _) => s in w.lists
    case DisconnectSignal(s) => s in w.lists
    case DisconnectReceiver(r) => r in w.senders
    case CopySignal(from, s) => from in w.lists && s !in w.lists
    case CopyReceiver(origin, r) => origin in w.senders && r !in w.senders
    case DestroySignal(s) => s in w.lists
    case DestroyReceiver(r) => r in w.senders
  }

  /** The objects the registry itself calls by itself are live. */
  ghost predicate CallsLive<S, R>(w: World<S, R>, op: Op<S, R>)
    requires Addressed(w, op)
  {
    match op
    case NewSignal(_) => true
    case NewReceiver(_) => true
    case Connect(_, _, _) => true
    case Disconnect(s, r) => Targets(w.lists[s].conns, r) ==> r in w.senders
    case DisconnectSignal(s) => TargetsLive(w, s)
    case DisconnectReceiver(r) => w.senders[r] <= w.lists.Keys
    case CopySignal(from, _) => TargetsLive(w, from)
    case CopyReceiver(origin, _) => w.senders[origin] <= w.lists.Keys
    case DestroySignal(s) => TargetsLive(w, s)
    case DestroyReceiver(r) => w.senders[r] <= w.lists.Keys
  }

  ghost predicate TargetsLive<S, R>(w: World<S, R>, s: S)
    requires s in w.lists
  {
    forall c :: c in w.lists[s].conns ==> c.dest in w.senders
  }

  ghost predicate Defined<S, R>(w: World<S, R>, op: Op<S, R>) {
    Addressed(w, op) && CallsLive(w, op)
  }

  /** Every receiver that s has a connection to forgets s. */
  ghost function Unregister<S, R>(w: World<S, R>, s: S): map<R, set<S>>
    requires s in w.lists
  {
    map r | r in w.senders :: if Targets(w.lists[s].conns, r) then w.senders[r] - {s} else w.senders[r]
  }

  /** Every signal registered with r drops all its connections to r. */
  ghost function Detach<S, R>(w: World<S, R>, r: R): map<S, Slots<R>>
    requires r in w.senders
  {
    map s | s in w.lists ::
      if s in w.senders[r] then w.lists[s].(conns := Select(w.lists[s].conns, r, false)) else w.lists[s]
  }

  /** One list and one sender set change. */
  ghost function Updated<S, R>(w: World<S, R>, s: S, sl: Slots<R>, r: R, signals: set<S>): World<S, R> {
    World(w.lists[s := sl], w.senders[r := signals])
  }

  ghost function Step<S, R>(w: World<S, R>, op: Op<S, R>): World<S, R>
    requires Defined(w, op)
  {
    match op
    case NewSignal(s) => w.(lists := w.lists[s := Slots([], 0)])
    case NewReceiver(r) => w.(senders := w.senders[r := {}])
    case Connect(s, r, fun) =>
      Updated(w, s, Push(w.lists[s], r, fun), r, w.senders[r] + {s})
    case Disconnect(s, r) =>
      if Targets(w.lists[s].conns, r) then
        Updated(w, s, w.lists[s].(conns := RemoveFirst(w.lists[s].conns, r)), r, w.senders[r] - {s})
      else w
    case DisconnectSignal(s) => World(w.lists[s := w.lists[s].(conns := [])], Unregister(w, s))
    case DisconnectReceiver(r) => World(Detach(w, r), w.senders[r := {}])
    case CopySignal(from, s) =>
      var copies := Renumber(w.lists[from].conns);
      World(w.lists[s := Slots(copies, |copies|)],
            map r | r in w.senders ::
              if Targets(w.lists[from].conns, r) then w.senders[r] + {s} else w.senders[r])
    case CopyReceiver(origin, r) =>
      World(map s | s in w.lists ::
              if s in w.senders[origin] then Duplicated(w.lists[s], origin, r) else w.lists[s],
            w.senders[r := w.senders[origin]])
    case DestroySignal(s) => World(w.lists - {s}, Unregister(w, s))
    case DestroyReceiver(r) => World(Detach(w, r), w.senders - {r})
  }

  /* ---------- the two directions of the invariant ---------- */

  /** A connection implies a live, registered target. */
  ghost predicate ConnectedRegistered<S, R>(w: World<S, R>) {
    forall s, c :: s in w.lists && c in w.lists[s].conns ==> c.dest in w.senders && s in w.senders[c.dest]
  }

  /** A registration implies a live signal with at least one connection. */
  ghost predicate RegisteredConnected<S, R>(w: World<S, R>) {
    forall r, s :: r in w.senders && s in w.senders[r] ==> s in w.lists && Targets(w.lists[s].conns, r)
  }

  /** The guard under which `disconnect` keeps the first direction: at most one match. */
  ghost predicate Disciplined<S, R>(w: World<S, R>, op: Op<S, R>)
    requires Addressed(w, op)
  {
    op.Disconnect? ==> Count(w.lists[op.s].conns, op.r) <= 1
  }

  /** No restriction on duplicates: every operation keeps "registered implies connected". */
  lemma StepKeepsRegisteredConnected<S, R>(w: World<S, R>, op: Op<S, R>)
    requires RegisteredConnected(w) && Defined(w, op)
    ensures RegisteredConnected(Step(w, op))
  {
    var w' := Step(w, op);
    forall r, s | r in w'.senders && s in w'.senders[r]
      ensures s in w'.lists && Targets(w'.lists[s].conns, r)
    {
      TargetsAfter(w, op, r, s);
    }
  }

  lemma TargetsAfter<S, R>(w: World<S, R>, op: Op<S, R>, r: R, s: S)
    requires RegisteredConnected(w) && Defined(w, op)
    requires r in Step(w, op).senders && s in Step(w, op).senders[r]
    ensures s in Step(w, op).lists && Targets(Step(w, op).lists[s].conns, r)
  {
    match op
    case Connect(_, q, fun) =>
      if op.s == s {
        if q == r {
          assert Conn(r, fun, w.lists[s].next) in Step(w, op).lists[s].conns;
        } else {
          var c :| c in w.lists[s].conns && c.dest == r;
          assert c in Step(w, op).lists[s].conns;
        }
      }
    case Disconnect(t, q) =>
      if Targets(w.lists[t].conns, q) && s == t && r != q {
        var c :| c in w.lists[s].conns && c.dest == r;
        RemoveFirstEffect(w.lists[s].conns, q);
        assert c in Step(w, op).lists[s].conns;
      }
    case DisconnectReceiver(q) => SelectKeepsTarget(w.lists[s].conns, q, r);
    case DestroyReceiver(q) => SelectKeepsTarget(w.lists[s].conns, q, r);
    case CopyReceiver(origin, q) =>
      if q == r {
        DuplicatedTargets(w.lists[s], origin, r);
      } else {
        var c :| c in w.lists[s].conns && c.dest == r;
        assert c in Step(w, op).lists[s].conns;
      }
    case CopySignal(from, _) =>
      if op.s == s {
        RenumberTargets(w.lists[from].conns, r);
      }
    case _ =>
  }

  lemma SelectKeepsTarget<R>(cs: seq<Conn<R>>, q: R, r: R)
    ensures q != r && Targets(cs, r) ==> Targets(Select(cs, q, false), r)
  {
    SelectMembers(cs, q, false);
  }

  lemma DuplicatedTargets<R>(sl: Slots<R>, r: R, q: R)
    requires Targets(sl.conns, r)
    ensures Targets(Duplicated(sl, r, q).conns, q)
  {
    var picked := Select(sl.conns, r, true);
    assert sl.conns[..|sl.conns|] == sl.conns;
    SelectMembers(sl.conns, r, true);
    var c :| c in sl.conns && c.dest == r;
    var i :| 0 <= i < |picked| && picked[i] == c;
    assert Retarget(picked, q, sl.next)[i] in Duplicated(sl, r, q).conns;
  }

  /** `disconnect` keeps "connected implies registered" exactly when the list holds at most one
      connection to the receiver; every other operation keeps it outright. */
  lemma StepKeepsConnectedRegistered<S, R>(w: World<S, R>, op: Op<S, R>)
    requires ConnectedRegistered(w) && Defined(w, op)
    ensures ConnectedRegistered(Step(w, op)) <==> Disciplined(w, op)
  {
    var w' := Step(w, op);
    if Disciplined(w, op) {
      forall s, c | s in w'.lists && c in w'.lists[s].conns
        ensures c.dest in w'.senders && s in w'.senders[c.dest]
      {
        RegisteredAfter(w, op, s, c);
      }
    } else {
      CountIsTargets(w.lists[op.s].conns, op.r);
      RemoveFirstEffect(w.lists[op.s].conns, op.r);
      CountIsTargets(w'.lists[op.s].conns, op.r);
      var c :| c in w'.lists[op.s].conns && c.dest == op.r;
      assert op.s !in w'.senders[c.dest];
    }
  }

  lemma RegisteredAfter<S, R>(w: World<S, R>, op: Op<S, R>, s: S, c: Conn<R>)
    requires ConnectedRegistered(w) && Defined(w, op) && Disciplined(w, op)
    requires s in Step(w, op).lists && c in Step(w, op).lists[s].conns
    ensures c.dest in Step(w, op).senders && s in Step(w, op).senders[c.dest]
  {
    match op
    case Disconnect(t, q) =>
      RemoveFirstEffect(w.lists[t].conns, q);
      CountIsTargets(RemoveFirst(w.lists[t].conns, q), q);
    case DisconnectReceiver(q) => SelectMembers(w.lists[s].conns, q, false);
    case DestroyReceiver(q) => SelectMembers(w.lists[s].conns, q, false);
    case CopyReceiver(origin, q) =>
      if c !in w.lists[s].conns {
        assert s in w.senders[origin];
      }
    case CopySignal(from, _) =>
      if op.s == s {
        var i :| 0 <= i < |w.lists[from].conns| && Renumber(w.lists[from].conns)[i] == c;
        assert w.lists[from].conns[i] in w.lists[from].conns;
      }
    case _ =>
  }

  /* ---------- whole runs ---------- */

  ghost function Empty<S, R>(): World<S, R> {
    World(map[], map[])
  }

  /** Every call in ops, made in order from w, touches live objects only. */
  ghost predicate Possible<S, R>(w: World<S, R>, ops: seq<Op<S, R>>)
    decreases ops
  {
    ops == [] || (Defined(w, ops[0]) && Possible(Step(w, ops[0]), ops[1..]))
  }

  ghost function Run<S, R>(w: World<S, R>, ops: seq<Op<S, R>>): World<S, R>
    requires Possible(w, ops)
    decreases ops
  {
    if ops == [] then w else Run(Step(w, ops[0]), ops[1..])
  }

  ghost predicate AllDisciplined<S, R>(w: World<S, R>, ops: seq<Op<S, R>>)
    requires Possible(w, ops)
    decreases ops
  {
    ops == [] || (Disciplined(w, ops[0]) && AllDisciplined(Step(w, ops[0]), ops[1..]))
  }

  ghost predicate AlwaysRegistered<S, R>(w: World<S, R>, ops: seq<Op<S, R>>)
    requires Possible(w, ops)
    decreases ops
  {
    ConnectedRegistered(w) && (ops == [] || AlwaysRegistered(Step(w, ops[0]), ops[1..]))
  }

  /** The obligations of a client alone: it hands over live objects and, when it calls
      `disconnect`, the signal holds at most one connection to that receiver. */
  ghost predicate WellBehaved<S, R>(w: World<S, R>, ops: seq<Op<S, R>>)
    decreases ops
  {
    ops == [] ||
    (Addressed(w, ops[0]) && Disciplined(w, ops[0]) &&
     (Defined(w, ops[0]) ==> WellBehaved(Step(w, ops[0]), ops[1..])))
  }

  lemma {:induction false} RunsKeepRegisteredConnected<S, R>(w: World<S, R>, ops: seq<Op<S, R>>)
    requires RegisteredConnected(w) && Possible(w, ops)
    ensures RegisteredConnected(Run(w, ops))
    decreases ops
  {
    if ops != [] {
      StepKeepsRegisteredConnected(w, ops[0]);
      RunsKeepRegisteredConnected(Step(w, ops[0]), ops[1..]);
    }
  }

  /** Over a whole run the first direction holds in every state exactly when every `disconnect`
      met the guard. */
  lemma {:induction false} RunsStayRegistered<S, R>(w: World<S, R>, ops: seq<Op<S, R>>)
    requires ConnectedRegistered(w) && Possible(w, ops)
    ensures AlwaysRegistered(w, ops) <==> AllDisciplined(w, ops)
    decreases ops
  {
    if ops != [] {
      StepKeepsConnectedRegistered(w, ops[0]);
      if Disciplined(w, ops[0]) {
        RunsStayRegistered(Step(w, ops[0]), ops[1..]);
      }
    }
  }

  /** Memory safety over whole runs: well-behaved clients never make the registry touch a
      destroyed object, and the two-way invariant holds at the end. */
  lemma {:induction false} WellBehavedRunsAreSafe<S, R>(w: World<S, R>, ops: seq<Op<S, R>>)
    requires ConnectedRegistered(w) && RegisteredConnected(w) && WellBehaved(w, ops)
    ensures Possible(w, ops)
    ensures forall s, r :: s in Run(w, ops).lists && r in Run(w, ops).senders ==>
              (s in Run(w, ops).senders[r] <==> Targets(Run(w, ops).lists[s].conns, r))
    ensures ConnectedRegistered(Run(w, ops)) && RegisteredConnected(Run(w, ops))
    decreases ops
  {
    if ops != [] {
      CallsLiveWhenInvariant(w, ops[0]);
      StepKeepsRegisteredConnected(w, ops[0]);
      StepKeepsConnectedRegistered(w, ops[0]);
      WellBehavedRunsAreSafe(Step(w, ops[0]), ops[1..]);
    }
  }

  lemma CallsLiveWhenInvariant<S, R>(w: World<S, R>, op: Op<S, R>)
    requires ConnectedRegistered(w) && RegisteredConnected(w) && Addressed(w, op)
    ensures CallsLive(w, op)
  {
    match op
    case Disconnect(s, r) =>
      if Targets(w.lists[s].conns, r) {
        var c :| c in w.lists[s].conns && c.dest == r;
      }
    case _ =>
  }

  /** Even a client that ignores the guard can always construct, copy, disconnect and destroy
      receivers: no sender set ever holds a destroyed signal. */
  lemma ReceiversAlwaysCallable<S, R>(ops: seq<Op<S, R>>, op: Op<S, R>)
    requires Possible(Empty(), ops) && Addressed(Run(Empty(), ops), op)
    requires op.DisconnectReceiver? || op.CopyReceiver? || op.DestroyReceiver?
    ensures CallsLive(Run(Empty(), ops), op)
  {
    RunsKeepRegisteredConnected(Empty<S, R>(), ops);
  }

  /** Breaking the guard even once is fatal: from any sound state with two or more connections from
      s to r, one `disconnect` and the death of r leave s with a connection to a destroyed object,
      so s can no longer be cleared, copied or destroyed. */
  lemma UndisciplinedDisconnectDangles<S, R>(w: World<S, R>, s: S, r: R)
    requires ConnectedRegistered(w) && RegisteredConnected(w)
    requires s in w.lists && Count(w.lists[s].conns, r) >= 2
    ensures Defined(w, Disconnect(s, r)) && Defined(Step(w, Disconnect(s, r)), DestroyReceiver(r))
    ensures
      var w' := Step(Step(w, Disconnect(s, r)), DestroyReceiver(r));
      s in w'.lists && r !in w'.senders && !TargetsLive(w', s)
  {
    CountIsTargets(w.lists[s].conns, r);
    CallsLiveWhenInvariant(w, Disconnect(s, r));
    RemoveFirstEffect(w.lists[s].conns, r);
    var w1 := Step(w, Disconnect(s, r));
    CountIsTargets(w1.lists[s].conns, r);
    StepKeepsRegisteredConnected(w, Disconnect(s, r));
    var c :| c in w1.lists[s].conns && c.dest == r;
    assert c in Step(w1, DestroyReceiver(r)).lists[s].conns;
  }

  /** Such a state is reached from the empty registry: a signal connected twice to one receiver. */
  lemma DuplicateExample()
    ensures
      var ops: seq<Op<int, int>> := [NewSignal(0), NewReceiver(0), Connect(0, 0, 1), Connect(0, 0, 2)];
      && Possible(Empty(), ops) && AllDisciplined(Empty(), ops)
      && ConnectedRegistered(Run(Empty(), ops)) && RegisteredConnected(Run(Empty(), ops))
      && Defined(Run(Empty(), ops), Disconnect(0, 0))
      && !ConnectedRegistered(Step(Run(Empty(), ops), Disconnect(0, 0)))
  {
    var a, b := Conn(0, 1, 0), Conn(0, 2, 1);
    var w0: World<int, int> := Empty();
    var w1: World<int, int> := World(map[0 := Slots([], 0)], map[]);
    var w2: World<int, int> := World(map[0 := Slots([], 0)], map[0 := {}]);
    var w3: World<int, int> := World(map[0 := Slots([a], 1)], map[0 := {0}]);
    var w4: World<int, int> := World(map[0 := Slots([a, b], 2)], map[0 := {0}]);
    var ops: seq<Op<int, int>> := [NewSignal(0), NewReceiver(0), Connect(0, 0, 1), Connect(0, 0, 2)];
    RunNil(w4);
    assert [] + [a] == [a] && [a] + [b] == [a, b];
    ConnectOnlyTwo(Slots([], 0), {}, 1);
    ConnectOnlyTwo(Slots([a], 1), {0}, 2);
    RunCons(w3, Connect(0, 0, 2), [], w4);
    RunCons(w2, Connect(0, 0, 1), [Connect(0, 0, 2)], w3);
    RunCons(w1, NewReceiver(0), [Connect(0, 0, 1), Connect(0, 0, 2)], w2);
    RunCons(w0, NewSignal(0), [NewReceiver(0), Connect(0, 0, 1), Connect(0, 0, 2)], w1);
    assert ops == [NewSignal(0)] + [NewReceiver(0), Connect(0, 0, 1), Connect(0, 0, 2)];
    DuplicateBreaks(w4, a, b);
  }

  /** One signal and one receiver. */
  lemma ConnectOnlyTwo(sl: Slots<int>, senders: set<int>, fun: nat)
    requires senders <= {0}
    ensures
      var w: World<int, int> := World(map[0 := sl], map[0 := senders]);
      Defined(w, Connect(0, 0, fun)) &&
      Step(w, Connect(0, 0, fun)) == World(map[0 := Push(sl, 0, fun)], map[0 := {0}])
  {
    var w: World<int, int> := World(map[0 := sl], map[0 := senders]);
    assert senders + {0} == {0};
    assert Step(w, Connect(0, 0, fun)).lists == map[0 := Push(sl, 0, fun)];
    assert Step(w, Connect(0, 0, fun)).senders == map[0 := {0}];
  }

  lemma RunNil<S, R>(w: World<S, R>)
    ensures Possible(w, []) && Run(w, []) == w && AllDisciplined(w, [])
  {
  }

  lemma RunCons<S, R>(w: World<S, R>, op: Op<S, R>, ops: seq<Op<S, R>>, w': World<S, R>)
    requires Defined(w, op) && Step(w, op) == w' && Possible(w', ops)
    ensures Possible(w, [op] + ops) && Run(w, [op] + ops) == Run(w', ops)
    ensures AllDisciplined(w, [op] + ops) <==> Disciplined(w, op) && AllDisciplined(w', ops)
  {
    assert ([op] + ops)[1..] == ops;
  }

  lemma DuplicateBreaks(w: World<int, int>, a: Conn<int>, b: Conn<int>)
    requires w == World(map[0 := Slots([a, b], 2)], map[0 := {0}]) && a.dest == b.dest == 0
    ensures ConnectedRegistered(w) && RegisteredConnected(w) && Defined(w, Disconnect(0, 0))
    ensures !ConnectedRegistered(Step(w, Disconnect(0, 0)))
  {
    assert a in w.lists[0].conns && b in w.lists[0].conns;
    assert b in Step(w, Disconnect(0, 0)).lists[0].conns;
  }

  /* ---------- what the destructors leave behind ---------- */

  /** After a receiver dies no list targets it exactly when every signal connected to it was
      registered with it; the connections to every other receiver are untouched either way. */
  lemma DestroyedReceiverIsForgotten<S, R>(w: World<S, R>, r: R)
    requires Defined(w, DestroyReceiver(r))
    ensures
      var w' := Step(w, DestroyReceiver(r));
      && ((forall s :: s in w'.lists ==> !Targets(w'.lists[s].conns, r)) <==>
          (forall s :: s in w.lists && Targets(w.lists[s].conns, r) ==> s in w.senders[r]))
      && (forall s, q :: s in w.lists && q != r ==>
            s in w'.lists && Select(w'.lists[s].conns, q, true) == Select(w.lists[s].conns, q, true))
  {
    var w' := Step(w, DestroyReceiver(r));
    forall s | s in w.lists
      ensures Targets(w'.lists[s].conns, r) <==> Targets(w.lists[s].conns, r) && s !in w.senders[r]
    {
      SelectMembers(w.lists[s].conns, r, false);
    }
    forall s, q | s in w.lists && q != r
      ensures s in w'.lists && Select(w'.lists[s].conns, q, true) == Select(w.lists[s].conns, q, true)
    {
      SelectOthers(w.lists[s].conns, r, q);
    }
  }

  /** Under the first direction the destructor removes exactly the connections to r, everywhere. */
  lemma DestroyedReceiverExactly<S, R>(w: World<S, R>, r: R)
    requires Defined(w, DestroyReceiver(r)) && ConnectedRegistered(w)
    ensures forall s :: s in w.lists ==>
      Step(w, DestroyReceiver(r)).lists[s].conns == Select(w.lists[s].conns, r, false)
  {
    forall s | s in w.lists && s !in w.senders[r]
      ensures Select(w.lists[s].conns, r, false) == w.lists[s].conns
    {
      SelectAll(w.lists[s].conns, r);
    }
  }

  /** In every run, however many duplicates it made, a destroyed signal is in no sender set and
      nothing else changes. */
  lemma DestroyedSignalIsForgotten<S, R>(ops: seq<Op<S, R>>, s: S)
    requires Possible(Empty(), ops) && Defined(Run(Empty(), ops), DestroySignal(s))
    ensures
      var w, w' := Run(Empty(), ops), Step(Run(Empty(), ops), DestroySignal(s));
      && w'.lists == w.lists - {s}
      && w'.senders.Keys == w.senders.Keys
      && (forall r :: r in w.senders ==> w'.senders[r] == w.senders[r] - {s})
  {
    RunsKeepRegisteredConnected(Empty<S, R>(), ops);
  }

  /* ---------- what one call undoes ---------- */

  /** Equal but for the numbers the next connections get. */
  ghost predicate SameRegistry<S, R>(w: World<S, R>, w': World<S, R>) {
    && w.lists.Keys == w'.lists.Keys
    && (forall s :: s in w.lists ==> w.lists[s].conns == w'.lists[s].conns)
    && w.senders == w'.senders
  }

  /** Destroying a copy of a receiver restores the registry. */
  lemma CopyReceiverUndone<S, R>(w: World<S, R>, origin: R, r: R)
    requires ConnectedRegistered(w) && RegisteredConnected(w)
    requires Defined(w, CopyReceiver(origin, r))
    ensures
      var w' := Step(w, CopyReceiver(origin, r));
      Defined(w', DestroyReceiver(r)) && SameRegistry(Step(w', DestroyReceiver(r)), w)
  {
    var w' := Step(w, CopyReceiver(origin, r));
    forall s | s in w.lists && s in w.senders[origin]
      ensures Select(w'.lists[s].conns, r, false) == w.lists[s].conns
    {
      var copies := Copies(w.lists[s], |w.lists[s].conns|, origin, r);
      SelectAppend(w.lists[s].conns, copies, r, false);
      SelectAll(w.lists[s].conns, r);
      SelectNone(copies, r);
    }
    assert Step(w', DestroyReceiver(r)).senders == w.senders;
  }

  /** Destroying a copy of a signal restores the registry. */
  lemma CopySignalUndone<S, R>(w: World<S, R>, from: S, s: S)
    requires RegisteredConnected(w) && Defined(w, CopySignal(from, s))
    ensures
      var w' := Step(w, CopySignal(from, s));
      Defined(w', DestroySignal(s)) && Step(w', DestroySignal(s)) == w
  {
    var w' := Step(w, CopySignal(from, s));
    forall r
      ensures Targets(w'.lists[s].conns, r) <==> Targets(w.lists[from].conns, r)
    {
      RenumberTargets(w.lists[from].conns, r);
    }
    RenumberLive(w, from, s);
    assert Step(w', DestroySignal(s)).lists == w.lists;
    assert Step(w', DestroySignal(s)).senders == w.senders;
  }

  lemma RenumberLive<S, R>(w: World<S, R>, from: S, s: S)
    requires Defined(w, CopySignal(from, s))
    ensures Defined(Step(w, CopySignal(from, s)), DestroySignal(s))
  {
    var w' := Step(w, CopySignal(from, s));
    forall c | c in w'.lists[s].conns
      ensures c.dest in w'.senders
    {
      var i :| 0 <= i < |w'.lists[s].conns| && w'.lists[s].conns[i] == c;
      assert w.lists[from].conns[i] in w.lists[from].conns;
    }
  }

  /** `disconnect` undoes `connect` exactly when there was no earlier connection between the two. */
  lemma ConnectUndone<S, R>(w: World<S, R>, s: S, r: R, fun: nat)
    requires ConnectedRegistered(w) && RegisteredConnected(w)
    requires Defined(w, Connect(s, r, fun))
    ensures
      var w' := Step(w, Connect(s, r, fun));
      Defined(w', Disconnect(s, r)) &&
      (SameRegistry(Step(w', Disconnect(s, r)), w) <==> Count(w.lists[s].conns, r) == 0)
  {
    var w' := Step(w, Connect(s, r, fun));
    var cs, c := w.lists[s].conns, Conn(r, fun, w.lists[s].next);
    assert c in w'.lists[s].conns;
    var w'' := Step(w', Disconnect(s, r));
    CountIsTargets(cs, r);
    if Count(cs, r) == 0 {
      RemoveFirstAppended(cs, c);
      assert w''.senders == w.senders;
    } else {
      assert s in w.senders[r] && s !in w''.senders[r];
    }
  }

  lemma {:induction false} RemoveFirstAppended<R>(cs: seq<Conn<R>>, c: Conn<R>)
    requires !Targets(cs, c.dest)
    ensures RemoveFirst(cs + [c], c.dest) == cs
  {
    if cs != [] {
      assert cs[0] in cs;
      assert forall d :: d in cs[1..] ==> d in cs;
      RemoveFirstAppended(cs[1..], c);
      assert (cs + [c])[1..] == cs[1..] + [c];
    } else {
      assert [c][1..] == [];
    }
  }

  /* ---------- what the operations do, connection by connection ---------- */

  function Funs<R>(cs: seq<Conn<R>>): (fs: seq<nat>)
    ensures |fs| == |cs|
  {
    seq(|cs|, i requires 0 <= i < |cs| => cs[i].fun)
  }

  /** `connect` adds one connection, at the end, with the given receiver and function. */
  lemma ConnectAddsLast<S, R>(w: World<S, R>, s: S, r: R, fun: nat)
    requires Defined(w, Connect(s, r, fun))
    ensures
      var w', n := Step(w, Connect(s, r, fun)), |w.lists[s].conns|;
      && w'.lists.Keys == w.lists.Keys && |w'.lists[s].conns| == n + 1
      && w'.lists[s].conns[..n] == w.lists[s].conns
      && w'.lists[s].conns[n].dest == r && w'.lists[s].conns[n].fun == fun
      && (forall t :: t in w.lists && t != s ==> w'.lists[t] == w.lists[t])
      && (forall q :: q in w.senders ==> q in w'.senders && (s in w'.senders[q] <==> s in w.senders[q] || q == r))
  {
  }

  /** A copied signal calls the same receivers and functions in the same order. */
  lemma CopySignalInOrder<S, R>(w: World<S, R>, from: S, s: S)
    requires Defined(w, CopySignal(from, s))
    ensures
      var w' := Step(w, CopySignal(from, s));
      && s in w'.lists && |w'.lists[s].conns| == |w.lists[from].conns|
      && (forall i :: 0 <= i < |w.lists[from].conns| ==>
            && w'.lists[s].conns[i].dest == w.lists[from].conns[i].dest
            && w'.lists[s].conns[i].fun == w.lists[from].conns[i].fun)
      && (forall t :: t in w.lists ==> t in w'.lists && w'.lists[t] == w.lists[t])
  {
  }

  lemma {:induction false} SelectEvery<R>(cs: seq<Conn<R>>, r: R)
    requires forall i :: 0 <= i < |cs| ==> cs[i].dest == r
    ensures Select(cs, r, true) == cs
  {
    if cs != [] {
      SelectEvery(cs[..|cs| - 1], r);
    }
  }

  /** A copied receiver is called, behind all there was, with the functions of the original in their
      order. */
  lemma CopyReceiverInOrder<S, R>(w: World<S, R>, origin: R, r: R, s: S)
    requires Defined(w, CopyReceiver(origin, r)) && s in w.senders[origin]
    ensures
      var cs, cs' := w.lists[s].conns, Step(w, CopyReceiver(origin, r)).lists[s].conns;
      && cs <= cs'
      && Select(cs'[|cs|..], r, true) == cs'[|cs|..]
      && Funs(cs'[|cs|..]) == Funs(Select(cs, origin, true))
  {
    var cs, copies := w.lists[s].conns, Copies(w.lists[s], |w.lists[s].conns|, origin, r);
    var cs' := Step(w, CopyReceiver(origin, r)).lists[s].conns;
    assert cs[..|cs|] == cs;
    assert cs' == cs + copies && cs'[|cs|..] == copies;
    SelectEvery(copies, r);
  }

  /** The destructors are `disconnect_all` and then the end of the object. */
  lemma DestructorsDisconnect<S, R>(w: World<S, R>, s: S, r: R)
    ensures Defined(w, DestroySignal(s)) <==> Defined(w, DisconnectSignal(s))
    ensures Defined(w, DestroySignal(s)) ==>
      var w' := Step(w, DisconnectSignal(s));
      w'.lists[s].conns == [] && Step(w, DestroySignal(s)) == World(w'.lists - {s}, w'.senders)
    ensures Defined(w, DestroyReceiver(r)) <==> Defined(w, DisconnectReceiver(r))
    ensures Defined(w, DestroyReceiver(r)) ==>
      var w' := Step(w, DisconnectReceiver(r));
      w'.senders[r] == {} && Step(w, DestroyReceiver(r)) == World(w'.lists, w'.senders - {r})
  {
    if Defined(w, DestroySignal(s)) {
      assert Step(w, DisconnectSignal(s)).lists - {s} == w.lists - {s};
    }
    if Defined(w, DestroyReceiver(r)) {
      assert w.senders[r := {}] - {r} == w.senders - {r};
    }
  }

  /* ---------- which calls are allowed ---------- */

  /** In a registry whose two sides agree, a call is allowed exactly when its objects are alive and its
      new object is not. */
  lemma DefinedExactly<S, R>(w: World<S, R>, s: S, t: S, r: R, q: R, fun: nat)
    requires ConnectedRegistered(w) && RegisteredConnected(w)
    ensures Defined(w, NewSignal(s)) <==> s !in w.lists
    ensures Defined(w, NewReceiver(r)) <==> r !in w.senders
    ensures Defined(w, Connect(s, r, fun)) <==> s in w.lists && r in w.senders
    ensures Defined(w, Disconnect(s, r)) <==> s in w.lists
    ensures Defined(w, DisconnectSignal(s)) <==> s in w.lists
    ensures Defined(w, DisconnectReceiver(r)) <==> r in w.senders
    ensures Defined(w, CopySignal(s, t)) <==> s in w.lists && t !in w.lists
    ensures Defined(w, CopyReceiver(r, q)) <==> r in w.senders && q !in w.senders
    ensures Defined(w, DestroySignal(s)) <==> s in w.lists
    ensures Defined(w, DestroyReceiver(r)) <==> r in w.senders
  {
    if s in w.lists {
      CallsLiveWhenInvariant(w, Disconnect(s, r));
    }
  }

  /** What a client owes is exactly a possible run in which every `disconnect` meets the guard. */
  lemma {:induction false} WellBehavedExactly<S, R>(w: World<S, R>, ops: seq<Op<S, R>>)
    requires ConnectedRegistered(w) && RegisteredConnected(w)
    ensures WellBehaved(w, ops) <==> Possible(w, ops) && AllDisciplined(w, ops)
    decreases ops
  {
    if ops != [] && Addressed(w, ops[0]) && Disciplined(w, ops[0]) {
      CallsLiveWhenInvariant(w, ops[0]);
      StepKeepsRegisteredConnected(w, ops[0]);
      StepKeepsConnectedRegistered(w, ops[0]);
      WellBehavedExactly(Step(w, ops[0]), ops[1..]);
    }
  }
}
