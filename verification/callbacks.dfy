/** What registry calls made inside a callback do to the list that `emit` is walking: any sequence of
    calls acts on the nodes of that list as a sequence of appends and erases. */
module Callbacks {
  import opened Registry
  import opened Emission

  function Nodes<R>(cs: seq<Conn<R>>): (list: seq<Node>)
    ensures |list| == |cs|
  {
    seq(|cs|, i requires 0 <= i < |cs| => cs[i].node)
  }

  /** The connections stand in the order of their numbers, and the next number is free. */
  ghost predicate Numbered<R>(sl: Slots<R>) {
    Ordered(Nodes(sl.conns), sl.next)
  }

  /* ---------- the edits of one call ---------- */

  /** `slot_disconnect(r)`: every match. */
  function DetachEdits<R(==)>(cs: seq<Conn<R>>, r: R): seq<Edit> {
    if cs == [] then []
    else (if cs[0].dest == r then [Erase(cs[0].node)] else []) + DetachEdits(cs[1..], r)
  }

  /** `disconnect(r)`: the first match, if there is one. */
  function FirstEdit<R(==)>(cs: seq<Conn<R>>, r: R): seq<Edit> {
    if cs == [] then []
    else if cs[0].dest == r then [Erase(cs[0].node)]
    else FirstEdit(cs[1..], r)
  }

  /** `disconnect_all()`. */
  function ClearEdits<R>(cs: seq<Conn<R>>): seq<Edit> {
    if cs == [] then [] else [Erase(cs[0].node)] + ClearEdits(cs[1..])
  }

  function Appends(n: nat): seq<Edit> {
    if n == 0 then [] else [Append] + Appends(n - 1)
  }

  /** What an operation does to the list of s. */
  ghost function OpEdits<S, R>(w: World<S, R>, s: S, op: Op<S, R>): seq<Edit>
    requires Defined(w, op) && s in w.lists
  {
    var cs := w.lists[s].conns;
    match op
    case Connect(t, _, _) => if t == s then [Append] else []
    case Disconnect(t, r) => if t == s then FirstEdit(cs, r) else []
    case DisconnectSignal(t) => if t == s then ClearEdits(cs) else []
    case DisconnectReceiver(r) => if s in w.senders[r] then DetachEdits(cs, r) else []
    case DestroyReceiver(r) => if s in w.senders[r] then DetachEdits(cs, r) else []
    case CopyReceiver(origin, _) => if s in w.senders[origin] then Appends(Count(cs, origin)) else []
    case _ => []
  }

  /** The operation removes the i-th connection of s. */
  ghost predicate Cuts<S, R>(w: World<S, R>, s: S, op: Op<S, R>, i: nat)
    requires Defined(w, op) && s in w.lists && i < |w.lists[s].conns|
  {
    var cs := w.lists[s].conns;
    match op
    case Disconnect(t, r) => t == s && cs[i].dest == r && forall j :: 0 <= j < i ==> cs[j].dest != r
    case DisconnectSignal(t) => t == s
    case DisconnectReceiver(r) => s in w.senders[r] && cs[i].dest == r
    case DestroyReceiver(r) => s in w.senders[r] && cs[i].dest == r
    case _ => false
  }

  lemma NodesCons<R>(c: Conn<R>, cs: seq<Conn<R>>)
    ensures Nodes([c] + cs) == [c.node] + Nodes(cs)
  {
  }

  lemma NumberedTail<R>(sl: Slots<R>)
    requires Numbered(sl) && sl.conns != []
    ensures Numbered(Slots(sl.conns[1..], sl.next))
    ensures Nodes(sl.conns) == [sl.conns[0].node] + Nodes(sl.conns[1..])
    ensures sl.conns[0].node !in Nodes(sl.conns[1..])
  {
    OrderedTail(Nodes(sl.conns), sl.next);
    assert Nodes(sl.conns)[1..] == Nodes(sl.conns[1..]);
  }

  /** Erasing the first node and then, or not, others behind it. */
  lemma EraseHead(n: Node, tail: seq<Node>, next: Node, es: seq<Edit>)
    ensures EditedAll([n] + tail, next, [Erase(n)] + es) == EditedAll(tail, next, es)
    ensures NextAfterAll(next, [Erase(n)] + es) == NextAfterAll(next, es)
  {
    assert ([Erase(n)] + es)[1..] == es && ([n] + tail)[1..] == tail;
  }

  lemma {:induction false} NoAppends(next: Node, es: seq<Edit>)
    requires Append !in es
    ensures NextAfterAll(next, es) == next
    decreases es
  {
    if es != [] {
      assert es[0] in es;
      NoAppends(next, es[1..]);
    }
  }

  /** Both calls only erase, and only nodes of the list. */
  ghost predicate ErasesWithin(es: seq<Edit>, list: seq<Node>) {
    Append !in es && forall n: Node :: Erase(n) in es ==> n in list
  }

  lemma {:induction false} DetachErasesWithin<R>(cs: seq<Conn<R>>, r: R)
    ensures ErasesWithin(DetachEdits(cs, r), Nodes(cs))
  {
    if cs != [] {
      DetachErasesWithin(cs[1..], r);
      NodesCons(cs[0], cs[1..]);
      assert cs == [cs[0]] + cs[1..];
    }
  }

  lemma {:induction false} FirstErasesWithin<R>(cs: seq<Conn<R>>, r: R)
    ensures ErasesWithin(FirstEdit(cs, r), Nodes(cs))
  {
    if cs != [] {
      FirstErasesWithin(cs[1..], r);
      NodesCons(cs[0], cs[1..]);
      assert cs == [cs[0]] + cs[1..];
    }
  }

  lemma {:induction false} DetachIsEdits<R>(sl: Slots<R>, r: R)
    requires Numbered(sl)
    ensures EditedAll(Nodes(sl.conns), sl.next, DetachEdits(sl.conns, r)) == Nodes(Select(sl.conns, r, false))
    decreases |sl.conns|
  {
    if sl.conns != [] {
      var head, tail, es := sl.conns[0], sl.conns[1..], DetachEdits(sl.conns[1..], r);
      NumberedTail(sl);
      DetachIsEdits(Slots(tail, sl.next), r);
      assert sl.conns == [head] + tail;
      SelectCons(head, tail, r);
      if head.dest == r {
        EraseHead(head.node, Nodes(tail), sl.next, es);
        assert Select(sl.conns, r, false) == Select(tail, r, false);
      } else {
        assert DetachEdits(sl.conns, r) == es;
        DetachErasesWithin(tail, r);
        EditedAllCons(head.node, Nodes(tail), sl.next, es);
        NodesCons(head, Select(tail, r, false));
      }
    }
  }

  lemma {:induction false} FirstIsEdit<R>(sl: Slots<R>, r: R)
    requires Numbered(sl)
    ensures EditedAll(Nodes(sl.conns), sl.next, FirstEdit(sl.conns, r)) == Nodes(RemoveFirst(sl.conns, r))
    decreases |sl.conns|
  {
    if sl.conns != [] {
      var head, tail := sl.conns[0], sl.conns[1..];
      NumberedTail(sl);
      if head.dest == r {
        EraseHead(head.node, Nodes(tail), sl.next, []);
      } else {
        FirstIsEdit(Slots(tail, sl.next), r);
        FirstErasesWithin(tail, r);
        EditedAllCons(head.node, Nodes(tail), sl.next, FirstEdit(tail, r));
        NodesCons(head, RemoveFirst(tail, r));
      }
    }
  }

  lemma {:induction false} ClearIsEdits<R>(sl: Slots<R>)
    requires Numbered(sl)
    ensures EditedAll(Nodes(sl.conns), sl.next, ClearEdits(sl.conns)) == []
    ensures NextAfterAll(sl.next, ClearEdits(sl.conns)) == sl.next
    decreases |sl.conns|
  {
    if sl.conns != [] {
      NumberedTail(sl);
      ClearIsEdits(Slots(sl.conns[1..], sl.next));
      EraseHead(sl.conns[0].node, Nodes(sl.conns[1..]), sl.next, ClearEdits(sl.conns[1..]));
    }
  }

  lemma {:induction false} AppendsAreEdits(list: seq<Node>, next: Node, n: nat)
    ensures EditedAll(list, next, Appends(n)) == list + seq(n, i requires 0 <= i => next + i)
    ensures NextAfterAll(next, Appends(n)) == next + n
    decreases n
  {
    if n > 0 {
      AppendsAreEdits(list + [next], next + 1, n - 1);
      assert Appends(n)[1..] == Appends(n - 1);
    }
  }

  lemma {:induction false} SelectedAreCounted<R>(cs: seq<Conn<R>>, r: R)
    ensures |Select(cs, r, true)| == Count(cs, r)
  {
    if cs != [] {
      SelectedAreCounted(cs[..|cs| - 1], r);
    }
  }

  lemma DuplicatedIsEdits<R>(sl: Slots<R>, r: R, q: R)
    ensures EditedAll(Nodes(sl.conns), sl.next, Appends(Count(sl.conns, r))) == Nodes(Duplicated(sl, r, q).conns)
    ensures NextAfterAll(sl.next, Appends(Count(sl.conns, r))) == Duplicated(sl, r, q).next
  {
    SelectedAreCounted(sl.conns, r);
    assert sl.conns[..|sl.conns|] == sl.conns;
    AppendsAreEdits(Nodes(sl.conns), sl.next, Count(sl.conns, r));
  }

  lemma PushIsEdit<R>(sl: Slots<R>, r: R, fun: nat)
    ensures EditedAll(Nodes(sl.conns), sl.next, [Append]) == Nodes(Push(sl, r, fun).conns)
    ensures NextAfterAll(sl.next, [Append]) == Push(sl, r, fun).next
  {
    assert [Append][1..] == [];
  }

  lemma DetachAll<R>(sl: Slots<R>, r: R)
    requires Numbered(sl)
    ensures EditedAll(Nodes(sl.conns), sl.next, DetachEdits(sl.conns, r)) == Nodes(Select(sl.conns, r, false))
    ensures NextAfterAll(sl.next, DetachEdits(sl.conns, r)) == sl.next
  {
    DetachIsEdits(sl, r);
    DetachErasesWithin(sl.conns, r);
    NoAppends(sl.next, DetachEdits(sl.conns, r));
  }

  lemma DetachFirst<R>(sl: Slots<R>, r: R)
    requires Numbered(sl)
    ensures EditedAll(Nodes(sl.conns), sl.next, FirstEdit(sl.conns, r)) == Nodes(RemoveFirst(sl.conns, r))
    ensures NextAfterAll(sl.next, FirstEdit(sl.conns, r)) == sl.next
    ensures !Targets(sl.conns, r) ==> RemoveFirst(sl.conns, r) == sl.conns
  {
    FirstIsEdit(sl, r);
    FirstErasesWithin(sl.conns, r);
    NoAppends(sl.next, FirstEdit(sl.conns, r));
    RemoveFirstEffect(sl.conns, r);
    CountIsTargets(sl.conns, r);
  }

  /** One operation, other than the destruction of s itself, acts on the list of s as its edits. */
  lemma OpIsEdits<S, R>(w: World<S, R>, s: S, op: Op<S, R>)
    requires Defined(w, op) && s in w.lists && op != DestroySignal(s) && Numbered(w.lists[s])
    ensures
      var sl, es := w.lists[s], OpEdits(w, s, op);
      && s in Step(w, op).lists
      && Nodes(Step(w, op).lists[s].conns) == EditedAll(Nodes(sl.conns), sl.next, es)
      && Step(w, op).lists[s].next == NextAfterAll(sl.next, es)
  {
    var sl := w.lists[s];
    match op {
      case Connect(t, r, fun) => PushIsEdit(sl, r, fun);
      case Disconnect(t, r) => DetachFirst(sl, r);
      case DisconnectSignal(t) => ClearIsEdits(sl);
      case DisconnectReceiver(r) => DetachAll(sl, r);
      case DestroyReceiver(r) => DetachAll(sl, r);
      case CopyReceiver(origin, r) => DuplicatedIsEdits(sl, origin, r);
      case _ =>
    }
  }

  lemma OpKeepsNumbered<S, R>(w: World<S, R>, s: S, op: Op<S, R>)
    requires Defined(w, op) && s in w.lists && op != DestroySignal(s) && Numbered(w.lists[s])
    ensures s in Step(w, op).lists && Numbered(Step(w, op).lists[s])
  {
    OpIsEdits(w, s, op);
    EditedAllOrdered(Nodes(w.lists[s].conns), w.lists[s].next, OpEdits(w, s, op));
  }

  /* ---------- which nodes a call erases ---------- */

  lemma NodesAt<R>(cs: seq<Conn<R>>, i: nat)
    requires i < |cs|
    ensures cs[i].node in Nodes(cs)
  {
    assert Nodes(cs)[i] == cs[i].node;
  }

  lemma {:induction false} DetachErases<R>(sl: Slots<R>, r: R, i: nat)
    requires Numbered(sl) && i < |sl.conns|
    ensures Erase(sl.conns[i].node) in DetachEdits(sl.conns, r) <==> sl.conns[i].dest == r
    decreases |sl.conns|
  {
    var tail := Slots(sl.conns[1..], sl.next);
    NumberedTail(sl);
    DetachErasesWithin(tail.conns, r);
    if i > 0 {
      NodesAt(tail.conns, i - 1);
      DetachErases(tail, r, i - 1);
    }
  }

  lemma {:induction false} FirstErases<R>(sl: Slots<R>, r: R, i: nat)
    requires Numbered(sl) && i < |sl.conns|
    ensures Erase(sl.conns[i].node) in FirstEdit(sl.conns, r) <==>
            sl.conns[i].dest == r && forall j :: 0 <= j < i ==> sl.conns[j].dest != r
    decreases |sl.conns|
  {
    var tail := Slots(sl.conns[1..], sl.next);
    NumberedTail(sl);
    FirstErasesWithin(tail.conns, r);
    if i > 0 {
      NodesAt(tail.conns, i - 1);
      FirstErases(tail, r, i - 1);
      assert forall j :: 0 < j < i ==> sl.conns[j] == tail.conns[j - 1];
    }
  }

  lemma {:induction false} ClearErases<R>(cs: seq<Conn<R>>, i: nat)
    requires i < |cs|
    ensures Erase(cs[i].node) in ClearEdits(cs)
  {
    if i > 0 {
      ClearErases(cs[1..], i - 1);
    }
  }

  lemma {:induction false} AppendsEraseNothing(n: nat, m: Node)
    ensures Erase(m) !in Appends(n)
  {
    if n > 0 {
      AppendsEraseNothing(n - 1, m);
    }
  }

  /** An operation erases exactly the nodes of the connections it removes. */
  lemma OpErases<S, R>(w: World<S, R>, s: S, op: Op<S, R>, i: nat)
    requires Defined(w, op) && s in w.lists && Numbered(w.lists[s]) && i < |w.lists[s].conns|
    ensures Erase(w.lists[s].conns[i].node) in OpEdits(w, s, op) <==> Cuts(w, s, op, i)
  {
    var sl := w.lists[s];
    match op
    case Disconnect(t, r) => FirstErases(sl, r, i);
    case DisconnectSignal(t) => ClearErases(sl.conns, i);
    case DisconnectReceiver(r) => DetachErases(sl, r, i);
    case DestroyReceiver(r) => DetachErases(sl, r, i);
    case CopyReceiver(origin, r) => AppendsEraseNothing(Count(sl.conns, origin), sl.conns[i].node);
    case _ =>
  }

  /* ---------- any sequence of calls ---------- */

  /** The calls a callback may make while s emits: any possible run that does not destroy s. */
  ghost predicate Callable<S, R>(w: World<S, R>, s: S, ops: seq<Op<S, R>>) {
    s in w.lists && Possible(w, ops) && DestroySignal(s) !in ops
  }

  lemma CallableStep<S, R>(w: World<S, R>, s: S, ops: seq<Op<S, R>>)
    requires Callable(w, s, ops) && ops != []
    ensures Defined(w, ops[0]) && ops[0] != DestroySignal(s) && Callable(Step(w, ops[0]), s, ops[1..])
  {
    assert ops[0] in ops && forall op :: op in ops[1..] ==> op in ops;
  }

  /** What may be called is settled call by call. */
  lemma CallableExactly<S, R>(w: World<S, R>, s: S, op: Op<S, R>, ops: seq<Op<S, R>>)
    ensures Callable(w, s, []) <==> s in w.lists
    ensures Callable(w, s, [op] + ops) <==>
      s in w.lists && Defined(w, op) && op != DestroySignal(s) && Callable(Step(w, op), s, ops)
  {
    assert ([op] + ops)[1..] == ops;
    if Callable(w, s, [op] + ops) {
      CallableStep(w, s, [op] + ops);
    }
  }

  ghost function RunEdits<S, R>(w: World<S, R>, s: S, ops: seq<Op<S, R>>): seq<Edit>
    requires Callable(w, s, ops)
    decreases ops
  {
    if ops == [] then []
    else
      CallableStep(w, s, ops);
      OpEdits(w, s, ops[0]) + RunEdits(Step(w, ops[0]), s, ops[1..])
  }

  /** Some operation of the run removes the connection numbered n. */
  ghost predicate RunCuts<S, R>(w: World<S, R>, s: S, ops: seq<Op<S, R>>, n: Node)
    requires Callable(w, s, ops)
    decreases ops
  {
    ops != [] &&
    (CallableStep(w, s, ops);
     CutsNode(w, s, ops[0], n) || RunCuts(Step(w, ops[0]), s, ops[1..], n))
  }

  ghost predicate CutsNode<S, R>(w: World<S, R>, s: S, op: Op<S, R>, n: Node)
    requires Defined(w, op) && s in w.lists
  {
    exists i :: 0 <= i < |w.lists[s].conns| && w.lists[s].conns[i].node == n && Cuts(w, s, op, i)
  }

  /** A list only loses connections and gains new ones: the connection with an old number is the one
      that had it. */
  ghost predicate Grows<R>(before: Slots<R>, after: Slots<R>) {
    && before.next <= after.next
    && forall c :: c in after.conns ==> c in before.conns || before.next <= c.node
  }

  lemma OpGrows<S, R>(w: World<S, R>, s: S, op: Op<S, R>)
    requires Defined(w, op) && s in w.lists && op != DestroySignal(s)
    ensures s in Step(w, op).lists && Grows(w.lists[s], Step(w, op).lists[s])
  {
    var cs := w.lists[s].conns;
    match op
    case Disconnect(t, r) => RemoveFirstEffect(cs, r);
    case DisconnectReceiver(r) => SelectGrows(w.lists[s], r);
    case DestroyReceiver(r) => SelectGrows(w.lists[s], r);
    case _ =>
  }

  lemma SelectGrows<R>(sl: Slots<R>, r: R)
    ensures Grows(sl, sl.(conns := Select(sl.conns, r, false)))
  {
    SelectMembers(sl.conns, r, false);
  }

  lemma {:induction false} EditedAllAfter(list: seq<Node>, next: Node, a: seq<Edit>, b: seq<Edit>)
    ensures EditedAll(list, next, a + b) == EditedAll(EditedAll(list, next, a), NextAfterAll(next, a), b)
    ensures NextAfterAll(next, a + b) == NextAfterAll(NextAfterAll(next, a), b)
    decreases a
  {
    if a == [] {
      assert a + b == b;
    } else {
      assert (a + b)[1..] == a[1..] + b;
      EditedAllAfter(Edited(list, next, a[0]), NextAfter(next, a[0]), a[1..], b);
    }
  }

  /** Whatever calls a callback makes, mixed in any way: the list they leave in the registry is the
      one their edits make of the walked list, with every kept connection as it was. */
  lemma {:induction false} RunIsEdits<S, R>(w: World<S, R>, s: S, ops: seq<Op<S, R>>)
    requires Callable(w, s, ops) && Numbered(w.lists[s])
    ensures
      var sl, es := w.lists[s], RunEdits(w, s, ops);
      && s in Run(w, ops).lists
      && Nodes(Run(w, ops).lists[s].conns) == EditedAll(Nodes(sl.conns), sl.next, es)
      && Run(w, ops).lists[s].next == NextAfterAll(sl.next, es)
      && Numbered(Run(w, ops).lists[s])
      && Grows(sl, Run(w, ops).lists[s])
    decreases ops
  {
    if ops != [] {
      var sl, w' := w.lists[s], Step(w, ops[0]);
      CallableStep(w, s, ops);
      OpIsEdits(w, s, ops[0]);
      OpKeepsNumbered(w, s, ops[0]);
      OpGrows(w, s, ops[0]);
      RunIsEdits(w', s, ops[1..]);
      EditedAllAfter(Nodes(sl.conns), sl.next, OpEdits(w, s, ops[0]), RunEdits(w', s, ops[1..]));
    }
  }

  lemma CutIsErased<S, R>(w: World<S, R>, s: S, op: Op<S, R>, n: Node)
    requires Defined(w, op) && s in w.lists && Numbered(w.lists[s]) && n in Nodes(w.lists[s].conns)
    ensures CutsNode(w, s, op, n) <==> Erase(n) in OpEdits(w, s, op)
  {
    var cs := w.lists[s].conns;
    var k :| 0 <= k < |cs| && Nodes(cs)[k] == n;
    OpErases(w, s, op, k);
    if CutsNode(w, s, op, n) {
      var i :| 0 <= i < |cs| && cs[i].node == n && Cuts(w, s, op, i);
      OpErases(w, s, op, i);
    }
  }

  /** The saved next is spared by any sequence of calls exactly when none of them removes it, and that
      is exactly when it is still connected afterwards. */
  lemma {:induction false} SavedNextIsSpared<S, R>(w: World<S, R>, s: S, ops: seq<Op<S, R>>, saved: Node)
    requires Callable(w, s, ops) && Numbered(w.lists[s]) && saved in Nodes(w.lists[s].conns)
    ensures Erase(saved) !in RunEdits(w, s, ops) <==> !RunCuts(w, s, ops, saved)
    ensures s in Run(w, ops).lists
    ensures saved in Nodes(Run(w, ops).lists[s].conns) <==> !RunCuts(w, s, ops, saved)
    decreases ops
  {
    RunIsEdits(w, s, ops);
    SavedNextSurvives(Nodes(w.lists[s].conns), w.lists[s].next, saved, RunEdits(w, s, ops));
    if ops != [] {
      CallableStep(w, s, ops);
      CutIsErased(w, s, ops[0], saved);
      if !CutsNode(w, s, ops[0], saved) {
        OpIsEdits(w, s, ops[0]);
        OpKeepsNumbered(w, s, ops[0]);
        SavedNextSurvives(Nodes(w.lists[s].conns), w.lists[s].next, saved, OpEdits(w, s, ops[0]));
        SavedNextIsSpared(Step(w, ops[0]), s, ops[1..], saved);
      }
    }
  }
}
